/**
 * The Exclusive cell and the BorrowGuard it hands out. The monitor's blocking
 * wait() is replaced by a precondition that states when the call goes ahead;
 * each method is proved against the transition functions of BorrowStates.
 */
module Cells {
  import opened BorrowStates

  class Exclusive<T> {
    /** The owned value; final, so no transition touches it. */
    const value: T
    var isMutablyBorrowed: bool
    var immutableBorrowCount: int

    function State(): BorrowState
      reads this
    {
      BorrowState(isMutablyBorrowed, immutableBorrowCount)
    }

    /** A new cell owns value and is free. */
    constructor (value: T)
      ensures this.value == value
      ensures !isMutablyBorrowed && immutableBorrowCount == 0
      ensures IsFree(State()) && Consistent(State())
    {
      this.value := value;
      isMutablyBorrowed := false;
      immutableBorrowCount := 0;
    }

    /**
     * A shared borrow. The wait loop exits only once no writer holds the cell,
     * so the call goes ahead under exactly that condition.
     */
    method Borrow() returns (guard: BorrowGuard<T>)
      requires !isMutablyBorrowed
      modifies this
      ensures State() == AfterBorrow(old(State()))
      ensures !isMutablyBorrowed && immutableBorrowCount == old(immutableBorrowCount) + 1
      ensures Consistent(old(State())) ==> Consistent(State())
      ensures fresh(guard) && guard.reference == this && guard.value == value
    {
      immutableBorrowCount := immutableBorrowCount + 1;
      guard := new BorrowGuard(this, value);
    }

    /**
     * An exclusive borrow. The Java code waits at most once, under a single `if`,
     * and then sets the flag without looking at the state again; so the call
     * has no precondition, always sets the flag and leaves the count alone.
     * Exclusion is kept only when the cell was free on entry.
     */
    method BorrowMut() returns (guard: BorrowGuard<T>)
      modifies this
      ensures State() == AfterBorrowMut(old(State()))
      ensures isMutablyBorrowed && immutableBorrowCount == old(immutableBorrowCount)
      ensures IsFree(old(State())) ==> State() == BorrowState(true, 0) && Consistent(State())
      ensures fresh(guard) && guard.reference == this && guard.value == value
    {
      isMutablyBorrowed := true;
      guard := new BorrowGuard(this, value);
    }

    /**
     * Gives back one borrow: the writer's if there is one, else one reader's;
     * on a free cell nothing changes.
     */
    method Release()
      modifies this
      ensures State() == AfterRelease(old(State()))
      ensures old(isMutablyBorrowed) ==>
                !isMutablyBorrowed && immutableBorrowCount == old(immutableBorrowCount)
      ensures !old(isMutablyBorrowed) && old(immutableBorrowCount) > 0 ==>
                !isMutablyBorrowed && immutableBorrowCount == old(immutableBorrowCount) - 1
      ensures !old(isMutablyBorrowed) && old(immutableBorrowCount) <= 0 ==> State() == old(State())
      ensures Consistent(old(State())) ==> Consistent(State())
    {
      if isMutablyBorrowed {
        isMutablyBorrowed := false;
      } else if immutableBorrowCount > 0 {
        immutableBorrowCount := immutableBorrowCount - 1;
      }
    }
  }

  /** A handle on a borrowed value; closing it releases one borrow of its cell. */
  class BorrowGuard<T> {
    const reference: Exclusive<T>
    const value: T

    constructor (reference: Exclusive<T>, value: T)
      ensures this.reference == reference && this.value == value
    {
      this.reference := reference;
      this.value := value;
    }

    /** The value supplied at construction. */
    function Get(): (v: T)
      ensures v == value
    {
      value
    }

    /**
     * Exactly one release of the owning cell per call: nothing marks the guard
     * as closed, so a second call releases a second time.
     */
    method Close()
      modifies reference
      ensures reference.State() == AfterRelease(old(reference.State()))
    {
      reference.Release();
    }
  }
}
