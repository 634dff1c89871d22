/**
 * The borrow state of one Exclusive cell and its three transitions, as values.
 * The class Cells.Exclusive is proved against these functions; the lemmas here
 * say what any sequence of transitions does to the state.
 */
module BorrowStates {

  /** writerHeld is the field isMutablyBorrowed, readers is immutableBorrowCount. */
  datatype BorrowState = BorrowState(writerHeld: bool, readers: int)

  /** The state of a newly constructed cell. */
  const Initial := BorrowState(false, 0)

  predicate IsFree(s: BorrowState) {
    !s.writerHeld && s.readers == 0
  }

  /** The intended state invariant: no negative count, and a writer excludes readers. */
  predicate Consistent(s: BorrowState) {
    s.readers >= 0 && (s.writerHeld ==> s.readers == 0)
  }

  /** borrow, once its wait loop has exited: one more reader. */
  function AfterBorrow(s: BorrowState): BorrowState {
    s.(readers := s.readers + 1)
  }

  /** borrowMut: the writer flag is set, whatever the state was. */
  function AfterBorrowMut(s: BorrowState): BorrowState {
    s.(writerHeld := true)
  }

  /** release: the writer flag is cleared if set, else one reader leaves if any. */
  function AfterRelease(s: BorrowState): BorrowState {
    if s.writerHeld then s.(writerHeld := false)
    else if s.readers > 0 then s.(readers := s.readers - 1)
    else s
  }

  /** release called k times in a row. */
  function ReleaseTimes(s: BorrowState, k: nat): BorrowState {
    if k == 0 then s else AfterRelease(ReleaseTimes(s, k - 1))
  }

  datatype Op = Borrow | BorrowMut | Release

  function Step(s: BorrowState, op: Op): BorrowState {
    match op
    case Borrow => AfterBorrow(s)
    case BorrowMut => AfterBorrowMut(s)
    case Release => AfterRelease(s)
  }

  /** The state after applying ops, first to last. */
  function Run(s: BorrowState, ops: seq<Op>): BorrowState
    decreases |ops|
  {
    if ops == [] then s else Step(Run(s, ops[..|ops| - 1]), ops[|ops| - 1])
  }

  /**
   * Whether op goes ahead in state s without waiting: borrow once no writer
   * holds the cell (the exit condition of its wait loop), borrowMut on a free
   * cell (the only state in which its single `if` does not wait), release always.
   */
  predicate ProceedsAt(s: BorrowState, op: Op) {
    match op
    case Borrow => !s.writerHeld
    case BorrowMut => IsFree(s)
    case Release => true
  }

  /** Every op of the sequence goes ahead in the state it meets. */
  predicate Admissible(s: BorrowState, ops: seq<Op>)
    decreases |ops|
  {
    ops == [] ||
    (Admissible(s, ops[..|ops| - 1]) && ProceedsAt(Run(s, ops[..|ops| - 1]), ops[|ops| - 1]))
  }

  /** Each transition keeps the invariant when it goes ahead without waiting. */
  lemma StepKeepsConsistent(s: BorrowState, op: Op)
    requires Consistent(s) && ProceedsAt(s, op)
    ensures Consistent(Step(s, op))
  {
  }

  /** borrowMut run on a cell that still has readers puts a writer beside them. */
  lemma BorrowMutOnSharedCellBreaksExclusion(s: BorrowState)
    requires s.readers > 0
    ensures AfterBorrowMut(s).writerHeld && AfterBorrowMut(s).readers == s.readers
    ensures !Consistent(AfterBorrowMut(s))
  {
  }

  /**
   * borrowMut on a cell a writer already holds, as when one release wakes two
   * waiting writers, leaves the state as it was: the second write guard
   * leaves no trace. In the run borrowMut, release, borrowMut, borrowMut,
   * release every state is consistent, yet the cell ends free while the
   * third call's write guard is still out.
   */
  lemma SecondWriterLeavesNoTrace(n: int)
    ensures AfterBorrowMut(BorrowState(true, n)) == BorrowState(true, n)
    ensures AfterRelease(AfterBorrowMut(BorrowState(true, 0))) == Initial
    ensures var ops := [BorrowMut, Release, BorrowMut, BorrowMut, Release];
            && Run(Initial, ops) == Initial
            && forall k :: 0 <= k <= |ops| ==> Consistent(Run(Initial, ops[..k]))
  {
    var ops := [BorrowMut, Release, BorrowMut, BorrowMut, Release];
    var held := BorrowState(true, 0);
    assert Run(Initial, ops[..0]) == Initial;
    assert Run(Initial, ops[..1]) == held by { assert ops[..1][..0] == ops[..0]; }
    assert Run(Initial, ops[..2]) == Initial by { assert ops[..2][..1] == ops[..1]; }
    assert Run(Initial, ops[..3]) == held by { assert ops[..3][..2] == ops[..2]; }
    assert Run(Initial, ops[..4]) == held by { assert ops[..4][..3] == ops[..3]; }
    assert Run(Initial, ops[..5]) == Initial by { assert ops[..5][..4] == ops[..4]; }
    assert ops[..5] == ops;
  }

  /** A non-negative count stays non-negative after any one transition. */
  lemma StepKeepsCountNonNegative(s: BorrowState, op: Op)
    requires s.readers >= 0
    ensures Step(s, op).readers >= 0
    ensures op == Release ==> Step(s, op).readers >= s.readers - 1
  {
  }

  /**
   * Whatever the order of borrow, borrowMut and release calls, and whether or
   * not they would have waited, the read count never becomes negative.
   */
  lemma {:induction false} ReadersNeverNegative(s: BorrowState, ops: seq<Op>)
    requires s.readers >= 0
    ensures forall k :: 0 <= k <= |ops| ==> Run(s, ops[..k]).readers >= 0
  {
    if ops != [] {
      var init := ops[..|ops| - 1];
      ReadersNeverNegative(s, init);
      assert init[..|init|] == init;
      StepKeepsCountNonNegative(Run(s, init), ops[|ops| - 1]);
      forall k | 0 <= k <= |ops|
        ensures Run(s, ops[..k]).readers >= 0
      {
        if k < |ops| {
          assert ops[..k] == init[..k];
        } else {
          assert ops[..k] == ops;
        }
      }
    }
  }

  /**
   * When every call goes ahead only under its wait condition, a consistent cell
   * is consistent at every point: never a writer beside readers.
   */
  lemma {:induction false} ConsistentThroughout(s: BorrowState, ops: seq<Op>)
    requires Consistent(s) && Admissible(s, ops)
    ensures forall k :: 0 <= k <= |ops| ==> Consistent(Run(s, ops[..k]))
  {
    if ops != [] {
      var init := ops[..|ops| - 1];
      ConsistentThroughout(s, init);
      assert init[..|init|] == init;
      StepKeepsConsistent(Run(s, init), ops[|ops| - 1]);
      forall k | 0 <= k <= |ops|
        ensures Consistent(Run(s, ops[..k]))
      {
        if k < |ops| {
          assert ops[..k] == init[..k];
        } else {
          assert ops[..k] == ops;
        }
      }
    }
  }

  /** Releasing a reader-held cell k times removes k readers, stopping at zero. */
  lemma {:induction false} ReleaseTimesOnReaders(n: int, k: nat)
    requires n >= 0
    ensures ReleaseTimes(BorrowState(false, n), k) ==
            BorrowState(false, if k <= n then n - k else 0)
  {
    if k > 0 {
      ReleaseTimesOnReaders(n, k - 1);
    }
  }

  /** Releasing a writer-held cell k >= 1 times clears the writer, then removes k - 1 readers. */
  lemma {:induction false} ReleaseTimesOnWriter(n: int, k: nat)
    requires n >= 0 && k >= 1
    ensures ReleaseTimes(BorrowState(true, n), k) ==
            BorrowState(false, if k - 1 <= n then n - (k - 1) else 0)
  {
    if k == 1 {
    } else {
      ReleaseTimesOnWriter(n, k - 1);
    }
  }

  /**
   * A guard closed twice releases twice: from a state with n >= 2 readers the
   * second close takes away a read borrow that belongs to someone else; from
   * a free cell both closes change nothing.
   */
  lemma DoubleReleaseOfReader(n: int)
    requires n >= 0
    ensures n >= 2 ==> ReleaseTimes(BorrowState(false, n), 2) == BorrowState(false, n - 2)
    ensures n < 2 ==> ReleaseTimes(BorrowState(false, n), 2) == Initial
  {
    ReleaseTimesOnReaders(n, 2);
  }
}
