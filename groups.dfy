/** GuardGroup: an ordered, unmodifiable bundle of guards closed together. */
module Groups {
  import opened BorrowStates
  import opened Cells
  import opened Errors

  /** The cells the guards belong to, in guard order. */
  function References<T>(guards: seq<BorrowGuard<T>>): (cells: seq<Exclusive<T>>)
    ensures |cells| == |guards|
    ensures forall i :: 0 <= i < |guards| ==> cells[i] == guards[i].reference
  {
    seq(|guards|, i requires 0 <= i < |guards| => guards[i].reference)
  }

  /** Appending x adds one occurrence of x and none of anything else. */
  lemma OccurrencesAfterAppend<X>(s: seq<X>, x: X, c: X)
    ensures multiset(s + [x])[c] == multiset(s)[c] + (if c == x then 1 else 0)
  {
  }

  class GuardGroup<T> {
    /** Final, and a value: what the group holds never changes after construction. */
    const guards: seq<BorrowGuard<T>>

    /** Keeps its own copy of the caller's list, in the caller's order. */
    constructor (guards: seq<BorrowGuard<T>>)
      ensures this.guards == guards
    {
      this.guards := guards;
    }

    /** The varargs form: the same group as the list form on the same guards. */
    constructor OfArray(guards: array<BorrowGuard<T>>)
      ensures this.guards == guards[..]
    {
      this.guards := guards[..];
    }

    /** The index-th guard in construction order; out of range is an error. */
    function Get(index: int): (r: Result<BorrowGuard<T>>)
      ensures r.Ok? <==> 0 <= index < |guards|
      ensures r.Ok? ==> r.value == guards[index]
      ensures r.Err? ==> r.error == IndexOutOfBounds(index)
    {
      if 0 <= index < |guards| then Ok(guards[index]) else Err(IndexOutOfBounds(index))
    }

    /** The number of guards supplied at construction. */
    function Size(): (n: nat)
      ensures n == |guards|
    {
      |guards|
    }

    /**
     * Closes every stored guard once, in stored order (closed lists the cell
     * of each guard as it is closed). A cell with c guards in the group is
     * released c times; every other object is left alone.
     */
    method Close() returns (ghost closed: seq<Exclusive<T>>)
      modifies References(guards)
      ensures closed == References(guards)
      ensures forall c :: c in closed ==> c.State() == ReleaseTimes(old(c.State()), multiset(closed)[c])
    {
      ghost var refs := References(guards);
      closed := [];
      var i := 0;
      while i < |guards|
        invariant 0 <= i <= |guards|
        invariant closed == refs[..i]
        invariant forall c :: c in refs ==>
                    c.State() == ReleaseTimes(old(c.State()), multiset(closed)[c])
      {
        var guard := guards[i];
        ghost var before: seq<Exclusive<T>> := closed;
        label BeforeClose:
        guard.Close();
        closed := closed + [guard.reference];
        assert closed == refs[..i + 1];
        forall c | c in refs
          ensures c.State() == ReleaseTimes(old(c.State()), multiset(closed)[c])
        {
          OccurrencesAfterAppend(before, guard.reference, c);
          if c != guard.reference {
            assert c.State() == old@BeforeClose(c.State());
          }
        }
        i := i + 1;
      }
      assert closed == refs;
    }
  }
}
