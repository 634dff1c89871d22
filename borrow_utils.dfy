/**
 * BorrowUtils: exclusive borrows on several cells at once, taken inside the
 * cells' monitors entered in key order, and a release of several cells.
 */
module BorrowUtils {
  import opened BorrowStates
  import opened Cells
  import opened Groups
  import opened LockOrder
  import opened Errors

  const EmptyInputMessage := "Input must not be null or empty"

  /** The cells of a (non-null) argument array, as a set. */
  function CellSet<T>(exclusives: array<Exclusive<T>>): set<Exclusive<T>>
    reads exclusives
  {
    set i | 0 <= i < exclusives.Length :: exclusives[i]
  }

  /**
   * borrowMutAll. A null or empty argument is rejected before any cell is
   * touched. Otherwise a copy of the argument is sorted by identityHash (the
   * JVM's identity hash, a parameter here; keys may tie), the monitors of the
   * sorted cells are entered in ascending index order (lockTrace), and inside
   * them borrowMut is called on every cell in the caller's order; the guards
   * come back in a group in that same order. The caller's array is not
   * reordered. The Java code does not guard against one cell passed twice:
   * the second borrowMut on it finds the flag set and waits for a release that
   * nothing in the call performs. The cells are required to be distinct.
   */
  method BorrowMutAll<T>(exclusives: array?<Exclusive<T>>, identityHash: Exclusive<T> -> int)
    returns (r: Result<GuardGroup<T>>,
             ghost lockOrder: seq<Exclusive<T>>, ghost lockTrace: seq<LockEvent<Exclusive<T>>>)
    requires exclusives != null ==> Distinct(exclusives[..])
    modifies if exclusives == null then {} else CellSet(exclusives)
    ensures r.Err? <==> exclusives == null || exclusives.Length == 0
    ensures r.Err? ==> r.error == IllegalArgument(EmptyInputMessage) && lockTrace == []
    ensures exclusives != null ==> exclusives[..] == old(exclusives[..])
    ensures r.Ok? ==>
              && lockOrder == SortByKey(exclusives[..], identityHash)
              && multiset(lockOrder) == multiset(exclusives[..])
              && SortedByKey(lockOrder, identityHash)
              && (forall c :: c in exclusives[..] ==> multiset(lockOrder)[c] == 1)
              && lockTrace == SynchronizeAll(lockOrder)
    ensures r.Ok? ==>
              && fresh(r.value)
              && r.value.Size() == exclusives.Length
              && (forall k :: 0 <= k < exclusives.Length ==>
                    && fresh(r.value.guards[k])
                    && r.value.guards[k].reference == exclusives[k]
                    && r.value.guards[k].value == exclusives[k].value)
    ensures r.Ok? ==>
              forall k :: 0 <= k < exclusives.Length ==>
                && exclusives[k].isMutablyBorrowed
                && exclusives[k].immutableBorrowCount == old(exclusives[k].immutableBorrowCount)
    ensures r.Ok? && (forall k :: 0 <= k < exclusives.Length ==> old(IsFree(exclusives[k].State()))) ==>
              forall k :: 0 <= k < exclusives.Length ==>
                exclusives[k].State() == BorrowState(true, 0) && Consistent(exclusives[k].State())
  {
    if exclusives == null || exclusives.Length == 0 {
      return Err(IllegalArgument(EmptyInputMessage)), [], [];
    }
    var cells := exclusives[..];
    lockOrder := SortByKey(cells, identityHash);
    lockTrace := SynchronizeAll(lockOrder);
    LockTraceOfSortedCells(cells, identityHash);
    var guards := BorrowMutEach(cells);
    var group := new GuardGroup(guards);
    r := Ok(group);
  }

  /**
   * The body run inside the innermost monitor: borrowMut on every cell in the
   * caller's order, collecting the guards in that order.
   */
  method BorrowMutEach<T>(cells: seq<Exclusive<T>>) returns (guards: seq<BorrowGuard<T>>)
    requires Distinct(cells)
    modifies set c | c in cells
    ensures |guards| == |cells|
    ensures forall k :: 0 <= k < |cells| ==>
              && fresh(guards[k])
              && guards[k].reference == cells[k]
              && guards[k].value == cells[k].value
    ensures forall k :: 0 <= k < |cells| ==> cells[k].State() == AfterBorrowMut(old(cells[k].State()))
    ensures (forall k :: 0 <= k < |cells| ==> old(IsFree(cells[k].State()))) ==>
              forall k :: 0 <= k < |cells| ==> cells[k].State() == BorrowState(true, 0)
  {
    guards := [];
    var i := 0;
    while i < |cells|
      invariant 0 <= i <= |cells|
      invariant |guards| == i
      invariant forall k :: 0 <= k < i ==>
                  && fresh(guards[k])
                  && guards[k].reference == cells[k]
                  && guards[k].value == cells[k].value
      invariant forall k :: 0 <= k < i ==> cells[k].State() == AfterBorrowMut(old(cells[k].State()))
      invariant forall k :: i <= k < |cells| ==> cells[k].State() == old(cells[k].State())
    {
      var guard := cells[i].BorrowMut();
      guards := guards + [guard];
      i := i + 1;
    }
  }

  /**
   * releaseAll: release on each argument once, in argument order (released
   * lists them as they are released). A cell passed c times is released c
   * times; every other object is left alone.
   */
  method ReleaseAll<T>(exclusives: array<Exclusive<T>>) returns (ghost released: seq<Exclusive<T>>)
    modifies CellSet(exclusives)
    ensures released == exclusives[..]
    ensures forall c :: c in released ==> c.State() == ReleaseTimes(old(c.State()), multiset(released)[c])
  {
    released := [];
    var i := 0;
    while i < exclusives.Length
      invariant 0 <= i <= exclusives.Length
      invariant released == exclusives[..i]
      invariant forall c :: c in exclusives[..] ==>
                  c.State() == ReleaseTimes(old(c.State()), multiset(released)[c])
    {
      var cell := exclusives[i];
      ghost var before: seq<Exclusive<T>> := released;
      label BeforeRelease:
      cell.Release();
      released := released + [cell];
      forall c | c in exclusives[..]
        ensures c.State() == ReleaseTimes(old(c.State()), multiset(released)[c])
      {
        OccurrencesAfterAppend(before, cell, c);
        if c != cell {
          assert c.State() == old@BeforeRelease(c.State());
        }
      }
      i := i + 1;
    }
    assert exclusives[..i] == exclusives[..];
  }

  /**
   * The calling pattern of the transfer task, for any number of cells: take
   * write borrows on all of them with BorrowMutAll, then close the group.
   * Distinct cells that were free end free again.
   */
  method BorrowMutAllThenClose<T>(exclusives: array<Exclusive<T>>, identityHash: Exclusive<T> -> int)
    requires Distinct(exclusives[..])
    requires forall k :: 0 <= k < exclusives.Length ==> IsFree(exclusives[k].State())
    modifies CellSet(exclusives)
    ensures forall k :: 0 <= k < exclusives.Length ==> IsFree(exclusives[k].State())
  {
    var r, _, _ := BorrowMutAll(exclusives, identityHash);
    if r.Ok? {
      CloseWriteGroup(r.value, exclusives[..]);
    }
  }

  /** Closing a group that holds one write guard on each of distinct, writer-only cells frees them all. */
  method CloseWriteGroup<T>(group: GuardGroup<T>, cells: seq<Exclusive<T>>)
    requires References(group.guards) == cells && Distinct(cells)
    requires forall c :: c in cells ==> c.State() == BorrowState(true, 0)
    modifies set c | c in cells
    ensures forall c :: c in cells ==> IsFree(c.State())
  {
    ghost var closed := group.Close();
    forall c | c in cells
      ensures IsFree(c.State())
    {
      DistinctOccursOnce(cells, c);
      ReleaseTimesOnWriter(0, 1);
    }
  }
}
