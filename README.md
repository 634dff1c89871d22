# A runtime borrow checker for Java objects, modelled in Dafny

The system emulates Rust-style ownership at run time. An `Exclusive<T>` cell owns a
value and tracks its borrow state: a writer flag (`isMutablyBorrowed`) and a read
count (`immutableBorrowCount`). `borrow` hands out a shared `BorrowGuard`.
`borrowMut` hands out an exclusive one. Closing a guard calls `release` on its
cell. `BorrowUtils.borrowMutAll` takes exclusive borrows on several cells at once.
It sorts a copy of the argument by identity hash and enters the cells' monitors
one inside the other in that order. Inside the innermost monitor it calls
`borrowMut` on every cell in the caller's order and bundles the guards into a
`GuardGroup`. Closing the group closes each guard in order.

The model keeps the sequential behaviour and drops the threads:

- `BorrowStates` (borrow_states.dfy) holds the cell's state machine as values: one
  transition function per operation, the state reached by any sequence of
  operations (`Run`), and the lemmas about such sequences.
- `Cells` (cells.dfy) holds the classes `Exclusive` and `BorrowGuard`. Their
  methods update the fields in place. Each method is proved against the
  transition functions.
- `Groups` (groups.dfy) holds `GuardGroup`.
- `LockOrder` (lock_order.dfy) holds the sort by key and the trace of
  monitor entries and exits that `synchronizeRecursively` produces.
- `BorrowUtils` (borrow_utils.dfy) holds `borrowMutAll` and `releaseAll`.
- `Errors` (errors.dfy) holds the two exceptions as values.

A blocking `wait()` becomes the condition under which the call goes ahead.

- `borrow` waits in a `while` loop until no writer holds the cell, so
  `Exclusive.Borrow` requires `!isMutablyBorrowed`.
- `borrowMut` waits at most once, under a single `if`. After one wake-up (any
  `release` of that cell notifies all waiters) it sets the flag without looking
  at the state again. `Exclusive.BorrowMut` therefore has no precondition. It
  keeps the "writer excludes readers" invariant only when no reader holds the
  cell on entry. `BorrowMutOnSharedCellBreaksExclusion` shows the state it
  produces when readers are present. On a cell a writer already holds, the
  call leaves the state unchanged, so a second write guard leaves no trace:
  one release then makes the cell read as free while a write guard is still
  out (`SecondWriterLeavesNoTrace`).
- `BorrowGuard.close` has no closed flag, so every call to `close` releases the
  cell once more, also on a guard that was already closed
  (`DoubleReleaseOfReader`).

## Model

| member | source | states |
|---|---|---|
| `Cells.Exclusive.constructor` | src/main/java/org/demo/banking/ownershipandborrowing/Exclusive.java:4-10 | A new cell owns the given value, is not mutably borrowed and has read count 0, so it is free and consistent. |
| `Cells.Exclusive.Borrow` | src/main/java/org/demo/banking/ownershipandborrowing/Exclusive.java:12-23 | Goes ahead only when no writer holds the cell (its wait loop's exit condition). It raises the read count by exactly one and leaves the writer flag false. It keeps the invariant. It returns a fresh guard on this cell carrying the cell's value. |
| `Cells.Exclusive.BorrowMut` | src/main/java/org/demo/banking/ownershipandborrowing/Exclusive.java:25-36 | Has no precondition, since the single `if` does not re-check after waking. It always ends with the writer flag set and the read count unchanged. On a free cell it yields writer-held with zero readers. It returns a fresh guard on this cell carrying the cell's value. |
| `Cells.Exclusive.Release` | src/main/java/org/demo/banking/ownershipandborrowing/Exclusive.java:38-45 | A writer-held cell loses the flag, and its count is untouched. Otherwise a positive count drops by exactly one. A cell with no borrow is unchanged. A consistent state stays consistent. |
| `Cells.BorrowGuard.constructor` | src/main/java/org/demo/banking/ownershipandborrowing/BorrowGuard.java:4-10 | The guard's final cell and value are the ones supplied. |
| `Cells.BorrowGuard.Get` | src/main/java/org/demo/banking/ownershipandborrowing/BorrowGuard.java:12-14 | Returns exactly the value supplied at construction. |
| `Cells.BorrowGuard.Close` | src/main/java/org/demo/banking/ownershipandborrowing/BorrowGuard.java:17-19 | Each call performs exactly one release of the owning cell and touches nothing else. There is no closed flag, so a second call releases again. |
| `BorrowStates.StepKeepsConsistent` | src/main/java/org/demo/banking/ownershipandborrowing/Exclusive.java:12-45 | borrow, borrowMut and release each preserve "count non-negative and writer implies zero readers" when they go ahead without waiting. |
| `BorrowStates.BorrowMutOnSharedCellBreaksExclusion` | src/main/java/org/demo/banking/ownershipandborrowing/Exclusive.java:25-36 | borrowMut on a cell that still has readers sets the writer flag beside them, which breaks the invariant. Consistency is kept only when no reader holds the cell on entry. |
| `BorrowStates.SecondWriterLeavesNoTrace` | src/main/java/org/demo/banking/ownershipandborrowing/Exclusive.java:25-45 | borrowMut on a writer-held cell leaves the state unchanged. Setting the flag and releasing once returns the cell to the initial state. The run borrowMut, release, borrowMut, borrowMut, release (two writers woken by one release) stays consistent at every step and ends free, although the last write guard is still out. |
| `BorrowStates.StepKeepsCountNonNegative` | src/main/java/org/demo/banking/ownershipandborrowing/Exclusive.java:21-42 | No single transition makes a non-negative count negative. release lowers it by at most one. |
| `BorrowStates.ReadersNeverNegative` | src/main/java/org/demo/banking/ownershipandborrowing/Exclusive.java:38-45 | Under any sequence of borrow, borrowMut and release, whether or not they would have waited, the read count is non-negative at every point. The reason is that release on a cell without borrows changes nothing. |
| `BorrowStates.ConsistentThroughout` | src/main/java/org/demo/banking/ownershipandborrowing/Exclusive.java:12-45 | Start from a consistent cell and let every call go ahead only under its wait condition. Then the writer flag and a positive read count never hold together, at any point of the sequence. |
| `BorrowStates.ReleaseTimesOnReaders` | src/main/java/org/demo/banking/ownershipandborrowing/Exclusive.java:38-45 | Releasing a reader-held cell k times removes k readers and stops at zero. |
| `BorrowStates.ReleaseTimesOnWriter` | src/main/java/org/demo/banking/ownershipandborrowing/Exclusive.java:38-45 | Releasing a writer-held cell k >= 1 times clears the writer first, then removes k - 1 readers. Released once with no readers, the cell is free. |
| `BorrowStates.DoubleReleaseOfReader` | src/main/java/org/demo/banking/ownershipandborrowing/BorrowGuard.java:17-19 | Closing a read guard twice releases twice. With n >= 2 readers the count drops by two, so another reader's borrow is taken away. With fewer readers the cell ends free and the count never goes below zero. |
| `LockOrder.SortByKey` | src/main/java/org/demo/banking/ownershipandborrowing/BorrowUtils.java:14-15 | The sorted copy is a permutation of the input of the same length, non-decreasing by the key. Keys may tie. |
| `LockOrder.SortByKeyStable` | src/main/java/org/demo/banking/ownershipandborrowing/BorrowUtils.java:14-15 | The sort is stable, as `List.sort` is: for every key value, the cells with that key appear in the sorted copy in the order they were passed. |
| `LockOrder.InsertFilter` | src/main/java/org/demo/banking/ownershipandborrowing/BorrowUtils.java:15 | Inserting one cell into a sorted sequence places it ahead of the cells that share its key and leaves their order alone. |
| `LockOrder.SortedArrangementUnique` | src/main/java/org/demo/banking/ownershipandborrowing/BorrowUtils.java:13-15 | Under a key with no ties, two sequences that are both sorted by the key and hold the same elements are equal, so the sorted order is determined. |
| `LockOrder.SortByKeyIgnoresArgumentOrder` | src/main/java/org/demo/banking/ownershipandborrowing/BorrowUtils.java:13-15 | When no two of the cells share a key, any reordering of the argument gives the same lock order. This is the deterministic locking the comment promises. |
| `LockOrder.TiedKeysKeepArgumentOrder` | src/main/java/org/demo/banking/ownershipandborrowing/BorrowUtils.java:13-15 | Two cells with equal keys stay in argument order, as under a stable sort. Two calls that pass them in opposite orders therefore take the monitors in opposite orders. |
| `LockOrder.SynchronizeRecursively` | src/main/java/org/demo/banking/ownershipandborrowing/BorrowUtils.java:30-38 | The trace from any index has length twice the number of remaining locks plus one, and the body run sits at its middle. The order of the entries and exits is proved by `SynchronizeRecursivelyShape`. |
| `LockOrder.SynchronizeAll` | src/main/java/org/demo/banking/ownershipandborrowing/BorrowUtils.java:26-28 | The monitors of all the locks are entered in list order, the body runs exactly once after the last entry, and the monitors are left in reverse list order. |
| `LockOrder.SynchronizeRecursivelyShape` | src/main/java/org/demo/banking/ownershipandborrowing/BorrowUtils.java:30-38 | From index on, the monitors of locks[index..] are entered in ascending index order. The body runs exactly once, after the last index. The monitors are then left in reverse order. The trace is finite because the index strictly increases. |
| `LockOrder.LockTraceOfSortedCells` | src/main/java/org/demo/banking/ownershipandborrowing/BorrowUtils.java:14-28 | For distinct cells, the monitors are entered in non-decreasing key order and each cell's monitor exactly once. All of them are entered before the body runs, which runs once. They are left in the reverse of the entry order. |
| `Groups.GuardGroup.constructor` | src/main/java/org/demo/banking/ownershipandborrowing/GuardGroup.java:9-13 | The group holds the supplied guards in the supplied order. It keeps them in a final value, so later changes to the caller's list cannot reach it. |
| `Groups.GuardGroup.OfArray` | src/main/java/org/demo/banking/ownershipandborrowing/GuardGroup.java:15-17 | The varargs form holds exactly the array's guards, in order, the same group the list form gives. |
| `Groups.GuardGroup.Get` | src/main/java/org/demo/banking/ownershipandborrowing/GuardGroup.java:19-21 | Returns the index-th guard in construction order, or IndexOutOfBounds exactly when the index is out of range. |
| `Groups.GuardGroup.Size` | src/main/java/org/demo/banking/ownershipandborrowing/GuardGroup.java:23-25 | Equals the number of guards supplied at construction. |
| `Groups.GuardGroup.Close` | src/main/java/org/demo/banking/ownershipandborrowing/GuardGroup.java:27-32 | Closes every stored guard once, in stored order. A cell held by c of the guards is released exactly c times. No other object changes. |
| `BorrowUtils.BorrowMutAll` | src/main/java/org/demo/banking/ownershipandborrowing/BorrowUtils.java:10-24 | A null or empty argument gives IllegalArgument and touches no cell. Otherwise the lock order is exactly the sort by key of the input: a permutation of it, sorted by key, containing each cell once. The monitor trace follows that order. The caller's array is not reordered. The group holds one fresh guard per cell in the caller's order, and its size is the input length. Every cell ends writer-held with its count unchanged. Cells that were all free end writer-held with zero readers. |
| `BorrowUtils.BorrowMutEach` | src/main/java/org/demo/banking/ownershipandborrowing/BorrowUtils.java:18-21 | The body run inside the innermost monitor calls borrowMut on every distinct cell in the caller's order. It returns one fresh guard per cell, in that order, each carrying its cell and the cell's value. Every cell ends in the state borrowMut gives it. Cells that were all free end writer-held with zero readers. |
| `BorrowUtils.ReleaseAll` | src/main/java/org/demo/banking/ownershipandborrowing/BorrowUtils.java:40-44 | Calls release once per argument, in argument order. A cell passed c times is released c times. |
| `BorrowUtils.BorrowMutAllThenClose` | src/main/java/org/demo/banking/Main.java:19-25 | The transfer task's try-with-resources pattern, for any array of distinct free cells: take them all with BorrowMutAll, then close the group. Every cell ends free. |
| `BorrowUtils.CloseWriteGroup` | src/main/java/org/demo/banking/ownershipandborrowing/GuardGroup.java:27-32 | Closing a group that holds one guard per cell, on distinct cells each held only by a writer, leaves every cell free. |

## Left out

- Monitor behaviour is not modelled: `synchronized`, `wait()`, `notifyAll()`, and the
  handling of `InterruptedException`. Blocking is replaced by the conditions above.
  Deadlock freedom, liveness and fairness are not stated or proved. The nested
  `synchronized` blocks appear only as the trace of monitor entries and exits.
- An interrupted wait in `borrowMut` is caught and printed, after which the call
  proceeds like a wake-up. This is covered by the absent precondition. In
  `borrow` the loop re-checks, which is covered by its precondition.
- Cells.Exclusive.Borrow: the read count is an unbounded integer. The model does
  not capture Java's 32-bit `int` wrap-around of `immutableBorrowCount++` after
  2^31 - 1 outstanding read borrows.
- `System.identityHashCode` is a JVM call. It is the parameter `identityHash`
  (any function from cells to integers, ties allowed).
- The `Supplier` body passed to `synchronizeAll` is not a closure. In the trace it
  is the single `RunBody` event. `BorrowMutAll` runs it as the call to
  `BorrowMutEach` after computing the trace.
- Wildcard generics (`Exclusive<?>`, `BorrowGuard<?>`) and the unchecked cast in
  `GuardGroup.get` are dropped. A group or a call carries one payload type `T`.
- `null` elements in an argument array are not modelled (they would raise
  `NullPointerException`), and neither is a `null` array passed to `releaseAll`.
  The element types are non-null.
- Passing the same cell twice to `borrowMutAll` is not guarded against in the
  Java code. The second `borrowMut` on that cell finds the flag set and waits for
  a release that nothing in the call performs. `BorrowMutAll` requires distinct
  cells.
- Console output (`System.out.println`, `printStackTrace`) is I/O and is not modelled.
- Main.java (threads, `join`, printing) is not part of this model. Its
  try-with-resources pattern appears only as `BorrowMutAllThenClose`.
- `Bank` and `BankAccount` are the guarded payload, with `double` balances. They are
  not part of this model.
