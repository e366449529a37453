# Hand-over-hand sorted linked list

A model of a thread-safe sorted singly-linked list of C `int` values
(`concurrent_list.c`). The list handle holds a `head` pointer and a
`headLock` that stands in as the lock "before" the first node; every node
carries a value, a `next` pointer and its own mutex. Every operation walks the
list hand over hand: it locks `headLock`, then the head node, and moves on by
locking the next node before releasing the one behind it. The operations are
ordered insertion (duplicates allowed, a new value goes behind equal ones),
removal of the first node holding a value, printing, counting the values
that satisfy a predicate, and deleting the whole list.

The project has three modules:

- `ListSpec` (`list_spec.dfy`): the list's values as a sequence, the
  functions `Insert`, `RemoveFirst`, `CountIf` and `Printed` that say what
  each operation does to that sequence or prints, and the lemmas about them
  (sortedness kept, multisets, insertion point, insert-then-remove).
- `Locks` (`locks.dfy`): the locking discipline as ghost bookkeeping. A walk
  names its locks by list position (`HeadLock` is -1, node k is k) and keeps
  the positions it holds as a window of consecutive positions. `CanLock`
  only admits `headLock` first and then the position right after the last
  one taken. `CanUnlock` admits the front lock at any time, and the rear lock
  only when it is the last one held or once the lock ahead has been taken.
- `ConcurrentList` (`concurrent_list.dfy`): the classes `Node` and
  `SortedList` and one method per C function. Each method does the C code's
  pointer updates on the heap and keeps a ghost `Valid()` invariant. That
  invariant says `head` starts a null-terminated chain of distinct nodes whose
  values are the ghost sequence `elems` and whose nodes are `Repr`. Each
  method's postcondition ties the new `elems` to the `ListSpec` function.
  Each `pthread_mutex_lock` and `pthread_mutex_unlock` of the source is a
  ghost `Lock` or `Unlock` step, and its precondition enforces the discipline
  above. The pointer updates (`InstallHead`, `LinkAfter`, `UnlinkHead`,
  `UnlinkAfter`) take the walk's window and require the locks that guard the
  pointers they touch: `headLock` for `list->head`, a node's own lock for its
  `next`. Each read of a node's value in a walk is asserted to happen while
  that node's lock is held. The operations `InsertValue`, `RemoveValue`,
  `PrintList`, `CountList` and `DeleteList`, and the walks `InsertWalk` and
  `RemoveWalk`, return the window they hold at exit and promise that it is
  `Free`, so no path leaves a lock held. The five operations also take the
  caller's window and require it to be `Free`. So no operation is entered
  while its caller holds a lock, and in particular `delete_list` releases
  `headLock` and the head's lock before it calls `remove_value`, which
  takes `headLock` itself (lines 72-75 and 204).

A null list handle is a no-op for every operation, as in the C code.
`print_list` still writes its newline in that case, and `count_list` counts 0.

The comments at `concurrent_list.c:84` and `:195` describe a walk as
locking only two nodes at a time. The code briefly holds three: the loops of `insert_value` (through
`compareValueAndLock`), `remove_value`, `print_list` and `count_list` lock
the next node before they release the one behind `current`. The model
follows the code. `LockUnlockEffect` bounds the window at three, and the
discipline demands the third lock before the rear one is dropped.

## Model

| member | source | states |
|---|---|---|
| ConcurrentList.CreateList | concurrent_list.c:42-55 | a fresh, valid list with a null head, no values and no nodes |
| ConcurrentList.CreateNode | concurrent_list.c:165-183 | a fresh node carrying the value with a null `next` |
| ConcurrentList.InsertValue | concurrent_list.c:85-126 | on a non-null list: exactly one fresh node holding `value` joins the chain at the insertion point (behind every leading value at most `value`, in front of the first greater one), every old node keeps its order, the values become `Insert(old values, value)`, the list stays valid, a sorted list stays sorted, and no lock is left held; a null list is a no-op |
| ConcurrentList.InsertWalk | concurrent_list.c:128-148 | entered holding `headLock` and the head, the walk stops at the insertion point of the new value, links the new node in there, keeps the list valid and releases every lock, taking them forward and hand over hand |
| ConcurrentList.CompareValueAndLock | concurrent_list.c:152-163 | answers yes exactly when `next` is non-null and its value is at most `value`; the lock on `next` is held afterwards exactly when the answer is yes |
| ConcurrentList.InstallHead | concurrent_list.c:97-110 | with `headLock` held, making a node that points at the old head the new head puts its value and itself at position 0 and adds it to the owned nodes, keeping the list valid |
| ConcurrentList.LinkAfter | concurrent_list.c:142-143 | with the lock of the node at position i held, linking a node in behind it puts its value and itself at position i + 1, keeping the list valid |
| ConcurrentList.UnlinkHead | concurrent_list.c:215-223 | with `headLock` and the head's lock held, moving the head to its successor takes out position 0 and the old head node, keeping the list valid |
| ConcurrentList.UnlinkAfter | concurrent_list.c:238-246 | with the locks of the nodes at positions i and i + 1 held, bypassing the latter takes out position i + 1 and that node, keeping the list valid |
| ConcurrentList.RemoveValue | concurrent_list.c:196-223 | on a non-null list: if `value` occurs, the node at its first occurrence leaves the chain and the owned nodes and nothing else moves; if not, nothing changes; in both cases the values become `RemoveFirst(old values, value)`, the list stays valid, a sorted list stays sorted, and no lock is left held |
| ConcurrentList.RemoveWalk | concurrent_list.c:225-256 | entered holding `headLock` and a head that does not hold the value, the walk finds the first later node holding the value and unlinks it (its position and the one node leave the list), or reaches the end having seen no such value and changes nothing; the list stays valid and every lock is released, taken forward and hand over hand |
| ConcurrentList.PrintList | concurrent_list.c:258-305 | the output is every value in list order followed by one newline, and only the newline for a null or empty list; for a sorted list the values come out ascending; no lock is left held |
| ConcurrentList.CountList | concurrent_list.c:307-358 | the count is the number of values in the list satisfying the predicate, 0 for a null or empty list; no lock is left held |
| ConcurrentList.DeleteList | concurrent_list.c:58-81 | entered with no lock held, it calls `remove_value` only after releasing every lock it holds; repeatedly removing the head value empties the list: no values, no nodes owned, null head, still valid, no lock held |
| ListSpec.Insert | concurrent_list.c:85-148 | inserting adds exactly one element |
| ListSpec.RemoveFirst | concurrent_list.c:196-256 | removing shortens the sequence by one exactly when the value occurs |
| ListSpec.CountIf | concurrent_list.c:307-358 | the count never exceeds the number of values |
| ListSpec.Printed | concurrent_list.c:258-305 | one token per value and then the newline; for a sorted list the printed values are ascending |
| ListSpec.InsertAt | concurrent_list.c:106-148 | `Insert` splices the value in at the insertion point the walk finds |
| ListSpec.InsertMultiset | concurrent_list.c:85-148 | inserting adds exactly one occurrence of the value and changes nothing else |
| ListSpec.InsertSorted | concurrent_list.c:85-148 | inserting into a sorted list keeps it sorted |
| ListSpec.SortedAfterInsert | concurrent_list.c:85-148 | whatever the list, if it was sorted before an insert it is sorted after |
| ListSpec.InsertStable | concurrent_list.c:129-140 | in a sorted list the new value lands behind every value at most it and in front of every greater one |
| ListSpec.InsertElements | concurrent_list.c:85-148 | the values after inserting are the old ones plus the new one |
| ListSpec.RemoveAt | concurrent_list.c:215-246 | `RemoveFirst` cuts out the element at the first index holding the value |
| ListSpec.RemoveAbsent | concurrent_list.c:227-256 | when the value does not occur, removing changes nothing |
| ListSpec.RemoveMultiset | concurrent_list.c:196-256 | removing takes away one occurrence of the value when there is one, and nothing else |
| ListSpec.RemoveElements | concurrent_list.c:196-256 | removing never introduces a value |
| ListSpec.RemoveSorted | concurrent_list.c:196-256 | removing keeps a sorted list sorted |
| ListSpec.SortedAfterRemove | concurrent_list.c:196-256 | whatever the list, if it was sorted before a removal it is sorted after |
| ListSpec.InsertBelowAll | concurrent_list.c:106-115 | a value no greater than every element goes in front |
| ListSpec.InsertThenRemove | concurrent_list.c:85-256 | on a sorted list, inserting a value and then removing it gives back the same list |
| ListSpec.CountAppend | concurrent_list.c:307-358 | the count of two lists joined is the sum of their counts |
| ListSpec.CountBounds | concurrent_list.c:307-358 | the count is 0 exactly when no value qualifies, and the length exactly when every value does |
| ListSpec.CountComplement | concurrent_list.c:307-358 | each value is counted by exactly one of a predicate and its negation |
| ListSpec.InsertExamples | concurrent_list.c:83-126 | inserting 5, 3, 8, 3, 1 into an empty list gives 1 3 3 5 8; 4 goes behind 1 2 3, 1 in front of 5 and 6 behind it |
| ListSpec.RemoveCountExamples | concurrent_list.c:194-358 | four of 1 3 3 5 8 are odd; removing 3 from 1 2 3 leaves 1 2 and removing 2 from 2 2 2 leaves 2 2; an empty list prints only the newline and counts 0 |
| Locks.LockUnlockEffect | concurrent_list.c:7-8 | each lock taken is beyond every lock held, each unlock drops exactly that lock, and a walk never holds more than three locks |
| Locks.Step | concurrent_list.c:227-249 | one hand-over-hand step moves the held pair one node on through three held locks, and dropping the rear lock before taking the next is refused |

## Left out

- Threads and mutexes: there is one walk and no interleaving. Mutual exclusion, deadlock freedom and linearizability under concurrency are not modelled. Only each walk's own lock order is checked.
- Lock identity: a lock is named by the node's position when it was locked, not by the `pthread_mutex_t` object.
- `malloc` failure and `pthread_mutex_init` failure: they print a message and call `exit`. They are not modelled; allocation always succeeds.
- `releaseNodeMemory`, `free` and `pthread_mutex_destroy`: a released node simply leaves `Repr`. `delete_list`'s final `free(list)` and its destruction of `headLock` are not modelled.
- `printf`: `print_list`'s output is a sequence of tokens (a value, written as `"%d "`, or the newline), not characters. `count_list` returns its count instead of printing `"%d items were counted"`.
- The predicate passed to `count_list` is an arbitrary total `int32 -> bool`; a C predicate with side effects is not modelled.
- ConcurrentList.CountList: `count` is unbounded (`nat`), so a C `int` overflow is not modelled. It cannot exceed the list length.
- ConcurrentList.DeleteList: it is specified under exclusive access, so the race between its `headLock` release and `remove_value` is not modelled.
- ConcurrentList.InsertValue: `insert_value` is split into `InsertValue` (lines 85-126) and `InsertWalk` (lines 128-148) to keep each proof small. The code is the same.
- ConcurrentList.RemoveValue: `remove_value` is split the same way, into `RemoveValue` (lines 196-223) and `RemoveWalk` (lines 225-256).
- ConcurrentList.LinkAfter: on the single-node path, line 122 omits `newNode->next = current->next`. That write is a no-op there, because both are NULL.
- `concurrent_list.h` is not part of this model.
