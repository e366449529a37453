/**
 * The concurrent sorted singly-linked list: nodes, the list handle, and its
 * operations, each walking the list hand over hand.
 *
 * The list operations (`InsertValue`, `RemoveValue`, `PrintList`,
 * `CountList`, `DeleteList`) take a possibly-null handle, as the C functions
 * do, and treat a null handle as a no-op. Every walk keeps a ghost window of
 * the lock positions it holds (see module Locks), updated at each
 * `pthread_mutex_lock`/`pthread_mutex_unlock` of the source. The operations
 * and the two walk methods `InsertWalk` and `RemoveWalk` return it as
 * `heldAtExit`, which they promise to be `Free`: no lock is left held on any
 * exit path. The operations are entered with a window `entry` that must be
 * `Free`: none of them may be called while its caller holds a lock, which
 * is what `delete_list` relies on when it calls `remove_value`.
 *
 * Every pointer update requires the locks that guard it; every read of a
 * node's `value` in a walk is asserted to happen under that node's lock,
 * and the loop invariants keep `current` locked while its `next` is read.
 */
module ConcurrentList {
  import opened ListSpec
  import opened Locks

  class Node {
    var value: int32
    var next: Node?
  }

  class SortedList {
    var head: Node?

    /** The values from `head` onwards, in list order. */
    ghost var elems: seq<int32>
    /** The nodes from `head` onwards, in list order. */
    ghost var spine: seq<Node>
    /** The nodes the list owns: exactly those on the chain. */
    ghost var Repr: set<Node>

    /** `head` starts a null-terminated chain of distinct nodes holding `elems`. */
    ghost predicate Valid()
      reads this, Repr
    {
      Repr == Elements(spine) && Distinct(spine) &&
      |spine| == |elems| &&
      head == (if spine == [] then null else spine[0]) &&
      (forall i :: 0 <= i < |spine| ==> spine[i].value == elems[i]) &&
      (forall i {:trigger spine[i].next} :: 0 <= i < |spine| ==>
         spine[i].next == if i + 1 < |spine| then spine[i + 1] else null)
    }
  }

  /** `create_list`: a fresh list with no nodes. */
  method CreateList() returns (l: SortedList)
    ensures fresh(l)
    ensures l.Valid() && l.head == null && l.elems == [] && l.Repr == {}
  {
    l := new SortedList;
    l.head := null;
    l.elems, l.spine, l.Repr := [], [], {};
  }

  /** `createNode`: a fresh unlinked node carrying `value`. */
  method CreateNode(value: int32) returns (n: Node)
    ensures fresh(n) && n.value == value && n.next == null
  {
    n := new Node;
    n.value := value;
    n.next := null;
  }

  // The pointer updates that link a node into the chain or unlink one from
  // it, each with the ghost bookkeeping that keeps `Valid()`. Each takes the
  // window `h` of the walk that performs it and requires the locks guarding
  // the pointers it changes and reads to be held: `headLock` for
  // `list->head`, a node's own lock for its `next`. The new node is not yet
  // shared, so its `next` needs no lock.

  /** `list->head = n`, where `n` already points at the old head. */
  method InstallHead(l: SortedList, n: Node, ghost h: Window)
    requires l.Valid() && n !in l.Repr && n.next == l.head
    requires Holds(h, HeadLock)
    modifies l
    ensures l.Valid() && l.head == n
    ensures SplicedIn(old(l.elems), n.value, 0, l.elems) && SplicedIn(old(l.spine), n, 0, l.spine)
    ensures l.Repr == old(l.Repr) + {n}
  {
    ghost var sp, es := l.spine, l.elems;
    l.head := n;
    l.elems, l.spine, l.Repr := [n.value] + es, [n] + sp, l.Repr + {n};
    SplicedInDistinct(sp, n, 0, l.spine);
    SplicedInAt(sp, n, 0, l.spine);
    SplicedInAt(es, n.value, 0, l.elems);
  }

  /**
   * `n->next = current->next; current->next = n`, where `current` is the
   * node at position `i` and `n` a node off the chain. (Where `current` is
   * the last node, `insert_value` skips the first write: `n->next` is NULL
   * already.)
   */
  method LinkAfter(l: SortedList, current: Node, ghost i: nat, n: Node, ghost h: Window)
    requires l.Valid() && i < |l.spine| && current == l.spine[i]
    requires Holds(h, i)
    requires n !in l.Repr
    modifies l, current, n
    ensures l.Valid() && current.next == n && n.value == old(n.value)
    ensures SplicedIn(old(l.elems), n.value, i + 1, l.elems)
    ensures SplicedIn(old(l.spine), n, i + 1, l.spine)
    ensures l.Repr == old(l.Repr) + {n}
  {
    ghost var sp, es := l.spine, l.elems;
    n.next := current.next;
    current.next := n;
    l.elems := es[..i + 1] + [n.value] + es[i + 1..];
    l.spine := sp[..i + 1] + [n] + sp[i + 1..];
    l.Repr := l.Repr + {n};
    SplicedInDistinct(sp, n, i + 1, l.spine);
    SplicedInAt(sp, n, i + 1, l.spine);
    SplicedInAt(es, n.value, i + 1, l.elems);
  }

  /** `list->head = list->head->next`: the head node leaves the chain. */
  method UnlinkHead(l: SortedList, ghost h: Window)
    requires l.Valid() && l.head != null
    requires Holds(h, HeadLock) && Holds(h, 0)
    modifies l
    ensures l.Valid() && l.head == old(l.head.next)
    ensures CutOut(old(l.elems), 0, l.elems) && CutOut(old(l.spine), 0, l.spine)
    ensures l.Repr == old(l.Repr) - {old(l.head)}
  {
    ghost var sp, es := l.spine, l.elems;
    l.head := l.head.next;
    l.elems, l.spine := es[..0] + es[1..], sp[..0] + sp[1..];
    l.Repr := l.Repr - {sp[0]};
    CutOutDistinct(sp, 0, l.spine);
    CutOutAt(sp, 0, l.spine);
    CutOutAt(es, 0, l.elems);
  }

  /**
   * `current->next = current->next->next`, where `current` is the node at
   * position `i`: its successor leaves the chain.
   */
  method UnlinkAfter(l: SortedList, current: Node, ghost i: nat, ghost h: Window)
    requires l.Valid() && i + 1 < |l.spine| && current == l.spine[i]
    requires Holds(h, i) && Holds(h, i + 1)
    modifies l, current
    ensures l.Valid() && current.next == old(current.next.next)
    ensures CutOut(old(l.elems), i + 1, l.elems) && CutOut(old(l.spine), i + 1, l.spine)
    ensures l.Repr == old(l.Repr) - {old(current.next)}
  {
    ghost var sp, es := l.spine, l.elems;
    current.next := current.next.next;
    l.elems := es[..i + 1] + es[i + 2..];
    l.spine := sp[..i + 1] + sp[i + 2..];
    l.Repr := l.Repr - {sp[i + 1]};
    CutOutDistinct(sp, i + 1, l.spine);
    CutOutAt(sp, i + 1, l.spine);
    CutOutAt(es, i + 1, l.elems);
  }

  /**
   * `compareValueAndLock`: whether the walk of an insert goes on past `next`.
   * It locks `next` if there is one, and keeps it locked exactly when the
   * answer is yes.
   */
  method CompareValueAndLock(value: int32, next: Node?, ghost held: Window, ghost pos: int)
    returns (more: bool, ghost held': Window)
    requires next != null ==> CanLock(held, pos)
    ensures more <==> next != null && next.value <= value
    ensures held' == if more then Lock(held, pos) else held
  {
    if next == null {
      return false, held;
    }
    held' := Lock(held, pos);
    assert Holds(held', pos);
    if next.value <= value {
      return true, held';
    }
    held' := Unlock(held', pos);
    more := false;
  }

  /**
   * `insert_value`: links a new node holding `value` at the insertion point
   * of `value`, behind every leading value at most `value` and in front of
   * the first greater one. The ghost `pos` is that position and `added` the
   * new node; every node that was on the chain stays on it, in order.
   */
  method InsertValue(l: SortedList?, value: int32, ghost entry: Window)
    returns (ghost pos: int, ghost added: Node?, ghost heldAtExit: Window)
    requires l != null ==> l.Valid()
    requires entry == Free
    modifies l, if l == null then {} else l.Repr
    ensures heldAtExit == Free
    ensures l != null ==> l.Valid() && added != null && fresh(added) && l.Repr == old(l.Repr) + {added}
    ensures l != null ==> InsertionPoint(old(l.elems), value, pos)
    ensures l != null ==> SplicedIn(old(l.elems), value, pos, l.elems) && SplicedIn(old(l.spine), added, pos, l.spine)
    ensures l != null ==> l.elems == Insert(old(l.elems), value)
    ensures l != null && Sorted(old(l.elems)) ==> Sorted(l.elems)
  {
    pos, added, heldAtExit := 0, null, Free;
    if l == null {
      return;
    }
    ghost var s := l.elems;
    var newNode := CreateNode(value);
    added := newNode;
    ghost var held := Lock(entry, HeadLock);
    if l.head == null {
      InstallHead(l, newNode, held);
      held := Unlock(held, HeadLock);
      pos := 0;
    } else {
      held := Lock(held, 0);
      assert Holds(held, 0);
      if l.head.value > value {
        newNode.next := l.head;
        InstallHead(l, newNode, held);
        held := Unlock(held, 0); // the old head, now second
        held := Unlock(held, HeadLock);
        pos := 0;
      } else {
        var current := l.head;
        if current.next == null {
          LinkAfter(l, current, 0, newNode, held);
          held := Unlock(held, 0);
          held := Unlock(held, HeadLock);
          pos := 1;
        } else {
          pos, held := InsertWalk(l, newNode, held);
        }
      }
    }
    InsertAt(s, value, pos);
    SortedAfterInsert(s, value);
    heldAtExit := held;
  }

  /**
   * The hand-over-hand part of `insert_value`, entered holding `headLock`
   * and the head, which is at most the new value and has a successor: it
   * walks on while the next value is at most the new one, then links the
   * new node in behind `current` and releases both locks it still holds.
   */
  method InsertWalk(l: SortedList, newNode: Node, ghost held: Window)
    returns (ghost pos: int, ghost heldAtExit: Window)
    requires l.Valid() && newNode !in l.Repr
    requires l.head != null && l.head.value <= newNode.value && l.head.next != null
    requires held == Span(HeadLock, 0)
    modifies l, l.Repr, newNode
    ensures heldAtExit == Free
    ensures l.Valid() && l.Repr == old(l.Repr) + {newNode} && newNode.value == old(newNode.value)
    ensures InsertionPoint(old(l.elems), newNode.value, pos)
    ensures SplicedIn(old(l.elems), newNode.value, pos, l.elems) && SplicedIn(old(l.spine), newNode, pos, l.spine)
  {
    var value := newNode.value;
    ghost var s := l.elems;
    var current := l.head;
    var prev: Node? := null;
    var firstIteration := true;
    ghost var i := 0; // the position of `current`
    var more;
    ghost var h := held;
    more, h := CompareValueAndLock(value, current.next, h, 1);
    while more
      invariant l.Valid() && l.elems == s && l.spine == old(l.spine) && l.Repr == old(l.Repr)
      invariant 0 <= i < |s| && current == l.spine[i]
      invariant firstIteration <==> i == 0
      invariant !firstIteration ==> prev == l.spine[i - 1]
      invariant forall j :: 0 <= j <= i ==> s[j] <= value
      invariant more <==> i + 1 < |s| && s[i + 1] <= value
      invariant h == if more then Span(i - 1, i + 1) else Span(i - 1, i)
      modifies {}
      decreases |s| - i
    {
      if firstIteration {
        h := Unlock(h, HeadLock);
        firstIteration := false;
      } else {
        h := Unlock(h, i - 1);
      }
      prev := current;
      current := current.next;
      i := i + 1;
      more, h := CompareValueAndLock(value, current.next, h, i + 1);
    }

    LinkAfter(l, current, i, newNode, h);
    h := Unlock(h, i);
    if firstIteration {
      h := Unlock(h, HeadLock);
    } else {
      h := Unlock(h, i - 1);
    }
    return i + 1, h;
  }

  /**
   * `remove_value`: takes out the first node, in list order, holding
   * `value`, and returns its former position as `pos`; with no such node it
   * changes nothing and `pos` is -1. The unlinked node leaves `Repr`, which
   * stands for its memory being released.
   */
  method RemoveValue(l: SortedList?, value: int32, ghost entry: Window) returns (ghost pos: int, ghost heldAtExit: Window)
    requires l != null ==> l.Valid()
    requires entry == Free
    modifies l, if l == null then {} else l.Repr
    ensures heldAtExit == Free
    ensures l != null ==> l.Valid()
    ensures l != null && pos < 0 ==>
              value !in old(l.elems) && l.elems == old(l.elems) && l.spine == old(l.spine) && l.Repr == old(l.Repr)
    ensures l != null && pos >= 0 ==>
              FirstIndexOf(old(l.elems), value, pos) &&
              CutOut(old(l.elems), pos, l.elems) && CutOut(old(l.spine), pos, l.spine) &&
              l.Repr == old(l.Repr) - {old(l.spine)[pos]}
    ensures l != null ==> l.elems == RemoveFirst(old(l.elems), value)
    ensures l != null && Sorted(old(l.elems)) ==> Sorted(l.elems)
  {
    pos, heldAtExit := -1, Free;
    if l == null {
      return;
    }
    SortedAfterRemove(l.elems, value);
    ghost var held := Lock(entry, HeadLock);

    if l.head == null {
      held := Unlock(held, HeadLock);
      return -1, held;
    }

    held := Lock(held, 0);
    assert Holds(held, 0);
    if l.head.value == value {
      RemoveAt(l.elems, value, 0);
      UnlinkHead(l, held);
      held := Unlock(held, 0); // `temp`, now off the chain
      held := Unlock(held, HeadLock);
      return 0, held;
    }

    ghost var s := l.elems;
    pos, held := RemoveWalk(l, value, held);
    if pos >= 0 {
      RemoveAt(s, value, pos);
    } else {
      RemoveAbsent(s, value);
    }
    return pos, held;
  }

  /**
   * The hand-over-hand part of `remove_value`, entered holding `headLock`
   * and the head, which does not hold `value`: it walks on, locking each
   * next node before releasing the one behind, until the next node holds
   * `value`, which it unlinks, or the end; `pos` is as for `RemoveValue`.
   */
  method RemoveWalk(l: SortedList, value: int32, ghost held: Window)
    returns (ghost pos: int, ghost heldAtExit: Window)
    requires l.Valid() && l.head != null && l.head.value != value
    requires held == Span(HeadLock, 0)
    modifies l, l.Repr
    ensures heldAtExit == Free
    ensures l.Valid()
    ensures pos < 0 ==>
              value !in old(l.elems) && l.elems == old(l.elems) && l.spine == old(l.spine) && l.Repr == old(l.Repr)
    ensures pos >= 0 ==>
              FirstIndexOf(old(l.elems), value, pos) &&
              CutOut(old(l.elems), pos, l.elems) && CutOut(old(l.spine), pos, l.spine) &&
              l.Repr == old(l.Repr) - {old(l.spine)[pos]}
  {
    ghost var h := held;
    var current := l.head;
    var prev: Node? := null;
    var firstIteration := true;
    ghost var s := l.elems;
    ghost var i := 0; // the position of `current`
    while current.next != null
      invariant l.Valid() && l.elems == s && l.spine == old(l.spine) && l.Repr == old(l.Repr)
      invariant 0 <= i < |s| && current == l.spine[i]
      invariant firstIteration <==> i == 0
      invariant !firstIteration ==> prev == l.spine[i - 1]
      invariant forall j :: 0 <= j <= i ==> s[j] != value
      invariant h == Span(i - 1, i)
      decreases |s| - i
    {
      h := Lock(h, i + 1);
      if firstIteration {
        h := Unlock(h, HeadLock);
        firstIteration := false;
      } else {
        h := Unlock(h, i - 1);
      }

      assert Holds(h, i + 1);
      if current.next.value == value {
        UnlinkAfter(l, current, i, h);
        h := Unlock(h, i + 1); // `temp`, now off the chain
        h := Unlock(h, i);
        return i + 1, h;
      }
      prev := current;
      current := current.next;
      i := i + 1;
    }

    h := Unlock(h, i);
    if firstIteration {
      h := Unlock(h, HeadLock);
    } else {
      h := Unlock(h, i - 1);
    }
    return -1, h;
  }

  /**
   * `print_list`: what it writes, as tokens: every value in list order, then
   * one newline, so ascending values for a sorted list; only the newline for
   * a null or empty list. Each value is
   * written by `print_node` while the walk holds that node's lock.
   */
  method PrintList(l: SortedList?, ghost entry: Window) returns (out: seq<Token>, ghost heldAtExit: Window)
    requires l != null ==> l.Valid()
    requires entry == Free
    ensures heldAtExit == Free
    ensures out == Printed(if l == null then [] else l.elems)
    ensures l != null && Sorted(l.elems) ==>
      forall i, j :: 0 <= i < j < |out| - 1 ==> out[i].Num? && out[j].Num? && out[i].value <= out[j].value
  {
    heldAtExit := Free;
    if l == null {
      return [NewLine], Free;
    }
    ghost var s := l.elems;
    ghost var held := Lock(entry, HeadLock);

    if l.head == null {
      out := [NewLine];
      held := Unlock(held, HeadLock);
      return out, held;
    }

    held := Lock(held, 0);
    assert Holds(held, 0);
    var current := l.head;
    out := [Num(current.value)];
    var prev: Node? := null;
    var firstIteration := true;
    ghost var i := 0; // the position of `current`
    while current.next != null
      invariant 0 <= i < |s| && current == l.spine[i]
      invariant firstIteration <==> i == 0
      invariant !firstIteration ==> prev == l.spine[i - 1]
      invariant |out| == i + 1 && forall k :: 0 <= k <= i ==> out[k] == Num(s[k])
      invariant held == Span(i - 1, i)
      decreases |s| - i
    {
      held := Lock(held, i + 1);
      if firstIteration {
        held := Unlock(held, HeadLock);
        firstIteration := false;
      } else {
        held := Unlock(held, i - 1);
      }
      assert Holds(held, i + 1);
      out := out + [Num(current.next.value)];
      prev := current;
      current := current.next;
      i := i + 1;
    }

    held := Unlock(held, i);
    if firstIteration {
      held := Unlock(held, HeadLock);
    } else {
      held := Unlock(held, i - 1);
    }
    out := out + [NewLine];
    return out, held;
  }

  /**
   * `count_list`: the number of values in the list that satisfy `pred`
   * (the C `predicate` argument), found by one walk over the nodes in list
   * order; 0 for a null or empty list.
   */
  method CountList(l: SortedList?, pred: int32 -> bool, ghost entry: Window) returns (count: nat, ghost heldAtExit: Window)
    requires l != null ==> l.Valid()
    requires entry == Free
    ensures heldAtExit == Free
    ensures count == CountIf(if l == null then [] else l.elems, pred)
  {
    count, heldAtExit := 0, Free;
    if l == null {
      return;
    }
    ghost var s := l.elems;
    ghost var held := Lock(entry, HeadLock);

    if l.head == null {
      held := Unlock(held, HeadLock);
      return 0, held;
    }

    held := Lock(held, 0);
    assert Holds(held, 0);
    var current := l.head;
    if pred(current.value) {
      count := count + 1;
    }
    var prev: Node? := null;
    var firstIteration := true;
    ghost var i := 0; // the position of `current`
    while current.next != null
      invariant 0 <= i < |s| && current == l.spine[i]
      invariant firstIteration <==> i == 0
      invariant !firstIteration ==> prev == l.spine[i - 1]
      invariant count + CountIf(s[i + 1..], pred) == CountIf(s, pred)
      invariant held == Span(i - 1, i)
      decreases |s| - i
    {
      held := Lock(held, i + 1);
      if firstIteration {
        held := Unlock(held, HeadLock);
        firstIteration := false;
      } else {
        held := Unlock(held, i - 1);
      }
      assert s[i + 1..][1..] == s[i + 2..];
      assert Holds(held, i + 1);
      if pred(current.next.value) {
        count := count + 1;
      }
      prev := current;
      current := current.next;
      i := i + 1;
    }

    held := Unlock(held, i);
    if firstIteration {
      held := Unlock(held, HeadLock);
    } else {
      held := Unlock(held, i - 1);
    }
    return count, held;
  }

  /**
   * `delete_list`: under exclusive access, reads the head value and removes
   * it by value until the list is empty; every node leaves `Repr`. A null
   * handle is a no-op.
   */
  method DeleteList(l: SortedList?, ghost entry: Window) returns (ghost heldAtExit: Window)
    requires l != null ==> l.Valid()
    requires entry == Free
    modifies l, if l == null then {} else l.Repr
    ensures heldAtExit == Free
    ensures l != null ==> l.Valid() && l.head == null && l.elems == [] && l.Repr == {}
  {
    heldAtExit := Free;
    if l == null {
      return;
    }
    ghost var held := Lock(entry, HeadLock);
    while l.head != null
      invariant l.Valid() && l.Repr <= old(l.Repr)
      invariant held == Span(HeadLock, HeadLock)
      decreases |l.elems|
    {
      held := Lock(held, 0);
      assert Holds(held, 0);
      var value := l.head.value;
      held := Unlock(held, 0);
      held := Unlock(held, HeadLock);

      ghost var pos, removeHeld := RemoveValue(l, value, held);
      held := Lock(removeHeld, HeadLock);
    }
    held := Unlock(held, HeadLock);
    return held;
  }
}
