/**
 * The abstract view of the sorted list: its values as a sequence, and the
 * effect of each list operation on that sequence.
 */
module ListSpec {

  /** A C `int`: the type of the values the list stores. */
  newtype int32 = x: int | -0x8000_0000 <= x < 0x8000_0000

  /** Non-decreasing order, duplicates allowed. */
  ghost predicate Sorted(s: seq<int32>)
  {
    forall i, j :: 0 <= i < j < |s| ==> s[i] <= s[j]
  }

  /**
   * Ordered insert as the list performs it: `v` goes in front of the first
   * element strictly greater than it, so after every leading element `<= v`.
   */
  function Insert(s: seq<int32>, v: int32): (r: seq<int32>)
    ensures |r| == |s| + 1
  {
    if s == [] then [v]
    else if v < s[0] then [v] + s
    else [s[0]] + Insert(s[1..], v)
  }

  /** Removal of the first element equal to `v`; no change when there is none. */
  function RemoveFirst(s: seq<int32>, v: int32): (r: seq<int32>)
    ensures |r| == if v in s then |s| - 1 else |s|
  {
    if s == [] then []
    else if s[0] == v then s[1..]
    else [s[0]] + RemoveFirst(s[1..], v)
  }

  /** The number of elements of `s` that satisfy `p`. */
  function CountIf(s: seq<int32>, p: int32 -> bool): (c: nat)
    ensures c <= |s|
  {
    if s == [] then 0
    else (if p(s[0]) then 1 else 0) + CountIf(s[1..], p)
  }

  /** One output item of `print_list`: a value, or the closing newline. */
  datatype Token = Num(value: int32) | NewLine

  /**
   * What `print_list` writes for a list holding `s`: for a sorted list, the
   * values in ascending order and then the newline.
   */
  function Printed(s: seq<int32>): (out: seq<Token>)
    ensures |out| == |s| + 1 && out[|s|] == NewLine
    ensures Sorted(s) ==>
      forall i, j :: 0 <= i < j < |s| ==> out[i].Num? && out[j].Num? && out[i].value <= out[j].value
  {
    seq(|s|, i requires 0 <= i < |s| => Num(s[i])) + [NewLine]
  }

  /** `t` is `s` with `x` put in at index `k`. */
  ghost predicate SplicedIn<T>(s: seq<T>, x: T, k: int, t: seq<T>)
  {
    0 <= k <= |s| && t == s[..k] + [x] + s[k..]
  }

  /** `t` is `s` with the element at index `k` taken out. */
  ghost predicate CutOut<T>(s: seq<T>, k: int, t: seq<T>)
  {
    0 <= k < |s| && t == s[..k] + s[k + 1..]
  }

  /** No element occurs twice in `s`. */
  ghost predicate Distinct<T>(s: seq<T>)
  {
    forall i, j :: 0 <= i < j < |s| ==> s[i] != s[j]
  }

  /** The elements of `s` as a set. */
  ghost function Elements<T>(s: seq<T>): set<T>
  {
    set x | x in s
  }

  /** Where each element of a spliced sequence comes from. */
  lemma SplicedInAt<T>(s: seq<T>, x: T, k: int, t: seq<T>)
    requires SplicedIn(s, x, k, t)
    ensures |t| == |s| + 1 && t[k] == x
    ensures forall j :: 0 <= j < k ==> t[j] == s[j]
    ensures forall j :: k < j < |t| ==> t[j] == s[j - 1]
  {
  }

  /** Where each element of a cut sequence comes from. */
  lemma CutOutAt<T>(s: seq<T>, k: int, t: seq<T>)
    requires CutOut(s, k, t)
    ensures |t| == |s| - 1
    ensures forall j :: 0 <= j < k ==> t[j] == s[j]
    ensures forall j :: k <= j < |t| ==> t[j] == s[j + 1]
  {
  }

  /** Splicing in a new element keeps the elements distinct and adds it to their set. */
  lemma SplicedInDistinct<T>(s: seq<T>, x: T, k: int, t: seq<T>)
    requires SplicedIn(s, x, k, t) && Distinct(s) && x !in s
    ensures Distinct(t) && Elements(t) == Elements(s) + {x}
  {
    SplicedInAt(s, x, k, t);
    forall i, j | 0 <= i < j < |t| ensures t[i] != t[j] {
      if i != k && j != k {
        assert t[i] == s[if i < k then i else i - 1];
        assert t[j] == s[if j < k then j else j - 1];
      }
    }
    assert t == s[..k] + [x] + s[k..];
    assert s == s[..k] + s[k..];
  }

  /** Cutting an element out of a distinct sequence takes exactly it out of their set. */
  lemma CutOutDistinct<T>(s: seq<T>, k: int, t: seq<T>)
    requires CutOut(s, k, t) && Distinct(s)
    ensures Distinct(t) && Elements(t) == Elements(s) - {s[k]}
  {
    CutOutAt(s, k, t);
    forall i, j | 0 <= i < j < |t| ensures t[i] != t[j] {
      assert t[i] == s[if i < k then i else i + 1];
      assert t[j] == s[if j < k then j else j + 1];
    }
    forall y ensures y in t <==> y in s && y != s[k] {
      if y in s && y != s[k] {
        var m :| 0 <= m < |s| && s[m] == y;
        assert t[if m < k then m else m - 1] == y;
      }
    }
  }

  /**
   * `k` is where an ordered insert puts `v`: behind every leading element at
   * most `v`, in front of the first greater one.
   */
  ghost predicate InsertionPoint(s: seq<int32>, v: int32, k: int)
  {
    0 <= k <= |s| && (forall j :: 0 <= j < k ==> s[j] <= v) && (k == |s| || v < s[k])
  }

  /** `k` is the first index of `s` holding `v`. */
  ghost predicate FirstIndexOf(s: seq<int32>, v: int32, k: int)
  {
    0 <= k < |s| && s[k] == v && forall j :: 0 <= j < k ==> s[j] != v
  }

  /** A sorted sequence stays sorted under a new first element no greater than any of it. */
  lemma SortedCons(x: int32, r: seq<int32>)
    requires Sorted(r)
    requires forall j :: 0 <= j < |r| ==> x <= r[j]
    ensures Sorted([x] + r)
  {
    forall i, j | 0 <= i < j < |[x] + r| ensures ([x] + r)[i] <= ([x] + r)[j] {
      if i > 0 {
        assert ([x] + r)[i] == r[i - 1];
      }
      assert ([x] + r)[j] == r[j - 1];
    }
  }

  // ---------------------------------------------------------------- Insert

  /**
   * Where `Insert` puts `v`: at the first position `k` whose element is
   * greater than `v`, with everything before `k` at most `v`.
   */
  lemma {:induction false} InsertAt(s: seq<int32>, v: int32, k: nat)
    requires InsertionPoint(s, v, k)
    ensures SplicedIn(s, v, k, Insert(s, v))
  {
    if k == 0 {
      assert s[..0] == [] && s[0..] == s;
    } else {
      var t := s[1..];
      assert InsertionPoint(t, v, k - 1) by {
        forall j | 0 <= j < k - 1 ensures t[j] <= v {
          assert t[j] == s[j + 1];
        }
      }
      InsertAt(t, v, k - 1);
      assert Insert(s, v) == [s[0]] + Insert(t, v) by {
        assert s[0] <= v;
      }
      assert s[..k] == [s[0]] + t[..k - 1];
      assert s[k..] == t[k - 1..];
    }
  }

  /** `Insert` adds exactly one occurrence of `v` and changes nothing else. */
  lemma {:induction false} InsertMultiset(s: seq<int32>, v: int32)
    ensures multiset(Insert(s, v)) == multiset(s) + multiset{v}
  {
    if s != [] && v >= s[0] {
      var r := Insert(s[1..], v);
      InsertMultiset(s[1..], v);
      assert Insert(s, v) == [s[0]] + r;
      assert multiset(s) == multiset{s[0]} + multiset(s[1..]) by {
        assert s == [s[0]] + s[1..];
      }
    }
  }

  /** Every element of `Insert(s, v)` is `v` or an element of `s`. */
  lemma InsertElements(s: seq<int32>, v: int32, x: int32)
    ensures x in Insert(s, v) <==> x == v || x in s
  {
    InsertMultiset(s, v);
    assert x in Insert(s, v) <==> x in multiset(Insert(s, v));
    assert x in s <==> x in multiset(s);
  }

  /** Inserting into a sorted sequence keeps it sorted. */
  lemma {:induction false} InsertSorted(s: seq<int32>, v: int32)
    requires Sorted(s)
    ensures Sorted(Insert(s, v))
  {
    if s != [] && v >= s[0] {
      InsertSorted(s[1..], v);
      var r := Insert(s[1..], v);
      forall j | 0 <= j < |r| ensures s[0] <= r[j] {
        InsertElements(s[1..], v, r[j]);
      }
      SortedCons(s[0], r);
    }
  }

  /** `InsertSorted` for a sequence that may or may not be sorted. */
  lemma SortedAfterInsert(s: seq<int32>, v: int32)
    ensures Sorted(s) ==> Sorted(Insert(s, v))
  {
    if Sorted(s) {
      InsertSorted(s, v);
    }
  }

  /**
   * In a sorted sequence the insertion point splits it into the elements at
   * most `v` and the elements greater than `v`: the new value comes after
   * every equal one (stable insertion).
   */
  lemma InsertStable(s: seq<int32>, v: int32) returns (k: nat)
    requires Sorted(s)
    ensures k <= |s| && Insert(s, v) == s[..k] + [v] + s[k..]
    ensures forall j :: 0 <= j < k ==> s[j] <= v
    ensures forall j :: k <= j < |s| ==> v < s[j]
  {
    k := 0;
    while k < |s| && s[k] <= v
      invariant k <= |s|
      invariant forall j :: 0 <= j < k ==> s[j] <= v
    {
      k := k + 1;
    }
    InsertAt(s, v, k);
  }

  // ----------------------------------------------------------- RemoveFirst

  /** `RemoveFirst` drops the element at the first index holding `v`. */
  lemma {:induction false} RemoveAt(s: seq<int32>, v: int32, k: nat)
    requires FirstIndexOf(s, v, k)
    ensures CutOut(s, k, RemoveFirst(s, v))
  {
    if k > 0 {
      var t := s[1..];
      assert FirstIndexOf(t, v, k - 1) by {
        forall j | 0 <= j < k - 1 ensures t[j] != v {
          assert t[j] == s[j + 1];
        }
      }
      RemoveAt(t, v, k - 1);
      assert RemoveFirst(s, v) == [s[0]] + RemoveFirst(t, v) by {
        assert s[0] != v;
      }
      assert s[..k] == [s[0]] + t[..k - 1];
      assert s[k + 1..] == t[k..];
    }
  }

  /** Without an element equal to `v`, `RemoveFirst` changes nothing. */
  lemma {:induction false} RemoveAbsent(s: seq<int32>, v: int32)
    requires v !in s
    ensures RemoveFirst(s, v) == s
  {
    if s != [] {
      RemoveAbsent(s[1..], v);
    }
  }

  /** `RemoveFirst` takes away one occurrence of `v` when there is one, and nothing else. */
  lemma {:induction false} RemoveMultiset(s: seq<int32>, v: int32)
    ensures multiset(RemoveFirst(s, v)) == multiset(s) - multiset{v}
  {
    if s != [] {
      assert s == [s[0]] + s[1..];
      if s[0] == v {
        assert multiset(s) == multiset{v} + multiset(s[1..]);
      } else {
        RemoveMultiset(s[1..], v);
        assert multiset(RemoveFirst(s, v)) == multiset{s[0]} + (multiset(s[1..]) - multiset{v});
      }
    }
  }

  /** Every element of `RemoveFirst(s, v)` is an element of `s`. */
  lemma {:induction false} RemoveElements(s: seq<int32>, v: int32, x: int32)
    requires x in RemoveFirst(s, v)
    ensures x in s
  {
    if s != [] && s[0] != v && x != s[0] {
      RemoveElements(s[1..], v, x);
    }
  }

  /** Removing keeps a sorted sequence sorted. */
  lemma {:induction false} RemoveSorted(s: seq<int32>, v: int32)
    requires Sorted(s)
    ensures Sorted(RemoveFirst(s, v))
  {
    if s != [] && s[0] != v {
      RemoveSorted(s[1..], v);
      var r := RemoveFirst(s[1..], v);
      forall j | 0 <= j < |r| ensures s[0] <= r[j] {
        RemoveElements(s[1..], v, r[j]);
      }
      SortedCons(s[0], r);
    }
  }

  /** `RemoveSorted` for a sequence that may or may not be sorted. */
  lemma SortedAfterRemove(s: seq<int32>, v: int32)
    ensures Sorted(s) ==> Sorted(RemoveFirst(s, v))
  {
    if Sorted(s) {
      RemoveSorted(s, v);
    }
  }

  /**
   * Inserting `v` into a sequence none of whose elements is below `v` puts
   * it in front: behind the equal ones, which is the same sequence.
   */
  lemma {:induction false} InsertBelowAll(r: seq<int32>, v: int32)
    requires forall j :: 0 <= j < |r| ==> v <= r[j]
    ensures Insert(r, v) == [v] + r
  {
    if r != [] && v >= r[0] {
      InsertBelowAll(r[1..], v);
      assert r == [v] + r[1..];
    }
  }

  /**
   * Removing `v` right after inserting it gives back the sorted sequence
   * itself: the insert went behind every equal value and the removal takes
   * the first one.
   */
  lemma {:induction false} InsertThenRemove(s: seq<int32>, v: int32)
    requires Sorted(s)
    ensures RemoveFirst(Insert(s, v), v) == s
  {
    if s != [] && v >= s[0] {
      if s[0] == v {
        InsertBelowAll(s[1..], v);
        assert s == [v] + s[1..];
      } else {
        InsertThenRemove(s[1..], v);
      }
    }
  }

  // --------------------------------------------------------------- CountIf

  /** Counting splits over concatenation; walking forwards adds one element at a time. */
  lemma {:induction false} CountAppend(a: seq<int32>, b: seq<int32>, p: int32 -> bool)
    ensures CountIf(a + b, p) == CountIf(a, p) + CountIf(b, p)
  {
    if a == [] {
      assert a + b == b;
    } else {
      CountAppend(a[1..], b, p);
      assert (a + b)[1..] == a[1..] + b;
    }
  }

  /** The count is zero exactly when no element qualifies, and the length exactly when every one does. */
  lemma {:induction false} CountBounds(s: seq<int32>, p: int32 -> bool)
    ensures CountIf(s, p) == 0 <==> forall i :: 0 <= i < |s| ==> !p(s[i])
    ensures CountIf(s, p) == |s| <==> forall i :: 0 <= i < |s| ==> p(s[i])
  {
    if s != [] {
      CountBounds(s[1..], p);
      assert forall i :: 1 <= i < |s| ==> s[i] == s[1..][i - 1];
    }
  }

  /** Every element is counted by exactly one of `p` and its negation. */
  lemma {:induction false} CountComplement(s: seq<int32>, p: int32 -> bool)
    ensures CountIf(s, p) + CountIf(s, x => !p(x)) == |s|
  {
    if s != [] {
      CountComplement(s[1..], p);
    }
  }

  // -------------------------------------------------------------- Examples

  /**
   * Inserting 5, 3, 8, 3, 1 into an empty list leaves 1 3 3 5 8; the other
   * cases are the ones the comments of `concurrent_list.c` walk through.
   */
  lemma InsertExamples()
    ensures Insert(Insert(Insert(Insert(Insert([], 5), 3), 8), 3), 1) == [1, 3, 3, 5, 8]
    ensures Insert([1, 2, 3], 4) == [1, 2, 3, 4]
    ensures Insert([5], 1) == [1, 5] && Insert([5], 6) == [5, 6]
  {
  }

  /**
   * Four of 1 3 3 5 8 are odd; removing 3 from 1 2 3 leaves 1 2, removing 2
   * from 2 2 2 leaves 2 2; an empty list prints only the newline.
   */
  lemma RemoveCountExamples()
    ensures CountIf([1, 3, 3, 5, 8], x => x % 2 != 0) == 4
    ensures RemoveFirst([1, 2, 3], 3) == [1, 2] && RemoveFirst([2, 2, 2], 2) == [2, 2]
    ensures Printed([]) == [NewLine] && CountIf([], x => x % 2 != 0) == 0
  {
  }
}
