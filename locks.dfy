/**
 * The hand-over-hand locking discipline as ghost bookkeeping.
 *
 * A walk names its locks by list position: `HeadLock` (-1) is the list's
 * `headLock`, the predecessor of the first node, and `k >= 0` is the lock of
 * the node that was k-th when the walk locked it. Because a walk only ever
 * locks the position right after the last one it took, and only ever drops
 * the lock at one end of what it holds, the locks it holds are always a run
 * of consecutive positions, so they are kept as a `Window`. Mutex semantics
 * and other threads are not modelled; what is checked, at every lock and
 * unlock of one walk, is the order in which that walk takes and drops its
 * locks, and that each list operation starts with none held.
 */
module Locks {

  const HeadLock: int := -1

  /** The locks one walk holds: none, or every position from `lo` to `hi`. */
  datatype Window = Free | Span(lo: int, hi: int)

  /** Position `p` is among the held ones. */
  ghost predicate Holds(w: Window, p: int)
  {
    w.Span? && w.lo <= p <= w.hi
  }

  /** How many locks are held. */
  function Size(w: Window): int
  {
    match w
    case Free => 0
    case Span(lo, hi) => hi - lo + 1
  }

  ghost predicate WellFormed(w: Window)
  {
    w.Span? ==> HeadLock <= w.lo <= w.hi
  }

  /**
   * A walk starts at `headLock`, and every further lock is the position right
   * after the last one taken, with at most two held beforehand: locks are
   * taken strictly forwards along the list with no gaps.
   */
  ghost predicate CanLock(w: Window, p: int)
  {
    match w
    case Free => p == HeadLock
    case Span(lo, hi) => lo <= hi && p == hi + 1 && Size(w) <= 2
  }

  ghost function Lock(w: Window, p: int): Window
    requires CanLock(w, p)
  {
    match w
    case Free => Span(p, p)
    case Span(lo, _) => Span(lo, p)
  }

  /**
   * The front lock, the last one taken, may always be dropped; the rear one
   * only when it is the only lock held, or while three are held, that is
   * once the lock ahead of the pair has been taken: hand over hand.
   */
  ghost predicate CanUnlock(w: Window, p: int)
  {
    w.Span? && (p == w.hi || (p == w.lo && (w.lo == w.hi || Size(w) == 3)))
  }

  ghost function Unlock(w: Window, p: int): Window
    requires CanUnlock(w, p)
  {
    if w.lo == w.hi then Free
    else if p == w.lo then Span(w.lo + 1, w.hi)
    else Span(w.lo, w.hi - 1)
  }

  /** The window a walk holds between two steps: a lock and the one right after it. */
  ghost predicate Coupled(w: Window, p: int)
  {
    w == Span(p - 1, p)
  }

  /**
   * Locking takes a position not yet held and greater than every held one;
   * unlocking drops exactly the one position. The window never exceeds three
   * locks.
   */
  lemma LockUnlockEffect(w: Window, p: int)
    requires WellFormed(w)
    ensures CanLock(w, p) ==>
      WellFormed(Lock(w, p)) && Size(Lock(w, p)) <= 3 &&
      (forall q :: Holds(w, q) ==> q < p) &&
      (forall q :: Holds(Lock(w, p), q) <==> Holds(w, q) || q == p)
    ensures CanUnlock(w, p) ==>
      WellFormed(Unlock(w, p)) &&
      (forall q :: Holds(Unlock(w, p), q) <==> Holds(w, q) && q != p)
  {
  }

  /**
   * One hand-over-hand step: from holding positions `p - 1` and `p`, locking
   * `p + 1` and then dropping `p - 1` leaves the window one position further
   * on, holding three locks in between. Dropping `p - 1` before `p + 1` is
   * taken is not allowed.
   */
  lemma Step(w: Window, p: int)
    requires Coupled(w, p)
    ensures !CanUnlock(w, p - 1)
    ensures CanLock(w, p + 1) && Size(Lock(w, p + 1)) == 3
    ensures CanUnlock(Lock(w, p + 1), p - 1)
    ensures Coupled(Unlock(Lock(w, p + 1), p - 1), p + 1)
  {
  }
}
