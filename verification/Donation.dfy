/** Priority donation along a chain of lock holders, as `lock_acquire` does it before it sleeps (threads/synch.c). */
module Donation {
  import opened Common

  const MAX_DEPTH: nat := 8

  class Lock {
    var holder: Thread?

    constructor ()
      ensures holder == null
    {
      holder := null;
    }
  }

  class Thread {
    var priority: int
    var lockedBy: Lock?
    var donators: seq<Thread>

    constructor (priority: int)
      ensures this.priority == priority && lockedBy == null && donators == []
    {
      this.priority := priority;
      lockedBy := null;
      donators := [];
    }
  }

  // ---------- The walk as a function on the holders' priorities ----------

  /** Raises priorities from the front, and stops early at one that is already high enough. */
  function Walk(ps: seq<int>, p: int, depth: nat): (r: seq<int>)
    ensures |r| == |ps|
  {
    if depth == 0 || ps == [] || ps[0] >= p then ps else [p] + Walk(ps[1..], p, depth - 1)
  }

  ghost predicate NonDecreasing(ps: seq<int>) {
    forall k :: 0 < k < |ps| ==> ps[k - 1] <= ps[k]
  }

  lemma {:induction false} NonDecreasingFrom(ps: seq<int>, j: nat, k: nat)
    requires NonDecreasing(ps) && j <= k < |ps|
    ensures ps[j] <= ps[k]
  {
    if j < k {
      NonDecreasingFrom(ps, j, k - 1);
    }
  }

  /** The early break loses nothing: the walk raises each of the first `depth` holders to the donor's level. */
  lemma {:induction false} WalkIsMax(ps: seq<int>, p: int, depth: nat)
    requires NonDecreasing(ps)
    ensures forall k :: 0 <= k < |ps| ==> Walk(ps, p, depth)[k] == if k < depth then Max(ps[k], p) else ps[k]
  {
    if depth == 0 || ps == [] {
    } else if ps[0] >= p {
      forall k | 0 <= k < |ps|
        ensures ps[k] >= p
      {
        NonDecreasingFrom(ps, 0, k);
      }
    } else {
      assert forall k :: 0 < k < |ps[1..]| ==> ps[1..][k] == ps[k + 1] && ps[1..][k - 1] == ps[k];
      WalkIsMax(ps[1..], p, depth - 1);
      assert Walk(ps, p, depth) == [p] + Walk(ps[1..], p, depth - 1);
      assert forall k :: 0 < k < |ps| ==> ps[k] == ps[1..][k - 1];
    }
  }

  lemma {:induction false} WalkRaises(ps: seq<int>, p: int, depth: nat)
    ensures forall k :: 0 <= k < |ps| ==> ps[k] <= Walk(ps, p, depth)[k]
  {
    if depth == 0 || ps == [] || ps[0] >= p {
    } else {
      WalkRaises(ps[1..], p, depth - 1);
      assert forall k :: 0 < k < |ps| ==> ps[k] == ps[1..][k - 1];
    }
  }

  lemma ConsOrdered(x: int, ps: seq<int>)
    ensures NonDecreasing([x] + ps) <==> (ps == [] || x <= ps[0]) && NonDecreasing(ps)
  {
    var r := [x] + ps;
    assert forall k :: 0 <= k < |ps| ==> r[k + 1] == ps[k];
    if NonDecreasing(r) && ps != [] {
      assert r[0] <= r[1];
      forall k | 0 < k < |ps|
        ensures ps[k - 1] <= ps[k]
      {
        assert r[k + 1 - 1] <= r[k + 1];
      }
    }
  }

  /** Donor p and everybody after it are again in order exactly when the chain is short or already high at the limit. */
  lemma {:induction false} WalkSettlesIff(ps: seq<int>, p: int, depth: nat)
    requires NonDecreasing(ps)
    ensures NonDecreasing([p] + Walk(ps, p, depth)) <==> |ps| <= depth || ps[depth] >= p
  {
    ConsOrdered(p, Walk(ps, p, depth));
    if depth == 0 || ps == [] {
    } else if ps[0] >= p {
      if depth < |ps| {
        NonDecreasingFrom(ps, 0, depth);
      }
    } else {
      assert ps == [ps[0]] + ps[1..];
      ConsOrdered(ps[0], ps[1..]);
      WalkSettlesIff(ps[1..], p, depth - 1);
    }
  }

  /** With nine links to climb, the ninth holder can stay below the donor. */
  lemma DeepChainNotSettled()
    ensures !NonDecreasing([1] + Walk(seq(9, i => 0), 1, MAX_DEPTH))
  {
    WalkSettlesIff(seq(9, i => 0), 1, MAX_DEPTH);
  }

  // ---------- The code ----------

  /**
   * ch lists the holders from `first` on: each is blocked on a lock of lk that the next one holds, the last on none.
   */
  ghost predicate Chain(first: Thread, ch: seq<Thread>, lk: seq<Lock>)
    reads ch, lk
  {
    && |ch| == |lk| + 1 && ch[0] == first && ch[|lk|].lockedBy == null
    && (forall k :: 0 <= k < |lk| ==> ch[k].lockedBy == lk[k])
    && (forall k :: 0 <= k < |lk| ==> lk[k].holder == ch[k + 1])
    && (forall j, k :: 0 <= j < k < |ch| ==> ch[j] != ch[k])
  }

  ghost predicate HavePriorities(ch: seq<Thread>, ps: seq<int>)
    reads ch
  {
    |ps| == |ch| && forall k :: 0 <= k < |ch| ==> ch[k].priority == ps[k]
  }

  /** The priorities ps with the first k of them replaced by p. */
  function Lifted(ps: seq<int>, p: int, k: nat): (r: seq<int>)
    requires k <= |ps|
  {
    seq(|ps|, i requires 0 <= i < |ps| => if i < k then p else ps[i])
  }

  /** A climb that raised the first k holders and then had to stop is what `Walk` describes. */
  lemma {:induction false} ClimbIsWalk(ps: seq<int>, p: int, depth: nat, k: nat)
    requires k <= depth && k <= |ps| && forall j :: 0 <= j < k ==> ps[j] < p
    requires k == depth || k == |ps| || ps[k] >= p
    ensures Walk(ps, p, depth) == Lifted(ps, p, k)
  {
    if k > 0 {
      ClimbIsWalk(ps[1..], p, depth - 1, k - 1);
      assert Walk(ps, p, depth) == [p] + Lifted(ps[1..], p, k - 1);
    }
  }

  /** The first k holders are at p, the others still at ps. */
  ghost predicate Risen(ch: seq<Thread>, ps: seq<int>, p: int, k: nat)
    reads ch`priority
  {
    |ps| == |ch| && forall j :: 0 <= j < |ch| ==> ch[j].priority == if j < k then p else ps[j]
  }

  lemma RisenIsLifted(ch: seq<Thread>, ps: seq<int>, p: int, k: nat)
    requires k <= |ps| && Risen(ch, ps, p, k)
    ensures HavePriorities(ch, Lifted(ps, p, k))
  {
  }

  /** The loop of `lock_acquire`: lifts the first k holders of the chain to the caller's priority and stops at k. */
  method Climb(current: Thread, ghost ch: seq<Thread>, ghost lk: seq<Lock>, ghost ps: seq<int>) returns (ghost k: nat)
    requires current.lockedBy != null && current.lockedBy.holder != null
    requires Chain(current.lockedBy.holder, ch, lk) && current !in ch && HavePriorities(ch, ps)
    modifies ch`priority
    ensures k <= MAX_DEPTH && k <= |ch| && forall j :: 0 <= j < k ==> ps[j] < current.priority
    ensures k == MAX_DEPTH || k == |ch| || ps[k] >= current.priority
    ensures Risen(ch, ps, current.priority, k)
  {
    var temp := current;
    var depth := 0;
    k := 0;
    while temp.lockedBy != null && depth < MAX_DEPTH
      invariant k == depth <= MAX_DEPTH && k <= |ch|
      invariant temp == (if k == 0 then current else ch[k - 1]) && temp.priority == current.priority
      invariant Risen(ch, ps, current.priority, k)
      invariant forall j :: 0 <= j < k ==> ps[j] < current.priority
      decreases MAX_DEPTH - depth
    {
      depth := depth + 1;
      var holder := temp.lockedBy.holder;
      assert holder == ch[k];
      if temp.priority > holder.priority {
        assert forall j :: 0 <= j < |ch| && j != k ==> ch[j] != holder;
        holder.priority := temp.priority;
        temp := holder;
        k := k + 1;
      } else {
        break;
      }
    }
  }

  /** A held lock: records the wait, joins the holder's donators and climbs the chain. */
  method Donate(current: Thread, lock: Lock, ghost ch: seq<Thread>, ghost lk: seq<Lock>, ghost ps: seq<int>)
    requires lock.holder != null && lock.holder != current
    requires Chain(lock.holder, ch, lk) && current !in ch && HavePriorities(ch, ps)
    modifies current`lockedBy, lock.holder`donators, ch`priority
    ensures current.lockedBy == lock && lock.holder.donators == old(lock.holder.donators) + [current]
    ensures HavePriorities(ch, Walk(ps, current.priority, MAX_DEPTH))
  {
    current.lockedBy := lock;
    lock.holder.donators := lock.holder.donators + [current];
    ghost var k := Climb(current, ch, lk, ps);
    ClimbIsWalk(ps, current.priority, MAX_DEPTH, k);
    RisenIsLifted(ch, ps, current.priority, k);
  }

  /** `lock_acquire` up to its `sema_down`: donation happens only for a held lock under the priority scheduler. */
  method AcquireFront(current: Thread, lock: Lock, mlfqs: bool, ghost ch: seq<Thread>, ghost lk: seq<Lock>,
      ghost ps: seq<int>)
    requires lock.holder != current
    requires lock.holder != null ==> Chain(lock.holder, ch, lk) && current !in ch && HavePriorities(ch, ps)
    modifies current`lockedBy, (if lock.holder == null then {} else {lock.holder})`donators, ch`priority
    ensures mlfqs ==> unchanged(current) && (lock.holder != null ==> unchanged(lock.holder)) && unchanged(ch)
    ensures !mlfqs ==> current.lockedBy == (if lock.holder == null then null else lock)
    ensures !mlfqs && lock.holder != null ==>
              && lock.holder.donators == old(lock.holder.donators) + [current]
              && HavePriorities(ch, Walk(ps, current.priority, MAX_DEPTH))
    ensures lock.holder == null ==> forall t :: t in ch ==> t.priority == old(t.priority)
  {
    if !mlfqs {
      if lock.holder != null {
        Donate(current, lock, ch, lk, ps);
      } else {
        current.lockedBy := null;
      }
    }
  }

  // ---------- The protocol's promise ----------

  /** t is not blocked, or waits for a holder in s that has at least t's own priority. */
  ghost predicate Settled(t: Thread, s: set<Thread>)
    reads *
  {
    t.lockedBy != null ==>
        t.lockedBy.holder != null && t.lockedBy.holder in s && t.priority <= t.lockedBy.holder.priority
  }

  ghost predicate Donated(s: set<Thread>)
    reads *
  {
    forall t :: t in s ==> Settled(t, s)
  }

  /** Along a chain of donated threads priorities never decrease. */
  lemma ChainOrdered(s: set<Thread>, ch: seq<Thread>, lk: seq<Lock>, ps: seq<int>)
    requires |ch| > 0 && Donated(s) && Chain(ch[0], ch, lk) && HavePriorities(ch, ps)
    requires forall k :: 0 <= k < |ch| ==> ch[k] in s
    ensures NonDecreasing(ps)
  {
    forall k | 0 < k < |ps|
      ensures ps[k - 1] <= ps[k]
    {
      assert Settled(ch[k - 1], s);
    }
  }

  /**
   * Once everybody off the chain is settled, donation is settled exactly when the chain is in order from the caller on.
   */
  lemma SettledIffOrdered(s: set<Thread>, current: Thread, ch: seq<Thread>, lk: seq<Lock>, qs: seq<int>)
    requires current in s && current.lockedBy != null && current.lockedBy.holder != null
    requires Chain(current.lockedBy.holder, ch, lk) && HavePriorities(ch, qs)
    requires forall k :: 0 <= k < |ch| ==> ch[k] in s
    requires forall t :: t in s && t != current && t !in ch ==> Settled(t, s)
    ensures Donated(s) <==> NonDecreasing([current.priority] + qs)
  {
    var all := [current.priority] + qs;
    if NonDecreasing(all) {
      assert all[0] <= all[1];
      forall k | 0 <= k < |ch|
        ensures Settled(ch[k], s)
      {
        if k < |lk| {
          assert all[k + 1] <= all[k + 2];
        }
      }
    }
    if Donated(s) {
      forall k | 0 < k < |all|
        ensures all[k - 1] <= all[k]
      {
        if k == 1 {
          assert Settled(current, s);
        } else {
          assert Settled(ch[k - 2], s);
        }
      }
    }
  }

  lemma SettledAfterWalk(s: set<Thread>, current: Thread, ch: seq<Thread>, lk: seq<Lock>, ps: seq<int>)
    requires current in s && current.lockedBy != null && current.lockedBy.holder != null
    requires Chain(current.lockedBy.holder, ch, lk) && NonDecreasing(ps) && |ps| == |ch|
    requires HavePriorities(ch, Walk(ps, current.priority, MAX_DEPTH))
    requires forall k :: 0 <= k < |ch| ==> ch[k] in s
    requires forall t :: t in s && t != current && t !in ch ==> Settled(t, s)
    ensures Donated(s) <==> |ch| <= MAX_DEPTH || ps[MAX_DEPTH] >= current.priority
  {
    WalkSettlesIff(ps, current.priority, MAX_DEPTH);
    SettledIffOrdered(s, current, ch, lk, Walk(ps, current.priority, MAX_DEPTH));
  }

  /** Donating lowers nobody, so everybody off the chain stays settled. */
  method DonateKeepsOthers(current: Thread, lock: Lock, ghost s: set<Thread>, ghost ch: seq<Thread>,
      ghost lk: seq<Lock>, ghost ps: seq<int>)
    requires lock.holder != null && lock.holder != current && Donated(s)
    requires Chain(lock.holder, ch, lk) && current !in ch && HavePriorities(ch, ps)
    modifies current`lockedBy, lock.holder`donators, ch`priority
    ensures current.lockedBy == lock && lock.holder.donators == old(lock.holder.donators) + [current]
    ensures HavePriorities(ch, Walk(ps, current.priority, MAX_DEPTH))
    ensures forall t :: t in s ==> t.priority >= old(t.priority)
    ensures forall t :: t in s && t != current && t !in ch ==> Settled(t, s)
  {
    WalkRaises(ps, current.priority, MAX_DEPTH);
    Donate(current, lock, ch, lk, ps);
    assert forall k :: 0 <= k < |ch| ==> ch[k].priority >= old(ch[k].priority);
    assert forall t :: t in s ==> t.priority >= old(t.priority);
    assert forall t :: t in s && t != current && t !in ch ==> old(Settled(t, s));
  }

  /**
   * The whole step. When donation is settled before the call, it is settled after it, including the caller's new
   * wait, exactly when the chain has at most MAX_DEPTH links or its holder at that depth is already high enough.
   * No priority is lowered, and only the priorities on the caller's chain change at all.
   */
  method AcquireDonates(current: Thread, lock: Lock, ghost s: set<Thread>, ghost ch: seq<Thread>, ghost lk: seq<Lock>,
      ghost ps: seq<int>)
    requires current in s && current.lockedBy == null && lock.holder != null && lock.holder != current
    requires Donated(s)
    requires Chain(lock.holder, ch, lk) && HavePriorities(ch, ps)
    requires current !in ch && forall k :: 0 <= k < |ch| ==> ch[k] in s
    modifies current`lockedBy, lock.holder`donators, ch`priority
    ensures Donated(s) <==> |ch| <= MAX_DEPTH || ps[MAX_DEPTH] >= current.priority
    ensures forall t :: t in s ==> t.priority >= old(t.priority)
  {
    ChainOrdered(s, ch, lk, ps);
    DonateKeepsOthers(current, lock, s, ch, lk, ps);
    SettledAfterWalk(s, current, ch, lk, ps);
  }
}
