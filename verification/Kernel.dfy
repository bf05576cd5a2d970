/**
 * Threads, the run queue, sleeping and semaphores of one processor (threads/thread.c, threads/synch.c and the parts of
 * devices/timer.c and devices/intq.c of Project 2 that block threads).
 *
 * A region with interrupts off is one atomic step of the running thread; between steps a timer interrupt may preempt
 * it. A thread that blocks inside `sema_down` tests the value again in the same region in which it is switched to, so
 * while the running thread stands in such a region no other step can happen.
 */
module Kernel {
  import opened Common

  const UINT_RANGE: nat := 0x1_0000_0000

  /** Absent is a page that holds no thread. */
  datatype Status = Absent | Running | Ready | Blocked | Dying

  /** Where a thread goes on when it is switched to: ordinary code, or the loop test of `sema_down`. */
  datatype Place = User | Retest(sema: nat)

  datatype Sema = Sema(value: nat, waiters: seq<nat>)

  /**
   * Threads are numbered by the page that holds them; `status` and `at` are indexed by that number. `sleepers` is the
   * timer's list of blocked threads.
   */
  datatype State = State(
    run: nat, idle: nat, first: nat, ready: seq<nat>, sleepers: seq<nat>, status: seq<Status>, at: seq<Place>,
    semas: seq<Sema>)

  // ---------- The steps as functions ----------

  predicate Shape(s: State) {
    && |s.status| == |s.at|
    && s.run < |s.status| && s.idle < |s.status| && s.first < |s.status|
    && s.idle != s.first
    && (forall i :: 0 <= i < |s.ready| ==> s.ready[i] < |s.status|)
    && (forall i :: 0 <= i < |s.sleepers| ==> s.sleepers[i] < |s.status|)
    && (forall x, i :: 0 <= x < |s.semas| && 0 <= i < |s.semas[x].waiters| ==> s.semas[x].waiters[i] < |s.status|)
  }

  /** `schedule_tail`, as the thread just switched to: a dying thread is destroyed by its successor. */
  function ScheduleTail(s: State, prev: Option<nat>): (r: State)
    requires s.run < |s.status| && (prev.Some? ==> prev.value < |s.status|)
  {
    var status := s.status[s.run := Running];
    if prev.Some? && status[prev.value] == Dying && prev.value != s.first then
      s.(status := status[prev.value := Absent])
    else
      s.(status := status)
  }

  /** `schedule`: the front of the ready list runs next, the idle thread when there is none. */
  function Schedule(s: State): (r: State)
    requires Shape(s)
    ensures Shape(r)
  {
    var next := if s.ready == [] then s.idle else s.ready[0];
    var prev := if next == s.run then None else Some(s.run);
    ScheduleTail(s.(run := next, ready := if s.ready == [] then [] else s.ready[1..]), prev)
  }

  /** `thread_block` */
  function Block(s: State, place: Place): (r: State)
    requires Shape(s)
    ensures Shape(r)
  {
    Schedule(s.(status := s.status[s.run := Blocked], at := s.at[s.run := place]))
  }

  /** `thread_unblock` */
  function Unblock(s: State, t: nat): (r: State)
    requires Shape(s) && t < |s.status|
    ensures Shape(r)
  {
    s.(ready := s.ready + [t], status := s.status[t := Ready])
  }

  /** The loop head of `sema_down`: take one unit, or join the waiters and sleep. */
  function Test(s: State, x: nat): (r: State)
    requires Shape(s) && x < |s.semas|
    ensures Shape(r)
  {
    var m := s.semas[x];
    if m.value == 0 then
      Block(s.(semas := s.semas[x := m.(waiters := m.waiters + [s.run])]), Retest(x))
    else
      s.(semas := s.semas[x := m.(value := m.value - 1)], at := s.at[s.run := User])
  }

  /** `sema_try_down` */
  function TryDown(s: State, x: nat): (r: (bool, State))
    requires Shape(s) && x < |s.semas|
    ensures Shape(r.1)
  {
    var m := s.semas[x];
    if m.value > 0 then (true, s.(semas := s.semas[x := m.(value := m.value - 1)])) else (false, s)
  }

  function Bumped(v: nat): nat {
    if v + 1 < UINT_RANGE then v + 1 else (v + 1) % UINT_RANGE
  }

  /** `sema_up`: wake the longest waiter, if any, then count. */
  function Up(s: State, x: nat): (r: State)
    requires Shape(s) && x < |s.semas|
    ensures Shape(r)
  {
    var m := s.semas[x];
    if m.waiters == [] then s.(semas := s.semas[x := m.(value := Bumped(m.value))])
    else Unblock(s, m.waiters[0]).(semas := s.semas[x := Sema(Bumped(m.value), m.waiters[1..])])
  }

  /** `thread_yield`: the idle thread never joins the ready list. */
  function Yield(s: State): (r: State)
    requires Shape(s)
    ensures Shape(r)
  {
    var ready := if s.run != s.idle then s.ready + [s.run] else s.ready;
    Schedule(s.(ready := ready, status := s.status[s.run := Ready]))
  }

  /** `thread_exit` */
  function Exit(s: State): (r: State)
    requires Shape(s)
    ensures Shape(r)
  {
    Schedule(s.(status := s.status[s.run := Dying]))
  }

  /** `thread_create` on page t: a blocked thread, then unblocked. */
  function Create(s: State, t: nat): (r: State)
    requires Shape(s) && t < |s.status|
    ensures Shape(r)
  {
    Unblock(s.(status := s.status[t := Blocked], at := s.at[t := User]), t)
  }

  /** `sema_init` of a new semaphore */
  function Init(s: State, value: nat): (r: State)
    requires Shape(s)
    ensures Shape(r)
  {
    s.(semas := s.semas + [Sema(value, [])])
  }

  function Without(q: seq<nat>, i: nat): seq<nat>
    requires i < |q|
  {
    q[..i] + q[i + 1..]
  }

  /** `timer_sleep`: join the sleepers and block. */
  function Sleep(s: State): (r: State)
    requires Shape(s)
    ensures Shape(r)
  {
    Block(s.(sleepers := s.sleepers + [s.run]), User)
  }

  /** One turn of the loop in `timer_interrupt` that finds a sleeper whose time has come. */
  function Wake(s: State, i: nat): (r: State)
    requires Shape(s) && i < |s.sleepers|
    ensures Shape(r)
  {
    Unblock(s.(sleepers := Without(s.sleepers, i)), s.sleepers[i])
  }

  /** The threads of q that are in due, or those that are not, in order. */
  function Filtered(q: seq<nat>, due: set<nat>, isDue: bool): seq<nat> {
    if q == [] then [] else (if (q[0] in due) == isDue then [q[0]] else []) + Filtered(q[1..], due, isDue)
  }

  /** Of the list q, the threads in front were left on it, those in woken were taken off, and rest is to come. */
  ghost predicate Scanned(q: seq<nat>, due: set<nat>, front: seq<nat>, woken: seq<nat>, rest: seq<nat>) {
    && front + Filtered(rest, due, false) == Filtered(q, due, false)
    && woken + Filtered(rest, due, true) == Filtered(q, due, true)
  }

  lemma ScanOne(q: seq<nat>, due: set<nat>, front: seq<nat>, woken: seq<nat>, rest: seq<nat>)
    requires Scanned(q, due, front, woken, rest) && rest != []
    ensures rest[0] in due ==> Scanned(q, due, front, woken + [rest[0]], rest[1..])
    ensures rest[0] !in due ==> Scanned(q, due, front + [rest[0]], woken, rest[1..])
  {
  }

  /** Taking the first of rest off the list, or leaving it there. */
  lemma ScanList(front: seq<nat>, rest: seq<nat>)
    requires rest != []
    ensures (front + rest)[|front|] == rest[0] && Without(front + rest, |front|) == front + rest[1..]
    ensures front + rest == (front + [rest[0]]) + rest[1..]
  {
  }

  // ---------- The invariant ----------

  /** A thread is on the ready list, once, exactly when it is ready; the idle thread never is. */
  ghost predicate ReadyOk(s: State) {
    && Distinct(s.ready)
    && forall t: nat :: t in s.ready <==> t < |s.status| && s.status[t] == Ready && t != s.idle
  }

  /** A thread is among the waiters of a semaphore, once, exactly when it is blocked in that semaphore's down. */
  ghost predicate WaitersOk(s: State, x: int)
    requires 0 <= x < |s.semas| && |s.status| == |s.at|
  {
    && Distinct(s.semas[x].waiters)
    && forall t: nat :: t in s.semas[x].waiters <==> t < |s.status| && s.status[t] == Blocked && s.at[t] == Retest(x)
  }

  /** The threads that were popped from the waiters and have not yet tested the value again. */
  ghost function Woken(s: State, x: int): set<nat>
    requires 0 <= x < |s.semas|
  {
    set t: nat | t < |s.at| && s.at[t] == Retest(x) && t !in s.semas[x].waiters
  }

  /** No waiter is stranded: units beyond those the woken threads will take are only there when nobody waits. */
  ghost predicate NotStranded(s: State, x: int)
    requires 0 <= x < |s.semas|
  {
    s.semas[x].waiters != [] ==> s.semas[x].value <= |Woken(s, x)|
  }

  ghost predicate SemasOk(s: State)
    requires |s.status| == |s.at|
  {
    forall x :: 0 <= x < |s.semas| ==> WaitersOk(s, x) && NotStranded(s, x)
  }

  /** The sleepers are blocked in `timer_sleep`, each on the list once. */
  ghost predicate SleepersOk(s: State)
    requires |s.status| == |s.at|
  {
    && Distinct(s.sleepers)
    && forall t: nat :: t in s.sleepers ==> t < |s.status| && s.status[t] == Blocked && s.at[t] == User && t != s.idle
  }

  /** A thread inside `sema_down` is alive, and not the idle one. */
  ghost predicate PlacesOk(s: State)
    requires |s.status| == |s.at|
  {
    forall t :: 0 <= t < |s.status| && s.at[t].Retest? ==>
      s.at[t].sema < |s.semas| && t != s.idle && s.status[t] in {Running, Ready, Blocked}
  }

  /** What holds whenever `schedule` is entered: the caller has given up the processor and is where it belongs. */
  ghost predicate Leaving(s: State) {
    && Shape(s) && ReadyOk(s) && SleepersOk(s) && SemasOk(s) && PlacesOk(s)
    && s.status[s.idle] in {Ready, Blocked}
    && (forall t :: 0 <= t < |s.status| ==> s.status[t] != Running)
    && (forall t :: 0 <= t < |s.status| && s.status[t] == Dying ==> t == s.first || t == s.run)
  }

  /** What holds between steps. */
  ghost predicate Inv(s: State) {
    && Shape(s) && ReadyOk(s) && SleepersOk(s) && SemasOk(s) && PlacesOk(s)
    && s.status[s.idle] in {Running, Ready, Blocked}
    && (forall t :: 0 <= t < |s.status| ==> (s.status[t] == Running <==> t == s.run))
    && (forall t :: 0 <= t < |s.status| && s.status[t] == Dying ==> t == s.first)
  }

  lemma SameWoken(s: State, s': State, x: int)
    requires 0 <= x < |s.semas| && 0 <= x < |s'.semas| && s.semas[x] == s'.semas[x]
    requires |s.at| == |s'.at|
    requires forall t :: 0 <= t < |s.at| ==> (s.at[t] == Retest(x) <==> s'.at[t] == Retest(x))
    ensures Woken(s', x) == Woken(s, x)
  {
  }

  lemma PopFront(q: seq<nat>)
    requires q != [] && Distinct(q)
    ensures Distinct(q[1..]) && forall t: nat :: t in q[1..] <==> t in q && t != q[0]
  {
    assert q == [q[0]] + q[1..];
  }

  lemma PushBack(q: seq<nat>, t: nat)
    requires Distinct(q) && t !in q
    ensures Distinct(q + [t]) && forall u: nat :: u in q + [t] <==> u in q || u == t
  {
  }

  lemma SchedulePicks(s: State)
    requires Shape(s) && ReadyOk(s) && s.status[s.idle] in {Ready, Blocked}
    ensures s.status[Schedule(s).run] in {Ready, Blocked}
    ensures Schedule(s).run != s.idle ==> s.status[Schedule(s).run] == Ready
    ensures forall t: nat :: t in Schedule(s).ready <==> t in s.ready && t != Schedule(s).run
    ensures Distinct(Schedule(s).ready)
  {
    if s.ready != [] {
      PopFront(s.ready);
      assert s.ready[0] in s.ready;
    }
  }

  /** What `schedule` does to the status of every thread: its caller is destroyed by its successor if it is dying. */
  lemma ScheduleStatus(s: State, t: nat)
    requires Leaving(s) && t < |s.status|
    ensures Schedule(s).status[t] ==
              if t == Schedule(s).run then Running
              else if t == s.run && s.status[t] == Dying && t != s.first then Absent
              else s.status[t]
    ensures s.status[t] in {Absent, Dying} ==> t != Schedule(s).run
  {
    SchedulePicks(s);
  }

  lemma ScheduleReady(s: State)
    requires Leaving(s)
    ensures ReadyOk(Schedule(s))
  {
    SchedulePicks(s);
    forall t: nat | t < |s.status|
      ensures t in Schedule(s).ready <==> Schedule(s).status[t] == Ready && t != s.idle
    {
      ScheduleStatus(s, t);
    }
  }

  lemma ScheduleSleepers(s: State)
    requires Leaving(s)
    ensures SleepersOk(Schedule(s))
  {
    SchedulePicks(s);
    forall t: nat | t in s.sleepers
      ensures t < |s.status| && Schedule(s).status[t] == Blocked
    {
      ScheduleStatus(s, t);
    }
  }

  lemma SchedulePlaces(s: State)
    requires Leaving(s)
    ensures PlacesOk(Schedule(s))
  {
    forall t | 0 <= t < |s.status| && s.at[t].Retest?
      ensures Schedule(s).status[t] in {Running, Ready, Blocked}
    {
      ScheduleStatus(s, t);
    }
  }

  lemma ScheduleWaiters(s: State, x: nat)
    requires Leaving(s) && x < |s.semas|
    ensures WaitersOk(Schedule(s), x) && NotStranded(Schedule(s), x)
  {
    assert WaitersOk(s, x) && NotStranded(s, x);
    var s' := Schedule(s);
    SameWoken(s, s', x);
    SchedulePicks(s);
    forall t: nat | t < |s.status|
      ensures t in s.semas[x].waiters <==> s'.status[t] == Blocked && s.at[t] == Retest(x)
    {
      ScheduleStatus(s, t);
    }
  }

  /** `schedule` picks a thread, and its assertion that this is a thread holds. */
  lemma ScheduleKeepsInv(s: State)
    requires Leaving(s)
    ensures Inv(Schedule(s))
    ensures s.status[Schedule(s).run] in {Ready, Blocked}
  {
    ScheduleReady(s);
    ScheduleSleepers(s);
    SchedulePlaces(s);
    SchedulePicks(s);
    forall t | 0 <= t < |s.status|
      ensures Schedule(s).status[t] == Running <==> t == Schedule(s).run
      ensures Schedule(s).status[t] == Dying ==> t == s.first
    {
      ScheduleStatus(s, t);
    }
    ScheduleStatus(s, s.idle);
    forall x | 0 <= x < |s.semas|
      ensures WaitersOk(Schedule(s), x) && NotStranded(Schedule(s), x)
    {
      ScheduleWaiters(s, x);
    }
  }

  // ---------- Every step keeps the invariant ----------

  /** The thread that fails the test joins the end of the waiters. */
  function Joined(s: State, x: nat): State
    requires Shape(s) && x < |s.semas|
  {
    var m := s.semas[x];
    s.(semas := s.semas[x := m.(waiters := m.waiters + [s.run])], status := s.status[s.run := Blocked],
        at := s.at[s.run := Retest(x)])
  }

  /** The running thread may take or wait for x: it comes from ordinary code, or from the waiters of x itself. */
  ghost predicate MayTest(s: State, x: nat) {
    Inv(s) && x < |s.semas| && s.run != s.idle && s.at[s.run] in {User, Retest(x)}
  }

  lemma JoinedWaiters(s: State, x: nat, y: nat)
    requires MayTest(s, x) && y < |s.semas| && s.semas[x].value == 0
    ensures Joined(s, x).semas[x].value == 0
    ensures WaitersOk(Joined(s, x), y) && NotStranded(Joined(s, x), y)
  {
    var s' := Joined(s, x);
    assert WaitersOk(s, y) && NotStranded(s, y);
    if y == x {
      PushBack(s.semas[x].waiters, s.run);
    } else {
      SameWoken(s, s', y);
    }
  }

  lemma TestBlocks(s: State, x: nat)
    requires MayTest(s, x) && s.semas[x].value == 0
    ensures Leaving(Joined(s, x)) && Test(s, x) == Schedule(Joined(s, x))
  {
    forall y | 0 <= y < |s.semas|
      ensures WaitersOk(Joined(s, x), y) && NotStranded(Joined(s, x), y)
    {
      JoinedWaiters(s, x, y);
    }
    assert s.status[s.run] == Running;
  }

  lemma TakenWaiters(s: State, x: nat, y: nat)
    requires MayTest(s, x) && y < |s.semas| && s.semas[x].value > 0
    ensures y < |Test(s, x).semas| && WaitersOk(Test(s, x), y) && NotStranded(Test(s, x), y)
  {
    var s' := Test(s, x);
    assert WaitersOk(s, y) && NotStranded(s, y);
    if y == x && s.at[s.run] == Retest(x) {
      assert Woken(s', x) == Woken(s, x) - {s.run};
      assert s.run in Woken(s, x);
    } else {
      assert Woken(s', y) == Woken(s, y);
    }
  }

  lemma TestKeepsInv(s: State, x: nat)
    requires MayTest(s, x)
    ensures Inv(Test(s, x))
  {
    if s.semas[x].value == 0 {
      TestBlocks(s, x);
      ScheduleKeepsInv(Joined(s, x));
    } else {
      forall y | 0 <= y < |s.semas|
        ensures WaitersOk(Test(s, x), y) && NotStranded(Test(s, x), y)
      {
        TakenWaiters(s, x, y);
      }
    }
  }

  lemma TryDownKeepsInv(s: State, x: nat)
    requires Inv(s) && x < |s.semas|
    ensures Inv(TryDown(s, x).1)
  {
    var s' := TryDown(s, x).1;
    forall y | 0 <= y < |s.semas|
      ensures WaitersOk(s', y) && NotStranded(s', y)
    {
      assert WaitersOk(s, y) && NotStranded(s, y);
      assert Woken(s', y) == Woken(s, y);
    }
  }

  lemma FrontIsBlocked(s: State, x: nat)
    requires Inv(s) && x < |s.semas| && s.semas[x].waiters != []
    ensures s.semas[x].waiters[0] < |s.status| && s.status[s.semas[x].waiters[0]] == Blocked
    ensures s.semas[x].waiters[0] !in s.ready && s.semas[x].waiters[0] !in s.sleepers && s.semas[x].waiters[0] != s.idle
  {
    var t := s.semas[x].waiters[0];
    assert WaitersOk(s, x) && t in s.semas[x].waiters;
    assert s.at[t] == Retest(x) && s.status[t] == Blocked;
  }

  /** Counting up and waking one waiter add to both sides of the stranding bound. */
  lemma UpWaiters(s: State, x: nat, y: nat)
    requires Inv(s) && x < |s.semas| && y < |s.semas|
    ensures y < |Up(s, x).semas| && WaitersOk(Up(s, x), y) && NotStranded(Up(s, x), y)
  {
    var s' := Up(s, x);
    assert WaitersOk(s, x) && WaitersOk(s, y) && NotStranded(s, y);
    if y == x && s.semas[x].waiters != [] {
      var t := s.semas[x].waiters[0];
      assert t in s.semas[x].waiters;
      PopFront(s.semas[x].waiters);
      assert Woken(s', x) == Woken(s, x) + {t};
    } else if y != x {
      if s.semas[x].waiters != [] {
        assert s.semas[x].waiters[0] in s.semas[x].waiters;
      }
      SameWoken(s, s', y);
    }
  }

  lemma UpLists(s: State, x: nat)
    requires Inv(s) && x < |s.semas|
    ensures ReadyOk(Up(s, x)) && SleepersOk(Up(s, x)) && PlacesOk(Up(s, x))
  {
    if s.semas[x].waiters != [] {
      FrontIsBlocked(s, x);
      PushBack(s.ready, s.semas[x].waiters[0]);
    }
  }

  lemma UpKeepsInv(s: State, x: nat)
    requires Inv(s) && x < |s.semas|
    ensures Inv(Up(s, x))
  {
    UpLists(s, x);
    forall y | 0 <= y < |s.semas|
      ensures WaitersOk(Up(s, x), y) && NotStranded(Up(s, x), y)
    {
      UpWaiters(s, x, y);
    }
    if s.semas[x].waiters != [] {
      FrontIsBlocked(s, x);
    }
  }

  /** The state in which the running thread, with new status st, enters `schedule`. */
  function Left(s: State, st: Status): State
    requires Shape(s)
  {
    s.(ready := if st == Ready && s.run != s.idle then s.ready + [s.run] else s.ready, status := s.status[s.run := st])
  }

  lemma LeftIsLeaving(s: State, st: Status)
    requires Inv(s) && s.at[s.run] == User
    requires st == Ready || st == Blocked || (st == Dying && s.run != s.idle)
    ensures Leaving(Left(s, st))
  {
    var s' := Left(s, st);
    forall y | 0 <= y < |s.semas|
      ensures WaitersOk(s', y) && NotStranded(s', y)
    {
      assert WaitersOk(s, y) && NotStranded(s, y);
      SameWoken(s, s', y);
    }
    assert s.run !in s.ready;
    PushBack(s.ready, s.run);
  }

  /** The state in which the running thread enters `schedule` from `timer_sleep`. */
  function Slept(s: State): State
    requires Shape(s)
  {
    Left(s, Blocked).(sleepers := s.sleepers + [s.run])
  }

  lemma SleptIsLeaving(s: State)
    requires Inv(s) && s.at[s.run] == User && s.run != s.idle
    ensures Leaving(Slept(s))
  {
    var s' := Left(s, Blocked);
    LeftIsLeaving(s, Blocked);
    assert s.run !in s.sleepers;
    PushBack(s.sleepers, s.run);
    forall y | 0 <= y < |s.semas|
      ensures WaitersOk(Slept(s), y) && NotStranded(Slept(s), y)
    {
      assert WaitersOk(s', y) && NotStranded(s', y);
      SameWoken(s', Slept(s), y);
    }
  }

  lemma UnparkKeepsInv(s: State, t: nat)
    requires Inv(s) && Parked(s, t)
    ensures Inv(Unblock(s, t))
  {
    var s' := Unblock(s, t);
    forall y | 0 <= y < |s.semas|
      ensures WaitersOk(s', y) && NotStranded(s', y)
    {
      assert WaitersOk(s, y) && NotStranded(s, y);
      SameWoken(s, s', y);
    }
    assert t !in s.ready;
    PushBack(s.ready, t);
  }

  lemma WithoutOne(q: seq<nat>, i: nat)
    requires i < |q| && Distinct(q)
    ensures Distinct(Without(q, i)) && forall t: nat :: t in Without(q, i) <==> t in q && t != q[i]
  {
    assert q == q[..i] + [q[i]] + q[i + 1..];
  }

  /** A thread taken off the list of sleepers is, for a moment, on no list. */
  lemma WakeKeepsInv(s: State, i: nat)
    requires Inv(s) && i < |s.sleepers|
    ensures Inv(Wake(s, i))
  {
    var s', t := s.(sleepers := Without(s.sleepers, i)), s.sleepers[i];
    assert t in s.sleepers;
    WithoutOne(s.sleepers, i);
    forall y | 0 <= y < |s.semas|
      ensures WaitersOk(s', y) && NotStranded(s', y)
    {
      assert WaitersOk(s, y) && NotStranded(s, y);
      SameWoken(s, s', y);
    }
    UnparkKeepsInv(s', t);
  }

  lemma CreateKeepsInv(s: State, t: nat)
    requires Inv(s) && t < |s.status| && s.status[t] == Absent
    ensures Inv(Create(s, t))
  {
    var s' := Create(s, t);
    forall y | 0 <= y < |s.semas|
      ensures WaitersOk(s', y) && NotStranded(s', y)
    {
      assert WaitersOk(s, y) && NotStranded(s, y);
      assert s.at[t] == User;
      SameWoken(s, s', y);
    }
    assert t !in s.ready;
    PushBack(s.ready, t);
  }

  lemma InitKeepsInv(s: State, value: nat)
    requires Inv(s)
    ensures Inv(Init(s, value))
  {
    var s' := Init(s, value);
    forall y | 0 <= y < |s'.semas|
      ensures WaitersOk(s', y) && NotStranded(s', y)
    {
      if y < |s.semas| {
        assert WaitersOk(s, y) && NotStranded(s, y);
        SameWoken(s, s', y);
      }
    }
  }

  // ---------- Runs ----------

  datatype Op =
    | OpDown(x: nat) | OpRetest | OpTryDown(x: nat) | OpUp(x: nat) | OpInit(value: nat)
    | OpYield | OpIdle | OpCreate(t: nat) | OpExit
    | OpSleep | OpWake(i: nat) | OpPark | OpUnpark(t: nat)

  /** A thread other than idle that blocked itself without joining a list, as readers of an interrupt queue do. */
  predicate Parked(s: State, t: nat)
    requires Shape(s)
  {
    t < |s.status| && t != s.idle && s.status[t] == Blocked && s.at[t] == User && t !in s.sleepers
  }

  /** What the running thread, or an interrupt during it, may do next. Inside `sema_down` only the test can follow. */
  predicate Enabled(s: State, op: Op)
    requires Shape(s)
  {
    match op
    case OpRetest => s.at[s.run].Retest? && s.at[s.run].sema < |s.semas|
    case OpDown(x) => s.at[s.run] == User && s.run != s.idle && x < |s.semas|
    case OpTryDown(x) => s.at[s.run] == User && x < |s.semas|
    case OpUp(x) => s.at[s.run] == User && x < |s.semas|
    case OpInit(value) => s.at[s.run] == User && value < UINT_RANGE
    case OpYield => s.at[s.run] == User
    case OpIdle => s.at[s.run] == User && s.run == s.idle
    case OpCreate(t) => s.at[s.run] == User && s.run != s.idle && t < |s.status| && s.status[t] == Absent
    case OpExit => s.at[s.run] == User && s.run != s.idle
    case OpSleep => s.at[s.run] == User && s.run != s.idle
    case OpWake(i) => s.at[s.run] == User && i < |s.sleepers|
    case OpPark => s.at[s.run] == User && s.run != s.idle
    case OpUnpark(t) => s.at[s.run] == User && Parked(s, t)
  }

  function Step(s: State, op: Op): (r: State)
    requires Shape(s) && Enabled(s, op)
    ensures Shape(r)
  {
    match op
    case OpRetest => Test(s, s.at[s.run].sema)
    case OpDown(x) => Test(s, x)
    case OpTryDown(x) => TryDown(s, x).1
    case OpUp(x) => Up(s, x)
    case OpInit(value) => Init(s, value)
    case OpYield => Yield(s)
    case OpIdle => Block(s, User)
    case OpCreate(t) => Create(s, t)
    case OpExit => Exit(s)
    case OpSleep => Sleep(s)
    case OpWake(i) => Wake(s, i)
    case OpPark => Block(s, User)
    case OpUnpark(t) => Unblock(s, t)
  }

  /** The steps that end in a call of `schedule`. */
  predicate Switches(s: State, op: Op)
    requires Shape(s) && Enabled(s, op)
  {
    match op
    case OpRetest => s.semas[s.at[s.run].sema].value == 0
    case OpDown(x) => s.semas[x].value == 0
    case OpYield => true
    case OpIdle => true
    case OpExit => true
    case OpSleep => true
    case OpPark => true
    case _ => false
  }

  /** The state in which such a step enters `schedule`. */
  function Gone(s: State, op: Op): State
    requires Shape(s) && Enabled(s, op) && Switches(s, op)
  {
    match op
    case OpRetest => Joined(s, s.at[s.run].sema)
    case OpDown(x) => Joined(s, x)
    case OpYield => Left(s, Ready)
    case OpExit => Left(s, Dying)
    case OpIdle => Left(s, Blocked)
    case OpPark => Left(s, Blocked)
    case OpSleep => Slept(s)
  }

  lemma SwitchIsSchedule(s: State, op: Op)
    requires Inv(s) && Enabled(s, op) && Switches(s, op)
    ensures Leaving(Gone(s, op)) && Step(s, op) == Schedule(Gone(s, op))
  {
    assert s.at[s.run] == User ==> s.at[s.run := User] == s.at;
    match op
    case OpRetest => TestBlocks(s, s.at[s.run].sema);
    case OpDown(x) => TestBlocks(s, x);
    case OpYield => LeftIsLeaving(s, Ready);
    case OpExit => LeftIsLeaving(s, Dying);
    case OpSleep => SleptIsLeaving(s);
    case OpIdle => LeftIsLeaving(s, Blocked);
    case OpPark => LeftIsLeaving(s, Blocked);
  }

  /** What entering `schedule` leaves alone. */
  lemma GoneIs(s: State, op: Op) returns (g: State)
    requires Inv(s) && Enabled(s, op) && Switches(s, op)
    ensures g == Gone(s, op) && Leaving(g) && Step(s, op) == Schedule(g)
    ensures g.run == s.run && g.first == s.first && g.idle == s.idle && s.ready <= g.ready && |g.at| == |s.at|
    ensures |g.status| == |s.status| && g.status == s.status[s.run := g.status[s.run]]
    ensures g.status[s.run] != Absent && (g.status[s.run] == Dying <==> op.OpExit?)
  {
    g := Gone(s, op);
    SwitchIsSchedule(s, op);
  }

  lemma GoneSemas(s: State, op: Op, x: nat)
    requires Inv(s) && Enabled(s, op) && Switches(s, op) && x < |s.semas|
    ensures |Gone(s, op).semas| == |s.semas| && Gone(s, op).semas[x].value == s.semas[x].value
    ensures s.semas[x].waiters <= Gone(s, op).semas[x].waiters
  {
  }

  lemma StepKeepsInv(s: State, op: Op)
    requires Inv(s) && Enabled(s, op)
    ensures Inv(Step(s, op))
  {
    if Switches(s, op) {
      SwitchIsSchedule(s, op);
      ScheduleKeepsInv(Gone(s, op));
    } else {
      match op
      case OpRetest => TestKeepsInv(s, s.at[s.run].sema);
      case OpDown(x) => TestKeepsInv(s, x);
      case OpTryDown(x) => TryDownKeepsInv(s, x);
      case OpUp(x) => UpKeepsInv(s, x);
      case OpInit(value) => InitKeepsInv(s, value);
      case OpCreate(t) => CreateKeepsInv(s, t);
      case OpWake(i) => WakeKeepsInv(s, i);
      case OpUnpark(t) => UnparkKeepsInv(s, t);
    }
  }

  /** A run: each step is possible when its turn comes. */
  ghost predicate Runs(s: State, ops: seq<Op>, s': State)
    requires Shape(s)
    decreases |ops|
  {
    if ops == [] then s' == s else Enabled(s, ops[0]) && Runs(Step(s, ops[0]), ops[1..], s')
  }

  /** Just after start-up: the first thread runs, idle sleeps, every other page is empty. */
  function Started(pages: nat): (s: State)
    requires pages >= 2
    ensures Inv(s)
  {
    var status := seq(pages, t => if t == 0 then Running else if t == 1 then Blocked else Absent);
    State(0, 1, 0, [], [], status, seq(pages, _ => User), [])
  }

  lemma {:induction false} RunKeepsInv(s: State, ops: seq<Op>, s': State)
    requires Inv(s) && Runs(s, ops, s')
    ensures Inv(s')
    decreases |ops|
  {
    if ops != [] {
      StepKeepsInv(s, ops[0]);
      RunKeepsInv(Step(s, ops[0]), ops[1..], s');
    }
  }

  /** How often t is linked into the ready list, the sleepers or the waiters of any semaphore. */
  function Links(s: State, t: nat, n: nat): nat
    requires n <= |s.semas|
  {
    if n == 0 then multiset(s.ready)[t] + multiset(s.sleepers)[t]
    else Links(s, t, n - 1) + multiset(s.semas[n - 1].waiters)[t]
  }

  lemma {:induction false} OccursOnce(q: seq<nat>, t: nat)
    requires Distinct(q)
    ensures multiset(q)[t] == if t in q then 1 else 0
  {
    if q != [] {
      assert q == [q[0]] + q[1..];
      OccursOnce(q[1..], t);
    }
  }

  lemma {:induction false} LinksCount(s: State, t: nat, n: nat)
    requires Inv(s) && n <= |s.semas|
    ensures Links(s, t, n) ==
              if t in s.ready || t in s.sleepers ||
                 (t < |s.status| && s.status[t] == Blocked && s.at[t].Retest? && s.at[t].sema < n) then 1
              else 0
  {
    if n == 0 {
      OccursOnce(s.ready, t);
      OccursOnce(s.sleepers, t);
    } else {
      LinksCount(s, t, n - 1);
      assert WaitersOk(s, n - 1);
      OccursOnce(s.semas[n - 1].waiters, t);
    }
  }

  /**
   * Between the steps of any run after start-up exactly one thread is running; every thread's list element is linked
   * once if the thread is ready, asleep in the timer or blocked in a semaphore, and not at all if it is parked, running
   * or dying; idle is never linked.
   */
  lemma ReachableIsSafe(pages: nat, ops: seq<Op>, s: State, t: nat)
    requires pages >= 2 && Runs(Started(pages), ops, s)
    ensures Inv(s) && (t < |s.status| ==> (s.status[t] == Running <==> t == s.run))
    ensures Links(s, t, |s.semas|) ==
              if t < |s.status| && t != s.idle && s.status[t] in {Ready, Blocked} && !Parked(s, t) then 1 else 0
    ensures t in s.sleepers ==> t < |s.status| && t != s.idle && s.status[t] == Blocked && s.at[t] == User
    ensures t in s.ready <==> t < |s.status| && t != s.idle && s.status[t] == Ready
  {
    RunKeepsInv(Started(pages), ops, s);
    LinksCount(s, t, |s.semas|);
  }

  /** `schedule` lets nobody sleep or wake up. */
  lemma ScheduleBlocks(g: State, t: nat)
    requires Leaving(g)
    ensures Schedule(g).sleepers == g.sleepers && (Parked(Schedule(g), t) <==> Parked(g, t))
  {
    SchedulePicks(g);
    if t < |g.status| {
      ScheduleStatus(g, t);
    }
  }

  lemma GoneBlocks(s: State, op: Op, t: nat)
    requires Inv(s) && Enabled(s, op) && Switches(s, op)
    ensures Shape(Gone(s, op))
    ensures t in Gone(s, op).sleepers <==> (op == OpSleep && t == s.run) || t in s.sleepers
    ensures Parked(Gone(s, op), t) <==> (op == OpPark && t == s.run) || Parked(s, t)
  {
  }

  lemma QuietBlocks(s: State, op: Op, t: nat)
    requires Inv(s) && Enabled(s, op) && !Switches(s, op)
    ensures t in Step(s, op).sleepers <==> t in s.sleepers && !(op.OpWake? && t == s.sleepers[op.i])
    ensures Parked(Step(s, op), t) <==> Parked(s, t) && op != OpUnpark(t)
  {
    if op.OpWake? {
      WithoutOne(s.sleepers, op.i);
      assert s.sleepers[op.i] in s.sleepers;
    } else if op.OpUp? {
      assert WaitersOk(s, op.x);
      assert s.semas[op.x].waiters != [] ==> s.semas[op.x].waiters[0] in s.semas[op.x].waiters;
    }
  }

  /** Sleepers are woken from anywhere in their list and join it at its end. */
  lemma SleepersInOrder(s: State, op: Op)
    requires Inv(s) && Enabled(s, op)
    ensures Step(s, op).sleepers ==
              if op == OpSleep then s.sleepers + [s.run]
              else if op.OpWake? then s.sleepers[..op.i] + s.sleepers[op.i + 1..]
              else s.sleepers
    ensures op.OpWake? ==> Step(s, op).ready == s.ready + [s.sleepers[op.i]]
  {
    if Switches(s, op) {
      SwitchIsSchedule(s, op);
    }
  }

  /** A thread sleeps in the timer from its `timer_sleep` until it is woken, and is parked from its block until then. */
  lemma StepBlocks(s: State, op: Op, t: nat)
    requires Inv(s) && Enabled(s, op)
    ensures t in Step(s, op).sleepers <==>
              (op == OpSleep && t == s.run) || (t in s.sleepers && !(op.OpWake? && t == s.sleepers[op.i]))
    ensures Parked(Step(s, op), t) <==> (op == OpPark && t == s.run) || (Parked(s, t) && op != OpUnpark(t))
  {
    if Switches(s, op) {
      SwitchIsSchedule(s, op);
      GoneBlocks(s, op, t);
      ScheduleBlocks(Gone(s, op), t);
    } else {
      QuietBlocks(s, op, t);
    }
  }

  /** The steps without a switch only make threads ready. */
  lemma QuietStatus(s: State, op: Op, t: nat)
    requires Inv(s) && Enabled(s, op) && !Switches(s, op) && t < |s.status|
    ensures |Step(s, op).status| == |s.status|
    ensures Step(s, op).status[t] == s.status[t] || Step(s, op).status[t] == Ready
    ensures s.status[t] == Absent ==> (Step(s, op).status[t] != Absent <==> op == OpCreate(t))
    ensures s.status[t] == Dying ==> Step(s, op).status[t] == Dying
  {
    if op.OpUp? {
      assert WaitersOk(s, op.x);
      assert s.semas[op.x].waiters != [] ==> s.semas[op.x].waiters[0] in s.semas[op.x].waiters;
    }
  }

  /**
   * A switch frees the page of the thread that gave up the processor, if it is dying and not the first, and no other.
   */
  lemma ScheduleFrees(s: State, g: State, t: nat)
    requires Leaving(g) && t < |s.status| && g.run == s.run && g.first == s.first && |g.status| == |s.status|
    requires g.status == s.status[s.run := g.status[s.run]] && s.run < |s.status| && g.status[s.run] != Absent
    requires s.status[s.run] == Running
    ensures |Schedule(g).status| == |s.status|
    ensures s.status[t] != Absent && Schedule(g).status[t] == Absent <==>
              g.status[s.run] == Dying && t == s.run && t != s.first
    ensures s.status[t] == Absent ==> Schedule(g).status[t] == Absent
    ensures g.status[s.run] == Dying && t == s.run ==> Schedule(g).run != t && Schedule(g).status[t] in {Absent, Dying}
    ensures s.status[t] == Dying ==> Schedule(g).status[t] == Dying
  {
    ScheduleStatus(g, t);
  }

  /**
   * A page is given back exactly by the exit of its thread, unless that is the first one, and control is then with
   * another thread; a page is taken only by a creation. So each thread created is freed at most once, after it exits.
   */
  lemma StepFrees(s: State, op: Op, t: nat)
    requires Inv(s) && Enabled(s, op) && t < |s.status|
    ensures |Step(s, op).status| == |s.status|
    ensures s.status[t] != Absent && Step(s, op).status[t] == Absent <==> op.OpExit? && t == s.run && t != s.first
    ensures s.status[t] == Absent && Step(s, op).status[t] != Absent <==> op == OpCreate(t)
    ensures op.OpExit? && t == s.run ==> Step(s, op).run != t && Step(s, op).status[t] in {Absent, Dying}
    ensures s.status[t] == Dying ==> Step(s, op).status[t] == Dying
  {
    if Switches(s, op) {
      var g := GoneIs(s, op);
      ScheduleFrees(s, g, t);
    } else {
      QuietStatus(s, op, t);
    }
  }

  /** The semaphore that the step tests, if it is a step of `sema_down`. */
  function Tested(s: State, op: Op): Option<nat>
    requires Shape(s) && Enabled(s, op)
  {
    match op
    case OpRetest => Some(s.at[s.run].sema)
    case OpDown(x) => Some(x)
    case _ => None
  }

  lemma GonePlaces(s: State, op: Op, t: nat)
    requires Inv(s) && Enabled(s, op) && Switches(s, op) && t < |s.status|
    ensures |Gone(s, op).at| == |s.at| && Gone(s, op).idle == s.idle && |Gone(s, op).semas| == |s.semas|
    ensures Gone(s, op).at[t] == if Tested(s, op).Some? && t == s.run then Retest(Tested(s, op).value) else s.at[t]
    ensures Tested(s, op).Some? ==> s.semas[Tested(s, op).value].value == 0
  {
  }

  lemma QuietPlaces(s: State, op: Op, t: nat)
    requires Inv(s) && Enabled(s, op) && !Switches(s, op) && t < |s.status|
    ensures |Step(s, op).at| == |s.at| && Step(s, op).idle == s.idle
    ensures Step(s, op).at[t] == if Tested(s, op).Some? && t == s.run then User else s.at[t]
    ensures Tested(s, op).Some? ==> s.semas[Tested(s, op).value].value > 0
  {
    if op.OpCreate? {
      assert op.t == t ==> s.at[t] == User;
    }
  }

  lemma QuietSemas(s: State, op: Op)
    requires Inv(s) && Enabled(s, op) && !Switches(s, op)
    ensures |Step(s, op).semas| == |s.semas| + (if op.OpInit? then 1 else 0)
    ensures op.OpInit? ==> Step(s, op).semas[|s.semas|] == Sema(op.value, [])
  {
  }

  /** A step moves nobody but the running thread, and that one sleeps exactly when the value it tests is zero. */
  lemma StepPlaces(s: State, op: Op, t: nat)
    requires Inv(s) && Enabled(s, op) && t < |s.status|
    ensures |Step(s, op).at| == |s.at| && Step(s, op).idle == s.idle
    ensures |Step(s, op).semas| == |s.semas| + (if op.OpInit? then 1 else 0)
    ensures op.OpInit? ==> Step(s, op).semas[|s.semas|] == Sema(op.value, [])
    ensures Step(s, op).at[t] ==
              match Tested(s, op)
              case Some(x) => if t != s.run then s.at[t] else if s.semas[x].value == 0 then Retest(x) else User
              case None => s.at[t]
  {
    if Switches(s, op) {
      SwitchIsSchedule(s, op);
      GonePlaces(s, op, t);
    } else {
      QuietPlaces(s, op, t);
      QuietSemas(s, op);
    }
  }

  /** Only the running thread can start to die. */
  lemma StepLives(s: State, op: Op, t: nat)
    requires Inv(s) && Enabled(s, op) && t < |s.status|
    ensures |Step(s, op).status| == |s.status|
    ensures Step(s, op).status[t] == Dying && s.status[t] != Dying ==> op.OpExit? && t == s.run
  {
    if Switches(s, op) {
      var g := GoneIs(s, op);
      ScheduleStatus(g, t);
    } else {
      QuietStatus(s, op, t);
    }
  }

  /** How often page t is taken, and given back, in a run. */
  function Creations(ops: seq<Op>, t: nat): nat {
    if ops == [] then 0 else (if ops[0] == OpCreate(t) then 1 else 0) + Creations(ops[1..], t)
  }

  function Frees(s: State, ops: seq<Op>, t: nat): nat
    requires Shape(s)
    decreases |ops|
  {
    if ops == [] || !Enabled(s, ops[0]) then 0
    else
      var s' := Step(s, ops[0]);
      (if t < |s.status| && s.status[t] != Absent && t < |s'.status| && s'.status[t] == Absent then 1 else 0) +
          Frees(s', ops[1..], t)
  }

  /**
   * Over every run the page of each thread is freed exactly once: creations and frees differ by the thread now on the
   * page.
   */
  lemma {:induction false} FreedOnce(s: State, ops: seq<Op>, s': State, t: nat)
    requires Inv(s) && Runs(s, ops, s') && t < |s.status|
    ensures |s'.status| == |s.status|
    ensures (if s.status[t] != Absent then 1 else 0) + Creations(ops, t) ==
              Frees(s, ops, t) + (if s'.status[t] != Absent then 1 else 0)
    decreases |ops|
  {
    if ops != [] {
      StepKeepsInv(s, ops[0]);
      StepFrees(s, ops[0], t);
      FreedOnce(Step(s, ops[0]), ops[1..], s', t);
    }
  }

  // ---------- Progress ----------

  /**
   * The processor never gets stuck: inside `sema_down` the test can be made; elsewhere an interrupt can preempt and
   * wake any sleeper, and a thread other than idle can call whatever it likes.
   */
  lemma CanGoOn(s: State)
    requires Inv(s)
    ensures if s.at[s.run] != User then Enabled(s, OpRetest) else Enabled(s, OpYield)
    ensures s.at[s.run] == User ==>
              && (forall i :: 0 <= i < |s.sleepers| ==> Enabled(s, OpWake(i)))
              && (forall x :: 0 <= x < |s.semas| ==> Enabled(s, OpUp(x)) && Enabled(s, OpTryDown(x)))
    ensures s.at[s.run] == User && s.run != s.idle ==>
              && Enabled(s, OpExit) && Enabled(s, OpSleep) && Enabled(s, OpPark)
              && (forall x :: 0 <= x < |s.semas| ==> Enabled(s, OpDown(x)))
              && (forall t :: 0 <= t < |s.status| && s.status[t] == Absent ==> Enabled(s, OpCreate(t)))
  {
  }

  /** A thread that was popped from a semaphore is ready or running. */
  lemma WokenCanRun(s: State, x: nat, t: nat)
    requires Inv(s) && x < |s.semas| && t in Woken(s, x)
    ensures t in s.ready || t == s.run
  {
    assert WaitersOk(s, x);
  }

  /** A semaphore never has both units to give and waiters unless some popped thread is about to test it. */
  lemma NoStrandedWaiter(s: State, x: nat) returns (t: nat)
    requires Inv(s) && x < |s.semas| && s.semas[x].value > 0 && s.semas[x].waiters != []
    ensures t in Woken(s, x) && (t in s.ready || t == s.run)
  {
    assert NotStranded(s, x);
    t :| t in Woken(s, x);
    WokenCanRun(s, x, t);
  }

  /** The queue q after one step of its kind: the front leaves, everybody else moves up; or nobody moves. */
  ghost predicate Advances(q: seq<nat>, q': seq<nat>, front: bool) {
    if front then q != [] && q[1..] <= q' else q <= q'
  }

  lemma StepMovesReady(s: State, op: Op)
    requires Inv(s) && Enabled(s, op) && s.ready != []
    ensures Advances(s.ready, Step(s, op).ready, Switches(s, op))
    ensures Switches(s, op) ==> Step(s, op).run == s.ready[0]
  {
    if Switches(s, op) {
      var g := GoneIs(s, op);
    }
  }

  lemma StepMovesWaiters(s: State, op: Op, x: nat)
    requires Inv(s) && Enabled(s, op) && x < |s.semas| && s.semas[x].waiters != []
    ensures x < |Step(s, op).semas| && Advances(s.semas[x].waiters, Step(s, op).semas[x].waiters, op == OpUp(x))
    ensures op == OpUp(x) ==> s.semas[x].waiters[0] in Step(s, op).ready
  {
    if Switches(s, op) {
      SwitchIsSchedule(s, op);
      GoneSemas(s, op, x);
    }
  }

  lemma AdvancesAt(q: seq<nat>, q': seq<nat>, front: bool, i: nat)
    requires Advances(q, q', front) && i < |q| && (front ==> i > 0)
    ensures var j := if front then i - 1 else i; j < |q'| && q'[j] == q[i]
  {
    var p := if front then q[1..] else q;
    var j := if front then i - 1 else i;
    assert p[j] == q[i] && p == q'[..|p|];
  }

  /** How often a run calls `schedule`, or raises x. */
  function SwitchCount(s: State, ops: seq<Op>): nat
    requires Shape(s)
    decreases |ops|
  {
    if ops == [] || !Enabled(s, ops[0]) then 0
    else (if Switches(s, ops[0]) then 1 else 0) + SwitchCount(Step(s, ops[0]), ops[1..])
  }

  function UpCount(ops: seq<Op>, x: nat): nat {
    if ops == [] then 0 else (if ops[0] == OpUp(x) then 1 else 0) + UpCount(ops[1..], x)
  }

  /** One step of a run: the rest of the run, and the new position of the thread at i, unless that one now runs. */
  lemma ReadyStep(s: State, ops: seq<Op>, s': State, i: nat) returns (u: State, j: int)
    requires ops != [] && Inv(s) && Runs(s, ops, s') && i < |s.ready|
    ensures Enabled(s, ops[0]) && u == Step(s, ops[0]) && Inv(u) && Runs(u, ops[1..], s')
    ensures j == (if Switches(s, ops[0]) then i - 1 else i)
    ensures j - SwitchCount(u, ops[1..]) == i - SwitchCount(s, ops)
    ensures if j < 0 then u.run == s.ready[i] else j < |u.ready| && u.ready[j] == s.ready[i]
  {
    u, j := Step(s, ops[0]), if Switches(s, ops[0]) then i - 1 else i;
    StepKeepsInv(s, ops[0]);
    StepMovesReady(s, ops[0]);
    if j >= 0 {
      AdvancesAt(s.ready, u.ready, Switches(s, ops[0]), i);
    }
  }

  lemma WaiterStep(s: State, ops: seq<Op>, s': State, x: nat, i: nat) returns (u: State, j: nat)
    requires ops != [] && Inv(s) && Runs(s, ops, s') && x < |s.semas| && i < |s.semas[x].waiters| &&
             UpCount(ops, x) <= i
    ensures Inv(u) && Runs(u, ops[1..], s')
    ensures x < |u.semas| && j < |u.semas[x].waiters| && u.semas[x].waiters[j] == s.semas[x].waiters[i]
    ensures j - UpCount(ops[1..], x) == i - UpCount(ops, x)
  {
    u, j := Step(s, ops[0]), if ops[0] == OpUp(x) then i - 1 else i;
    StepKeepsInv(s, ops[0]);
    StepMovesWaiters(s, ops[0], x);
    AdvancesAt(s.semas[x].waiters, u.semas[x].waiters, ops[0] == OpUp(x), i);
  }

  /**
   * The run queue is fair: a thread with i others in front of it moves up by one with every switch, whatever happens.
   */
  lemma {:induction false} ReadyIsServed(s: State, ops: seq<Op>, s': State, i: nat)
    requires Inv(s) && Runs(s, ops, s') && i < |s.ready| && SwitchCount(s, ops) <= i
    ensures i - SwitchCount(s, ops) < |s'.ready| && s'.ready[i - SwitchCount(s, ops)] == s.ready[i]
    decreases |ops|
  {
    if ops != [] {
      var u, j := ReadyStep(s, ops, s', i);
      ReadyIsServed(u, ops[1..], s', j);
    }
  }

  lemma FirstStep(s: State, ops: seq<Op>, n: nat, u: State)
    requires Shape(s) && 0 < n <= |ops| && Enabled(s, ops[0]) && Runs(Step(s, ops[0]), ops[1..][..n - 1], u)
    ensures Runs(s, ops[..n], u)
    ensures SwitchCount(s, ops[..n]) ==
              (if Switches(s, ops[0]) then 1 else 0) + SwitchCount(Step(s, ops[0]), ops[1..][..n - 1])
  {
    assert ops[..n][0] == ops[0] && ops[..n][1..] == ops[1..][..n - 1];
  }

  /** So no thread waits for ever to run: within i + 1 switches there is a moment at which the thread at i runs. */
  lemma {:induction false} ReadyRuns(s: State, ops: seq<Op>, s': State, i: nat) returns (n: nat, u: State)
    requires Inv(s) && Runs(s, ops, s') && i < |s.ready| && SwitchCount(s, ops) > i
    ensures 0 < n <= |ops| && Runs(s, ops[..n], u) && Inv(u) && u.run == s.ready[i]
    ensures SwitchCount(s, ops[..n]) == i + 1
    decreases |ops|
  {
    var v, j := ReadyStep(s, ops, s', i);
    if j < 0 {
      n, u := 1, v;
      assert Runs(v, ops[1..][..0], v);
    } else {
      n, u := ReadyRuns(v, ops[1..], s', j);
      n := n + 1;
    }
    FirstStep(s, ops, n, u);
  }

  /**
   * Waiters are served in order: one with i others in front of it moves up by one with every `sema_up`, and only then.
   */
  lemma {:induction false} WaiterIsServed(s: State, ops: seq<Op>, s': State, x: nat, i: nat)
    requires Inv(s) && Runs(s, ops, s') && x < |s.semas| && i < |s.semas[x].waiters| && UpCount(ops, x) <= i
    ensures x < |s'.semas| && i - UpCount(ops, x) < |s'.semas[x].waiters|
    ensures s'.semas[x].waiters[i - UpCount(ops, x)] == s.semas[x].waiters[i]
    decreases |ops|
  {
    if ops != [] {
      var u, j := WaiterStep(s, ops, s', x, i);
      WaiterIsServed(u, ops[1..], s', x, j);
    }
  }

  /** The step takes a unit of x. */
  predicate Takes(s: State, op: Op, x: nat)
    requires Shape(s) && Enabled(s, op)
  {
    && x < |s.semas| && s.semas[x].value > 0
    && (op == OpDown(x) || op == OpTryDown(x) || (op.OpRetest? && s.at[s.run].sema == x))
  }

  function TakeCount(s: State, ops: seq<Op>, x: nat): nat
    requires Shape(s)
    decreases |ops|
  {
    if ops == [] || !Enabled(s, ops[0]) then 0
    else (if Takes(s, ops[0], x) then 1 else 0) + TakeCount(Step(s, ops[0]), ops[1..], x)
  }

  lemma QuietCounts(s: State, op: Op, x: nat)
    requires Inv(s) && Enabled(s, op) && !Switches(s, op) && x < |s.semas|
    ensures x < |Step(s, op).semas|
    ensures Step(s, op).semas[x].value ==
              if op == OpUp(x) then Bumped(s.semas[x].value)
              else s.semas[x].value - (if Takes(s, op, x) then 1 else 0)
  {
  }

  lemma StepCounts(s: State, op: Op, x: nat)
    requires Inv(s) && Enabled(s, op) && x < |s.semas|
    ensures x < |Step(s, op).semas|
    ensures Step(s, op).semas[x].value ==
              if op == OpUp(x) then Bumped(s.semas[x].value)
              else s.semas[x].value - (if Takes(s, op, x) then 1 else 0)
  {
    if Switches(s, op) {
      SwitchIsSchedule(s, op);
      GoneSemas(s, op, x);
    } else {
      QuietCounts(s, op, x);
    }
  }

  /**
   * Units are conserved over every run: value + taken == start + ups, less the 2^32 that are lost each time that the
   * count wraps, which takes as many ups.
   */
  lemma {:induction false} UnitsConserved(s: State, ops: seq<Op>, s': State, x: nat) returns (lost: nat)
    requires Inv(s) && Runs(s, ops, s') && x < |s.semas|
    ensures x < |s'.semas|
    ensures s'.semas[x].value + TakeCount(s, ops, x) == s.semas[x].value + UpCount(ops, x) - lost * UINT_RANGE
    ensures s.semas[x].value + UpCount(ops, x) < UINT_RANGE ==> lost == 0
    decreases |ops|
  {
    lost := 0;
    if ops != [] {
      StepKeepsInv(s, ops[0]);
      StepCounts(s, ops[0], x);
      lost := UnitsConserved(Step(s, ops[0]), ops[1..], s', x);
      if ops[0] == OpUp(x) {
        lost := lost + LostBy(s.semas[x].value);
      }
    }
  }

  /** How often 2^32 fits into v + 1; for a 32-bit v this is 1 exactly when the count wraps. */
  function LostBy(v: nat): (n: nat)
    ensures Bumped(v) == v + 1 - n * UINT_RANGE
  {
    (v + 1) / UINT_RANGE
  }

  // ---------- The same steps on the processor's own state ----------

  /** The processor: the run queue and the statuses are updated in place; `at` stands for the saved contexts. */
  class Cpu {
    var run: nat
    const idle: nat
    const first: nat
    var ready: seq<nat>
    var sleepers: seq<nat>
    const status: array<Status>
    const at: array<Place>
    var semas: seq<Sema>

    ghost function View(): State
      reads this, status, at
    {
      State(run, idle, first, ready, sleepers, status[..], at[..], semas)
    }

    constructor (pages: nat)
      requires pages >= 2
      ensures View() == Started(pages) && fresh(status) && fresh(at)
      ensures Inv(View())
    {
      run, idle, first, ready, sleepers, semas := 0, 1, 0, [], [], [];
      status := new Status[pages](t => if t == 0 then Running else if t == 1 then Blocked else Absent);
      at := new Place[pages](_ => User);
      new;
      assert View() == Started(pages);
    }

    method SetStatus(t: nat, st: Status)
      requires t < status.Length
      modifies status
      ensures status[..] == old(status[..])[t := st]
    {
      status[t] := st;
    }

    /** The source asserts that a thread it destroys is not the one running. */
    method Tail(prev: Option<nat>)
      requires Shape(View()) && (prev.Some? ==> prev.value < status.Length && prev.value != run)
      modifies status
      ensures View() == ScheduleTail(old(View()), prev)
    {
      SetStatus(run, Running);
      if prev.Some? && status[prev.value] == Dying && prev.value != first {
        assert prev.value != run;
        SetStatus(prev.value, Absent);
      }
    }

    method SwitchNext()
      requires Leaving(View())
      modifies this, status
      ensures View() == Schedule(old(View())) && Inv(View())
    {
      ScheduleKeepsInv(View());
      var curr := run;
      assert status[curr] != Running;
      var next := idle;
      if ready != [] {
        next := ready[0];
        ready := ready[1..];
      }
      assert status[next] != Absent;
      run := next;
      Tail(if next == curr then None else Some(curr));
    }

    method ThreadUnblock(t: nat)
      requires Shape(View()) && t < status.Length && status[t] == Blocked
      modifies this, status
      ensures View() == Unblock(old(View()), t)
    {
      ready := ready + [t];
      SetStatus(t, Ready);
    }

    method ThreadBlock(place: Place)
      requires Shape(View()) && Leaving(View().(status := status[..][run := Blocked], at := at[..][run := place]))
      modifies this, status, at
      ensures View() == Block(old(View()), place) && Inv(View())
    {
      SetStatus(run, Blocked);
      at[run] := place;
      assert at[..] == old(at[..])[old(run) := place];
      SwitchNext();
    }

    /** The loop of `sema_down` up to the unit taken or the next sleep; run again when the thread is switched to. */
    method SemaDown(x: nat)
      requires MayTest(View(), x)
      modifies this, status, at
      ensures View() == Test(old(View()), x) && Inv(View())
    {
      TestKeepsInv(View(), x);
      if semas[x].value == 0 {
        TestBlocks(View(), x);
        semas := semas[x := semas[x].(waiters := semas[x].waiters + [run])];
        assert View().(status := status[..][run := Blocked], at := at[..][run := Retest(x)]) == Joined(old(View()), x);
        ThreadBlock(Retest(x));
      } else {
        semas := semas[x := semas[x].(value := semas[x].value - 1)];
        at[run] := User;
        assert at[..] == old(at[..])[run := User];
      }
    }

    method SemaTryDown(x: nat) returns (success: bool)
      requires Inv(View()) && x < |semas|
      modifies this
      ensures (success, View()) == TryDown(old(View()), x) && Inv(View())
      ensures success <==> old(semas[x].value) > 0
    {
      TryDownKeepsInv(View(), x);
      success := semas[x].value > 0;
      if success {
        semas := semas[x := semas[x].(value := semas[x].value - 1)];
      }
    }

    method SemaUp(x: nat)
      requires Inv(View()) && x < |semas|
      modifies this, status
      ensures View() == Up(old(View()), x) && Inv(View())
    {
      UpKeepsInv(View(), x);
      if semas[x].waiters != [] {
        var t := semas[x].waiters[0];
        FrontIsBlocked(View(), x);
        semas := semas[x := semas[x].(waiters := semas[x].waiters[1..])];
        assert Shape(View());
        ThreadUnblock(t);
      }
      semas := semas[x := semas[x].(value := Bumped(semas[x].value))];
    }

    method ThreadYield()
      requires Inv(View()) && at[run] == User
      modifies this, status
      ensures View() == Yield(old(View())) && Inv(View())
    {
      LeftIsLeaving(View(), Ready);
      ghost var gone := Left(View(), Ready);
      if run != idle {
        ready := ready + [run];
      }
      SetStatus(run, Ready);
      assert View() == gone;
      SwitchNext();
    }

    method ThreadExit()
      requires Inv(View()) && at[run] == User && run != idle
      modifies this, status
      ensures View() == Exit(old(View())) && Inv(View())
      ensures run != old(run)
    {
      LeftIsLeaving(View(), Dying);
      ghost var gone := Left(View(), Dying);
      StepFrees(View(), OpExit, run);
      SetStatus(run, Dying);
      assert View() == gone;
      SwitchNext();
    }

    method TimerSleep()
      requires Inv(View()) && at[run] == User && run != idle
      modifies this, status, at
      ensures View() == Sleep(old(View())) && Inv(View())
    {
      SleptIsLeaving(View());
      ghost var gone := Slept(View());
      assert at[..][run := User] == at[..];
      sleepers := sleepers + [run];
      assert View().(status := status[..][run := Blocked], at := at[..][run := User]) == gone;
      ThreadBlock(User);
    }

    method WakeOne(i: nat)
      requires Inv(View()) && i < |sleepers|
      modifies this, status
      ensures View() == Wake(old(View()), i) && Inv(View())
    {
      WakeKeepsInv(View(), i);
      var t := sleepers[i];
      assert t in sleepers;
      sleepers := Without(sleepers, i);
      ThreadUnblock(t);
    }

    /** One turn of the loop of `timer_interrupt`; the ghost results are the lists after it. */
    method VisitSleeper(i: nat, due: set<nat>, ghost q: seq<nat>, ghost front: seq<nat>, ghost woken: seq<nat>,
        ghost rest: seq<nat>)
        returns (next: nat, ghost front': seq<nat>, ghost woken': seq<nat>)
      requires Inv(View()) && rest != [] && i == |front| && sleepers == front + rest &&
               Scanned(q, due, front, woken, rest)
      modifies this, status
      ensures Inv(View()) && run == old(run) && semas == old(semas)
      ensures next == |front'| && sleepers == front' + rest[1..] && Scanned(q, due, front', woken', rest[1..])
      ensures woken <= woken' && ready == old(ready) + woken'[|woken|..]
    {
      ScanOne(q, due, front, woken, rest);
      ScanList(front, rest);
      if sleepers[i] in due {
        WakeOne(i);
        next, front', woken' := i, front, woken + [rest[0]];
      } else {
        next, front', woken' := i + 1, front + [rest[0]], woken;
      }
    }

    /**
     * The loop of `timer_interrupt`: exactly the sleepers whose time has come are woken, in the order of their list.
     */
    method TimerInterrupt(due: set<nat>)
      requires Inv(View())
      modifies this, status
      ensures Inv(View()) && run == old(run) && semas == old(semas)
      ensures sleepers == Filtered(old(sleepers), due, false)
      ensures ready == old(ready) + Filtered(old(sleepers), due, true)
    {
      var i := 0;
      ghost var q, front, woken, rest := sleepers, [], [], sleepers;
      while i < |sleepers|
        invariant Inv(View()) && run == old(run) && semas == old(semas) && ready == old(ready) + woken
        invariant i == |front| && sleepers == front + rest && Scanned(q, due, front, woken, rest)
        decreases |rest|
      {
        ghost var before := woken;
        i, front, woken := VisitSleeper(i, due, q, front, woken, rest);
        assert woken == before + woken[|before|..];
        rest := rest[1..];
      }
    }

    /** Blocking without a list, as `wait` of an interrupt queue does. */
    method Park()
      requires Inv(View()) && at[run] == User && run != idle
      modifies this, status, at
      ensures View() == Block(old(View()), User) && Inv(View())
    {
      LeftIsLeaving(View(), Blocked);
      assert at[..][run := User] == at[..];
      ThreadBlock(User);
    }

    method Unpark(t: nat)
      requires Inv(View()) && Parked(View(), t)
      modifies this, status
      ensures View() == Unblock(old(View()), t) && Inv(View())
    {
      UnparkKeepsInv(View(), t);
      ThreadUnblock(t);
    }

    method ThreadCreate(t: nat)
      requires Inv(View()) && t < status.Length && status[t] == Absent
      modifies this, status, at
      ensures View() == Create(old(View()), t) && Inv(View())
    {
      CreateKeepsInv(View(), t);
      SetStatus(t, Blocked);
      at[t] := User;
      assert at[..] == old(at[..])[t := User];
      ThreadUnblock(t);
    }
  }
}
