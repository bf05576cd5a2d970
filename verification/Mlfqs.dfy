/** Load, CPU-usage and priority bookkeeping of the feedback-queue scheduler (threads/thread.c, threads/thread.h). */
module Mlfqs {
  import opened Common
  import opened Arithmetic

  const F: int := 16384
  const PRI_MIN: int := 0
  const PRI_MAX: int := 63
  const TIMER_FREQ: nat := 100

  /** The part of `struct thread` that the timer tick reads and writes. */
  datatype Thread = Thread(recentCpu: int, nice: int, priority: int)

  // ---------- The fixed-point macros: 32-bit ints with 64-bit intermediate products ----------

  function ToFixed(n: int): int { Signed32(n * F) }

  function ToIntNearest(x: int): int {
    if x >= 0 then Trunc(Signed32(x + F / 2), F) else Trunc(Signed32(x - F / 2), F)
  }

  /** The updated load average; n counts the runnable threads (an unsigned 32-bit product). */
  function NewLoad(load: int, n: nat): int {
    Signed32(Trunc(Trunc(59 * F, 60) * load, F) + Trunc(Trunc(1 * F, 60) * Low32(n * F), F))
  }

  function DecayDivisor(load: int): int { Signed32(Signed32(load * 2) + F) }

  /** The factor 2 * load / (2 * load + 1) by which CPU usage decays. */
  function Decay(load: int): int
    requires DecayDivisor(load) != 0
  {
    Signed32(Trunc(Signed32(load * 2) * F, DecayDivisor(load)))
  }

  function NewRecentCpu(decay: int, t: Thread): int {
    Signed32(Trunc(decay * t.recentCpu, F) + ToFixed(t.nice))
  }

  function Clamped(p: int): int {
    if p < PRI_MIN then PRI_MIN else if p > PRI_MAX then PRI_MAX else p
  }

  function NewPriority(t: Thread): int {
    Clamped(ToIntNearest(Signed32(Signed32(ToFixed(PRI_MAX) - Trunc(t.recentCpu, 4)) - Signed32(ToFixed(t.nice) * 2))))
  }

  // ---------- A run as a sequence of events ----------

  /** The scheduler's bookkeeping; ticks counts timer interrupts so far. */
  datatype State = State(load: int, threads: seq<Thread>, ticks: nat)

  /** A tick interrupts the idle thread or a thread with `ready` others waiting; a thread may change its niceness. */
  datatype Event =
    | IdleTick
    | BusyTick(running: nat, ready: nat)
    | SetNice(thread: nat, nice: int)

  function Runnable(e: Event): nat {
    match e
    case BusyTick(_, ready) => ready + 1
    case _ => 0
  }

  function LoadAfter(s: State, e: Event): int {
    if (s.ticks + 1) % TIMER_FREQ == 0 then NewLoad(s.load, Runnable(e)) else s.load
  }

  /** The event names an existing thread, and the decay factor does not divide by zero. */
  predicate Enabled(s: State, e: Event) {
    match e
    case IdleTick => DecayDivisor(LoadAfter(s, e)) != 0
    case BusyTick(r, _) => r < |s.threads| && DecayDivisor(LoadAfter(s, e)) != 0
    case SetNice(t, _) => t < |s.threads|
  }

  function Charged(ts: seq<Thread>, e: Event): (r: seq<Thread>)
    requires e.BusyTick? ==> e.running < |ts|
    ensures |r| == |ts|
  {
    if e.BusyTick? then ts[e.running := ts[e.running].(recentCpu := Signed32(ts[e.running].recentCpu + F))] else ts
  }

  /** What the loop over all threads does to one of them. */
  function Refreshed(t: Thread, decay: int, ticks: nat): Thread {
    var t' := if ticks % 4 == 0 then t.(priority := NewPriority(t)) else t;
    if ticks % TIMER_FREQ == 0 then t'.(recentCpu := NewRecentCpu(decay, t')) else t'
  }

  function RefreshedAll(ts: seq<Thread>, decay: int, ticks: nat): seq<Thread> {
    seq(|ts|, i requires 0 <= i < |ts| => Refreshed(ts[i], decay, ticks))
  }

  function Step(s: State, e: Event): State
    requires Enabled(s, e)
  {
    match e
    case SetNice(t, nice) =>
      var th := s.threads[t].(nice := nice);
      s.(threads := s.threads[t := th.(priority := NewPriority(th))])
    case _ =>
      var load := LoadAfter(s, e);
      State(load, RefreshedAll(Charged(s.threads, e), Decay(load), s.ticks + 1), s.ticks + 1)
  }

  // ---------- The code ----------

  class Scheduler {
    var loadAvg: int
    var ticks: nat
    const threads: array<Thread>

    function View(): State
      reads this, threads
    {
      State(loadAvg, threads[..], ticks)
    }

    constructor (threads: array<Thread>)
      ensures this.threads == threads && View() == State(0, threads[..], 0)
    {
      this.threads := threads;
      loadAvg := 0;
      ticks := 0;
    }

    /** `timer_interrupt` and `thread_tick`: one timer interrupt in multi-level feedback queue mode. */
    method Tick(e: Event)
      requires !e.SetNice? && Enabled(View(), e)
      modifies this, threads
      ensures View() == Step(old(View()), e)
    {
      ticks := ticks + 1;
      if e.BusyTick? {
        threads[e.running] := threads[e.running].(recentCpu := Signed32(threads[e.running].recentCpu + F));
      }
      assert threads[..] == Charged(old(threads[..]), e);
      if ticks % TIMER_FREQ == 0 {
        loadAvg := NewLoad(loadAvg, Runnable(e));
      }
      if ticks % TIMER_FREQ == 0 || ticks % 4 == 0 {
        var a := Decay(loadAvg);
        RefreshThreads(a);
      } else {
        assert threads[..] == RefreshedAll(threads[..], Decay(loadAvg), ticks);
      }
    }

    /** The loop over `all_threads`. */
    method RefreshThreads(a: int)
      modifies threads
      ensures threads[..] == RefreshedAll(old(threads[..]), a, ticks)
    {
      for i := 0 to threads.Length
        invariant forall k :: 0 <= k < i ==> threads[k] == Refreshed(old(threads[k]), a, ticks)
        invariant forall k :: i <= k < threads.Length ==> threads[k] == old(threads[k])
      {
        var t := threads[i];
        if ticks % 4 == 0 {
          t := t.(priority := NewPriority(t));
        }
        if ticks % TIMER_FREQ == 0 {
          t := t.(recentCpu := NewRecentCpu(a, t));
        }
        threads[i] := t;
      }
    }

    /** `thread_set_nice`: also recomputes that thread's priority. */
    method SetNice(i: nat, nice: int)
      requires i < threads.Length
      modifies threads
      ensures View() == Step(old(View()), Event.SetNice(i, nice))
    {
      threads[i] := threads[i].(nice := nice);
      threads[i] := threads[i].(priority := NewPriority(threads[i]));
    }
  }

  // ---------- Bounds over every run ----------

  predicate NiceInRange(nice: int) { -20 <= nice <= 20 }

  /** At most n threads are ever runnable, and niceness stays in its documented range. */
  predicate Admissible(e: Event, n: nat, count: nat) {
    match e
    case IdleTick => true
    case BusyTick(r, ready) => r < count && ready + 1 <= n
    case SetNice(t, nice) => t < count && NiceInRange(nice)
  }

  const INT_MAX: int := 0x7fff_ffff

  /** Usage may grow by one per tick since the last second boundary, and never beyond an int before the next one. */
  predicate ThreadBounded(t: Thread, n: nat, sinceSecond: nat) {
    && NiceInRange(t.nice)
    && -20 * (2 * n + 1) * F <= t.recentCpu <= (240 * n + 20 + sinceSecond) * F
    && t.recentCpu <= INT_MAX - (TIMER_FREQ - sinceSecond) * F
  }

  /** The load; with more than 545 threads it must have come from a smaller one. */
  predicate LoadInRange(load: int, n: nat) {
    0 <= load <= n * F && (n > 545 ==> 274 * load <= 273 * n * F)
  }

  ghost predicate Bounded(s: State, n: nat) {
    && LoadInRange(s.load, n)
    && forall i :: 0 <= i < |s.threads| ==> ThreadBounded(s.threads[i], n, s.ticks % TIMER_FREQ)
  }

  predicate PrioritiesInRange(s: State) {
    forall i :: 0 <= i < |s.threads| ==> PRI_MIN <= s.threads[i].priority <= PRI_MAX
  }

  /** With at most 545 runnable threads the whole range of recent_cpu fits a 32-bit int; with 546 it does not. */
  lemma RangeFitsIff(n: nat)
    ensures Int32((240 * n + 120) * F) && Int32(-20 * (2 * n + 1) * F) <==> n <= 545
  {
  }

  /** The load average stays within n: the two truncated coefficients add up to less than one. */
  lemma LoadBounded(load: int, n: nat, k: nat)
    requires n * F <= INT_MAX && 0 <= load <= n * F && k <= n
    ensures 0 <= NewLoad(load, k) <= n * F
    ensures 274 * load <= 273 * n * F ==> 274 * NewLoad(load, k) <= 273 * n * F
  {
    assert Trunc(59 * F, 60) == 16110 && Trunc(F, 60) == 273;
    assert Low32(k * F) == k * F;
    assert Trunc(273 * (k * F), F) == 273 * k;
  }

  /** The new load is 59/60 of the old one plus 1/60 of the runnable threads, too low by less than n + 1 units. */
  lemma LoadIsAverage(load: int, n: nat, k: nat)
    requires n * F <= INT_MAX && 0 <= load <= n * F && k <= n
    ensures 0 <= 59 * load + k * F - 60 * NewLoad(load, k) < 60 * (n + 1)
  {
    assert Trunc(59 * F, 60) == 16110 && Trunc(F, 60) == 273;
    assert Low32(k * F) == k * F;
    assert Trunc(273 * (k * F), F) == 273 * k;
    var q := Trunc(16110 * load, F);
    assert q * F <= 16110 * load < q * F + F;
    assert NewLoad(load, k) == q + 273 * k;
  }

  /** p is 63 - rc / 4 - 2 * nice, rounded and kept within 0 and 63; rc counts 1/16384 ticks. */
  predicate IsPriority(p: int, rc: int, nice: int) {
    var exact := 4 * 63 * 16384 - rc - 8 * nice * 16384;
    && 0 <= p <= 63
    && (p > 0 ==> 65536 * p - exact < 32772) && (p < 63 ==> exact - 65536 * p < 32772)
  }

  /** A recomputed priority is that, up to the truncated quarter. */
  lemma PriorityIsRounded(t: Thread)
    requires Int32(t.recentCpu) && NiceInRange(t.nice)
    ensures IsPriority(NewPriority(t), t.recentCpu, t.nice)
  {
  }

  /** l / (l + F) in fixed point is below one by exactly the margin the steady state needs. */
  lemma DecayMargin(l: nat, a: nat, n: nat)
    requires l <= 2 * n * F && Floor(l * F, l + F, a)
    ensures a < F && a * (2 * n + 1) <= 2 * n * F
  {
    FloorBelow(l * F, l + F, a, F);
    assert a * F <= l * (F - a) by { assert a * (l + F) == a * l + a * F; }
    MulMono(l, 2 * n * F, F - a);
    assert (2 * n * F) * (F - a) == F * ((2 * n) * (F - a));
  }

  lemma DecayBounded(load: int, n: nat)
    requires (2 * n + 1) * F <= INT_MAX && 0 <= load <= n * F
    ensures DecayDivisor(load) == 2 * load + F
    ensures 0 <= Decay(load) < F && Decay(load) * (2 * n + 1) <= 2 * n * F
    ensures Floor((load * 2) * F, load * 2 + F, Decay(load))
  {
    var l := load * 2;
    var a := FloorExists(l * F, l + F);
    FloorIs(l * F, l + F, a);
    DecayMargin(l, a, n);
    assert Decay(load) == a;
  }

  /** Usage of at most 2n + 1 times hi decays to at most 2n times hi. */
  lemma DecayedProduct(decay: nat, rc: nat, n: nat, hi: nat)
    requires decay * (2 * n + 1) <= 2 * n * F && rc <= (2 * n + 1) * hi
    ensures 0 <= decay * rc <= (2 * n * hi) * F
  {
    var m, k := 2 * n + 1, 2 * n;
    MulMono(rc, m * hi, decay);
    MulMono(decay * m, k * F, hi);
    Reordered(decay, m, hi);
    Reordered(hi, k, F);
    assert decay * rc == rc * decay && rc * decay >= 0;
  }

  lemma Reordered(a: int, b: int, c: int)
    ensures (b * c) * a == (a * b) * c == (b * a) * c
  {
  }

  lemma TruncBetween(x: int, q: int)
    ensures 0 <= x <= q * F ==> 0 <= Trunc(x, F) <= q
    ensures 0 <= -x <= q * F ==> -q <= Trunc(x, F) <= 0
  {
  }

  /** A second boundary pulls usage back to its steady range. */
  lemma DecayedCpu(decay: int, rc: int, nice: int, n: nat)
    requires NiceInRange(nice)
    requires 0 <= decay < F && decay * (2 * n + 1) <= 2 * n * F
    requires -20 * (2 * n + 1) * F <= rc <= (240 * n + 120) * F
    ensures -20 * (2 * n + 1) * F <= Trunc(decay * rc, F) + nice * F <= (240 * n + 20) * F
  {
    if rc >= 0 {
      DecayedProduct(decay, rc, n, 120 * F);
      TruncBetween(decay * rc, 2 * n * (120 * F));
    } else {
      DecayedProduct(decay, -rc, n, 20 * F);
      assert decay * (-rc) == -(decay * rc);
      TruncBetween(decay * rc, 2 * n * (20 * F));
    }
  }

  /** Up to this factor, usage that fits an int before a second boundary leaves room for another second after it. */
  const DECAY_LIMIT: int := 16369

  lemma RoomLeft(decay: int, rc: int, nice: int)
    requires 0 <= decay <= DECAY_LIMIT && rc <= INT_MAX && NiceInRange(nice)
    ensures Trunc(decay * rc, F) + nice * F <= INT_MAX - TIMER_FREQ * F
  {
    if rc >= 0 {
      MulMono(decay, DECAY_LIMIT, rc);
      assert decay * rc >= 0;
    } else {
      assert decay * rc <= 0 by { assert decay * (-rc) >= 0; }
    }
  }

  /** The factor stays below that limit with up to 586 runnable threads. */
  lemma DecayLimited(load: int, n: nat)
    requires n <= 586 && LoadInRange(load, n)
    ensures Decay(load) <= DECAY_LIMIT
  {
    DecayBounded(load, n);
    var l := load * 2;
    if n <= 545 {
      MulMono(2 * n + 1, 1091, F - Decay(load));
    } else {
      FloorBelow(l * F, l + F, Decay(load), DECAY_LIMIT + 1);
    }
  }

  /** Usage right after a second boundary. */
  lemma SettledUsage(t: Thread, decay: int, n: nat)
    requires n <= 586 && 0 <= decay <= DECAY_LIMIT && decay * (2 * n + 1) <= 2 * n * F &&
             ThreadBounded(t, n, TIMER_FREQ)
    ensures ThreadBounded(t.(recentCpu := NewRecentCpu(decay, t)), n, 0)
  {
    DecayedCpu(decay, t.recentCpu, t.nice, n);
    RoomLeft(decay, t.recentCpu, t.nice);
  }

  lemma RefreshedWith(t: Thread, decay: int, n: nat, ticks: nat, k: nat)
    requires ThreadBounded(t, n, k)
    requires 0 < k <= TIMER_FREQ && k % TIMER_FREQ == ticks % TIMER_FREQ
    requires ticks % TIMER_FREQ == 0 ==> ThreadBounded(t.(recentCpu := NewRecentCpu(decay, t)), n, 0)
    ensures ThreadBounded(Refreshed(t, decay, ticks), n, ticks % TIMER_FREQ)
  {
  }

  lemma RefreshBounded(t: Thread, load: int, n: nat, ticks: nat, k: nat)
    requires n <= 586 && LoadInRange(load, n) && DecayDivisor(load) != 0
    requires 0 < k <= TIMER_FREQ && k % TIMER_FREQ == ticks % TIMER_FREQ
    requires ThreadBounded(t, n, k)
    ensures ThreadBounded(Refreshed(t, Decay(load), ticks), n, ticks % TIMER_FREQ)
  {
    if ticks % TIMER_FREQ == 0 {
      DecayBounded(load, n);
      DecayLimited(load, n);
      SettledUsage(t, Decay(load), n);
    }
    RefreshedWith(t, Decay(load), n, ticks, k);
  }

  lemma ChargedBounded(ts: seq<Thread>, e: Event, n: nat, k: nat, i: nat)
    requires n <= 586 && k < TIMER_FREQ && Admissible(e, n, |ts|) && i < |ts|
    requires ThreadBounded(ts[i], n, k)
    ensures ThreadBounded(Charged(ts, e)[i], n, k + 1)
    ensures Charged(ts, e)[i].priority == ts[i].priority
  {
  }

  lemma RefreshAllBounded(ts: seq<Thread>, load: int, n: nat, ticks: nat, k: nat)
    requires n <= 586 && LoadInRange(load, n) && DecayDivisor(load) != 0
    requires 0 < k <= TIMER_FREQ && k % TIMER_FREQ == ticks % TIMER_FREQ
    requires forall i :: 0 <= i < |ts| ==> ThreadBounded(ts[i], n, k)
    ensures var rs := RefreshedAll(ts, Decay(load), ticks);
            forall i :: 0 <= i < |rs| ==> ThreadBounded(rs[i], n, ticks % TIMER_FREQ)
  {
    forall i | 0 <= i < |ts|
      ensures ThreadBounded(Refreshed(ts[i], Decay(load), ticks), n, ticks % TIMER_FREQ)
    {
      RefreshBounded(ts[i], load, n, ticks, k);
    }
  }

  lemma TickBounded(s: State, e: Event, n: nat)
    requires n <= 586 && Bounded(s, n) && Admissible(e, n, |s.threads|) && !e.SetNice?
    ensures Enabled(s, e) && Bounded(Step(s, e), n)
  {
    var load := LoadAfter(s, e);
    assert LoadInRange(load, n) by { LoadBounded(s.load, n, Runnable(e)); }
    assert DecayDivisor(load) != 0 by { DecayBounded(load, n); }
    var k := s.ticks % TIMER_FREQ;
    var ts := Charged(s.threads, e);
    forall i | 0 <= i < |ts|
      ensures ThreadBounded(ts[i], n, k + 1)
    {
      ChargedBounded(s.threads, e, n, k, i);
    }
    RefreshAllBounded(ts, load, n, s.ticks + 1, k + 1);
  }

  /** A priority only ever comes out of the clamp. */
  lemma PrioritiesKept(s: State, e: Event)
    requires Enabled(s, e) && PrioritiesInRange(s)
    ensures PrioritiesInRange(Step(s, e))
  {
    if !e.SetNice? {
      var ts := Charged(s.threads, e);
      assert forall i :: 0 <= i < |ts| ==> ts[i].priority == s.threads[i].priority;
    }
  }

  /** Every event keeps the bounds, and the decay factor is defined. */
  lemma StepBounded(s: State, e: Event, n: nat)
    requires n <= 586 && Bounded(s, n) && Admissible(e, n, |s.threads|)
    ensures Enabled(s, e) && Bounded(Step(s, e), n) && |Step(s, e).threads| == |s.threads|
    ensures PrioritiesInRange(s) ==> PrioritiesInRange(Step(s, e))
  {
    if !e.SetNice? {
      TickBounded(s, e, n);
    }
    if PrioritiesInRange(s) {
      PrioritiesKept(s, e);
    }
  }

  ghost predicate RunAdmissible(es: seq<Event>, n: nat, count: nat) {
    forall i :: 0 <= i < |es| ==> Admissible(es[i], n, count)
  }

  /** The states a run passes through, ending with s. */
  ghost predicate Reaches(s0: State, es: seq<Event>, s: State)
    decreases |es|
  {
    if es == [] then s == s0
    else Enabled(s0, es[0]) && Reaches(Step(s0, es[0]), es[1..], s)
  }

  /** No run ever leaves the bounds, and no run gets stuck: the last state exists. */
  lemma {:induction false} RunBounded(s0: State, es: seq<Event>, n: nat) returns (s: State)
    requires n <= 586 && Bounded(s0, n) && PrioritiesInRange(s0)
    requires RunAdmissible(es, n, |s0.threads|)
    ensures Reaches(s0, es, s) && |s.threads| == |s0.threads| && Bounded(s, n)
    ensures 0 <= s.load <= n * F
    ensures forall i :: 0 <= i < |s.threads| ==>
              && -20 * (2 * n + 1) * F <= s.threads[i].recentCpu <= (240 * n + 120) * F
              && PRI_MIN <= s.threads[i].priority <= PRI_MAX
    decreases |es|
  {
    if es == [] {
      s := s0;
      forall i | 0 <= i < |s.threads|
        ensures s.threads[i].recentCpu <= (240 * n + 120) * F
      {
        assert ThreadBounded(s.threads[i], n, s.ticks % TIMER_FREQ);
      }
    } else {
      StepBounded(s0, es[0], n);
      assert forall i :: 0 <= i < |es[1..]| ==> es[1..][i] == es[i + 1];
      s := RunBounded(Step(s0, es[0]), es[1..], n);
    }
  }

  /** More CPU use and more niceness never give a higher priority. */
  lemma PriorityAntitone(t: Thread, u: Thread)
    requires Int32(t.recentCpu) && Int32(u.recentCpu) && NiceInRange(t.nice) && NiceInRange(u.nice)
    requires t.recentCpu <= u.recentCpu && t.nice <= u.nice
    ensures NewPriority(t) >= NewPriority(u)
  {
    assert Trunc(t.recentCpu, 4) <= Trunc(u.recentCpu, 4);
  }

  // ---------- What one event does, in plain numbers ----------

  /** A thread's usage once the tick is charged to the one it interrupts. */
  function UsageAt(s: State, e: Event, i: nat): int
    requires i < |s.threads|
  {
    s.threads[i].recentCpu + if e.BusyTick? && e.running == i then 16384 else 0
  }

  /**
   * Every tick is charged to the thread it interrupts; every fourth gives every thread a new priority, out of its usage
   * before the decay; and only every hundredth changes the load and decays usage.
   */
  lemma TickIs(s: State, e: Event, i: nat)
    requires Enabled(s, e) && !e.SetNice? && i < |s.threads|
    requires NiceInRange(s.threads[i].nice) && Int32(s.threads[i].recentCpu) && Int32(UsageAt(s, e, i))
    ensures var s' := Step(s, e);
            && |s'.threads| == |s.threads| && s'.ticks == s.ticks + 1 && s'.threads[i].nice == s.threads[i].nice
            && (if (s.ticks + 1) % 4 == 0
                then IsPriority(s'.threads[i].priority, UsageAt(s, e, i), s.threads[i].nice)
                else s'.threads[i].priority == s.threads[i].priority)
            && ((s.ticks + 1) % 100 != 0 ==> s'.load == s.load && s'.threads[i].recentCpu == UsageAt(s, e, i))
            && ((s.ticks + 1) % 100 == 0 ==>
                  s'.threads[i].recentCpu == NewRecentCpu(Decay(s'.load), s.threads[i].(recentCpu := UsageAt(s, e, i))))
  {
    var t := s.threads[i].(recentCpu := UsageAt(s, e, i));
    assert Charged(s.threads, e)[i] == t;
    PriorityIsRounded(t);
    RefreshedCpu(t, Decay(LoadAfter(s, e)), s.ticks + 1);
  }

  /** x is l / (l + 1) times c, in fixed point, a little closer to zero. */
  predicate IsDecayed(l: int, c: int, x: int) {
    var m := l + 16384;
    && (c >= 0 ==> 0 <= 16384 * (l * c - m * x) < m * (c + 16384))
    && (c <= 0 ==> 0 <= 16384 * (m * x - l * c) < m * (16384 - c))
  }

  lemma Expand(l: int, a: int, c: int, x: int, m: int, f: int)
    ensures f * (l * c - m * x) == (l * f - a * m) * c + m * (a * c - x * f)
  {
    assert (l * f - a * m) * c == l * f * c - a * m * c;
    assert m * (a * c - x * f) == m * (a * c) - m * (x * f);
    assert m * (a * c) == a * m * c && m * (x * f) == f * (m * x) && l * f * c == f * (l * c);
  }

  lemma DecayError(l: nat, a: nat, c: nat, x: int)
    requires Floor(l * F, l + F, a) && x * F <= a * c < x * F + F
    ensures 0 <= F * (l * c - (l + F) * x) < (l + F) * (c + F)
  {
    var m := l + F;
    var r1: nat, r2: nat := a * c - x * F, l * F - a * m;
    Expand(l, a, c, x, m, F);
    Remainders(r1, r2, m, c);
  }

  lemma Remainders(r1: nat, r2: nat, m: nat, c: nat)
    requires r1 < F && r2 < m
    ensures 0 <= r2 * c + m * r1 < m * (c + F)
  {
    MulMono(r2, m, c);
    MulMono(r1, F - 1, m);
    assert r2 * c >= 0 && m * r1 == r1 * m >= 0 && m * (c + F) == m * c + m * F;
  }

  lemma TruncIs(y: int)
    ensures y >= 0 ==> Trunc(y, F) * F <= y < Trunc(y, F) * F + F
    ensures y <= 0 ==> Trunc(y, F) == -Trunc(-y, F)
  {
  }

  lemma DecaySigned(l: nat, a: nat, c: int)
    requires Floor(l * F, l + F, a)
    ensures IsDecayed(l, c, Trunc(a * c, F))
  {
    var x, m := Trunc(a * c, F), l + F;
    TruncIs(a * c);
    if c >= 0 {
      DecayError(l, a, c, x);
    }
    if c <= 0 {
      var d: nat := -c;
      assert a * d == -(a * c);
      TruncIs(a * d);
      DecayError(l, a, d, -x);
      assert l * d == -(l * c) && m * (-x) == -(m * x);
    }
  }

  /** The usage after the decay, less the niceness: 2 * load / (2 * load + 1) of what it was. */
  lemma DecayAtSecond(load: int, t: Thread, n: nat)
    requires (2 * n + 1) * F <= INT_MAX && 0 <= load <= n * F
    requires NiceInRange(t.nice) && Int32(Trunc(Decay(load) * t.recentCpu, F) + t.nice * F)
    ensures IsDecayed(2 * load, t.recentCpu, NewRecentCpu(Decay(load), t) - t.nice * 16384)
  {
    DecayBounded(load, n);
    DecaySigned(load * 2, Decay(load), t.recentCpu);
  }

  /** A second is over: the load is averaged with the number of runnable threads, and usage decays by it. */
  lemma SecondIs(s: State, e: Event, i: nat, n: nat)
    requires n <= 586 && Bounded(s, n) && Admissible(e, n, |s.threads|) && !e.SetNice? && i < |s.threads|
    requires (s.ticks + 1) % 100 == 0
    ensures Enabled(s, e) && |Step(s, e).threads| == |s.threads|
    ensures var k := if e.BusyTick? then e.ready + 1 else 0;
            0 <= 59 * s.load + k * 16384 - 60 * Step(s, e).load < 60 * (n + 1)
    ensures var s' := Step(s, e);
            IsDecayed(2 * s'.load, UsageAt(s, e, i), s'.threads[i].recentCpu - s.threads[i].nice * 16384)
  {
    StepBounded(s, e, n);
    LoadBounded(s.load, n, Runnable(e));
    LoadIsAverage(s.load, n, Runnable(e));
    var load := LoadAfter(s, e);
    var t := s.threads[i].(recentCpu := UsageAt(s, e, i));
    assert ThreadBounded(s.threads[i], n, 99);
    TickIs(s, e, i);
    UsageFits(t, load, n);
    DecayAtSecond(load, t, n);
  }

  lemma UsageFits(t: Thread, load: int, n: nat)
    requires n <= 586 && LoadInRange(load, n) && ThreadBounded(t, n, TIMER_FREQ)
    ensures Int32(Trunc(Decay(load) * t.recentCpu, F) + t.nice * F)
  {
    DecayBounded(load, n);
    DecayLimited(load, n);
    DecayedCpu(Decay(load), t.recentCpu, t.nice, n);
    RoomLeft(Decay(load), t.recentCpu, t.nice);
  }

  /** A new niceness takes effect on the priority at once, and nothing else changes. */
  lemma NiceIs(s: State, t: nat, nice: int)
    requires t < |s.threads| && Int32(s.threads[t].recentCpu) && NiceInRange(nice)
    ensures var s' := Step(s, SetNice(t, nice));
            && s'.load == s.load && s'.ticks == s.ticks && |s'.threads| == |s.threads|
            && s'.threads[t].nice == nice && s'.threads[t].recentCpu == s.threads[t].recentCpu
            && IsPriority(s'.threads[t].priority, s.threads[t].recentCpu, nice)
            && forall i :: 0 <= i < |s.threads| && i != t ==> s'.threads[i] == s.threads[i]
  {
    PriorityIsRounded(s.threads[t].(nice := nice));
  }

  // ---------- When usage wraps ----------

  /** Before the first tick: no load, no usage. */
  ghost predicate Zeroed(s: State) {
    && s.load == 0 && s.ticks == 0 && PrioritiesInRange(s)
    && forall i :: 0 <= i < |s.threads| ==> s.threads[i].recentCpu == 0 && NiceInRange(s.threads[i].nice)
  }

  /** A run with at most n runnable threads from such a state to s. */
  ghost predicate FromZero(s0: State, es: seq<Event>, s: State, n: nat) {
    Zeroed(s0) && RunAdmissible(es, n, |s0.threads|) && Reaches(s0, es, s)
  }

  /** The tick e would take the running thread's usage beyond an int. */
  predicate Wraps(s: State, e: Event) {
    e.BusyTick? && e.running < |s.threads| && s.threads[e.running].recentCpu + F > INT_MAX
  }

  lemma {:induction false} ReachesOne(s0: State, es: seq<Event>, s: State, t: State)
    requires Reaches(s0, es, s) && Reaches(s0, es, t)
    ensures s == t
    decreases |es|
  {
    if es != [] {
      ReachesOne(Step(s0, es[0]), es[1..], s, t);
    }
  }

  /** With up to 586 runnable threads usage never wraps. */
  lemma NeverWraps(s0: State, es: seq<Event>, s: State, e: Event, n: nat)
    requires n <= 586 && FromZero(s0, es, s, n)
    ensures !Wraps(s, e)
  {
    var t := RunBounded(s0, es, n);
    ReachesOne(s0, es, s, t);
    if e.BusyTick? && e.running < |s.threads| {
      assert ThreadBounded(s.threads[e.running], n, s.ticks % TIMER_FREQ);
    }
  }

  /** The worst case: of 587 threads, one of niceness 20 runs all the time and the others are ready. */
  const Crowded: Event := BusyTick(0, 586)

  /** k ticks into a second, which the running thread began with usage rc. */
  predicate AtTick(s: State, load: int, rc: int, k: nat) {
    && |s.threads| == 587 && s.threads[0].nice == 20 && s.load == load && 0 <= load <= 587 * F
    && s.ticks % TIMER_FREQ == k && s.threads[0].recentCpu == rc + k * F && rc >= 0
  }

  /** Usage after a second that began with usage rc and ends with that load. */
  function NextCpu(load: int, rc: int): int
    requires DecayDivisor(load) != 0
  {
    Trunc(Decay(load) * (rc + TIMER_FREQ * F), F) + 20 * F
  }

  lemma RefreshedCpu(t: Thread, decay: int, ticks: nat)
    ensures Refreshed(t, decay, ticks).nice == t.nice
    ensures Refreshed(t, decay, ticks).recentCpu == if ticks % TIMER_FREQ == 0 then NewRecentCpu(decay, t)
            else t.recentCpu
  {
  }

  /** What a tick with decay factor a does to the running thread. */
  lemma RunnerAfter(ts: seq<Thread>, a: int, ticks: nat, rc: int)
    requires |ts| == 587 && ts[0].recentCpu + F == rc && Int32(rc)
    ensures |RefreshedAll(Charged(ts, Crowded), a, ticks)| == 587
    ensures RefreshedAll(Charged(ts, Crowded), a, ticks)[0].nice == ts[0].nice
    ensures RefreshedAll(Charged(ts, Crowded), a, ticks)[0].recentCpu ==
              if ticks % TIMER_FREQ == 0 then Signed32(Trunc(a * rc, F) + ToFixed(ts[0].nice)) else rc
  {
    RefreshedCpu(ts[0].(recentCpu := rc), a, ticks);
  }

  lemma NextTick(ticks: nat, k: nat)
    requires ticks % TIMER_FREQ == k
    ensures (ticks + 1) % TIMER_FREQ == if k + 1 == TIMER_FREQ then 0 else k + 1
  {
  }

  lemma LoadFits(load: int)
    requires 0 <= load <= 587 * F
    ensures DecayDivisor(load) != 0 && 0 <= NewLoad(load, 587) <= 587 * F && DecayDivisor(NewLoad(load, 587)) != 0
  {
    LoadBounded(load, 587, 587);
    DecayBounded(load, 587);
    DecayBounded(NewLoad(load, 587), 587);
  }

  lemma CrowdedTick(s: State, load: int, rc: int, k: nat)
    requires k < TIMER_FREQ && AtTick(s, load, rc, k) && rc + (k + 1) * F <= INT_MAX
    ensures Enabled(s, Crowded)
    ensures k + 1 < TIMER_FREQ ==> AtTick(Step(s, Crowded), load, rc, k + 1)
    ensures k + 1 == TIMER_FREQ ==>
              && DecayDivisor(NewLoad(load, 587)) != 0
              && AtTick(Step(s, Crowded), NewLoad(load, 587), NextCpu(NewLoad(load, 587), rc), 0)
  {
    LoadFits(load);
    NextTick(s.ticks, k);
    var load' := LoadAfter(s, Crowded);
    RunnerAfter(s.threads, Decay(load'), s.ticks + 1, rc + (k + 1) * F);
    if k + 1 == TIMER_FREQ {
      NextFits(load', rc);
    }
  }

  lemma NextFits(load: int, rc: int)
    requires 0 <= load <= 587 * F && 0 <= rc && rc + TIMER_FREQ * F <= INT_MAX
    ensures DecayDivisor(load) != 0 && 0 <= NextCpu(load, rc) <= INT_MAX
  {
    DecayBounded(load, 587);
    MulMono(Decay(load), 16370, rc + TIMER_FREQ * F);
    assert Decay(load) * (rc + TIMER_FREQ * F) >= 0;
  }

  lemma Crowding(es: seq<Event>)
    requires RunAdmissible(es, 587, 587)
    ensures RunAdmissible([Crowded] + es, 587, 587)
  {
  }

  lemma TickFirst(s: State, e: Event, es: seq<Event>, t: State)
    requires Enabled(s, e) && Reaches(Step(s, e), es, t)
    ensures Reaches(s, [e] + es, t)
  {
    assert ([e] + es)[1..] == es;
  }

  const LOAD_NEEDED: int := 9578789

  /** The load climbs until the factor is 16370. */
  lemma LoadClimbs(load: int)
    requires 0 <= load <= 587 * F
    ensures load < LOAD_NEEDED ==> NewLoad(load, 587) > load
    ensures load >= LOAD_NEEDED ==> NewLoad(load, 587) >= LOAD_NEEDED
  {
    LoadBounded(load, 587, 587);
    assert Trunc(59 * F, 60) == 16110 && Trunc(F, 60) == 273;
    assert Low32(587 * F) == 587 * F;
    assert NewLoad(load, 587) == Trunc(16110 * load, F) + 273 * 587;
  }

  /** From then on usage grows in every second. */
  lemma UsageClimbs(load: int, rc: int)
    requires LOAD_NEEDED <= load <= 587 * F && 0 <= rc && rc + TIMER_FREQ * F <= INT_MAX
    ensures DecayDivisor(load) != 0 && NextCpu(load, rc) > rc
  {
    DecayBounded(load, 587);
    FactorReached(load * 2, Decay(load));
    MulMono(16370, Decay(load), rc + TIMER_FREQ * F);
  }

  lemma FactorReached(l: nat, a: nat)
    requires l >= 2 * LOAD_NEEDED && Floor(l * F, l + F, a)
    ensures a >= 16370
  {
    FloorLe(l * F, l + F, a);
    if a < 16370 {
      MulMono(a + 1, 16370, l + F);
    }
  }

  /** With 587 runnable threads there is a run in which usage wraps. */
  lemma {:induction false} CrowdWraps(s: State, load: int, rc: int, k: nat) returns (es: seq<Event>, t: State)
    requires k < TIMER_FREQ && AtTick(s, load, rc, k)
    ensures RunAdmissible(es, 587, 587) && Reaches(s, es, t) && Wraps(t, Crowded)
    decreases Max(0, LOAD_NEEDED - load), INT_MAX - rc, TIMER_FREQ - k
  {
    if rc + (k + 1) * F > INT_MAX {
      return [], s;
    }
    CrowdedTick(s, load, rc, k);
    if k + 1 < TIMER_FREQ {
      es, t := CrowdWraps(Step(s, Crowded), load, rc, k + 1);
    } else {
      var load' := NewLoad(load, 587);
      LoadClimbs(load);
      LoadBounded(load, 587, 587);
      if load >= LOAD_NEEDED {
        UsageClimbs(load', rc);
      }
      es, t := CrowdWraps(Step(s, Crowded), load', NextCpu(load', rc), 0);
    }
    TickFirst(s, Crowded, es, t);
    Crowding(es);
    es := [Crowded] + es;
  }

  /** From zeroed usage and load, no run with n runnable threads ever wraps usage, if and only if n is at most 586. */
  lemma WrapsIff(n: nat)
    ensures n <= 586 <==>
              forall s0, es, s, e :: FromZero(s0, es, s, n) && Admissible(e, n, |s0.threads|) ==> !Wraps(s, e)
  {
    if n <= 586 {
      forall s0, es, s, e | FromZero(s0, es, s, n)
        ensures !Wraps(s, e)
      {
        NeverWraps(s0, es, s, e, n);
      }
    } else {
      var s0 := State(0, seq(587, _ => Thread(0, 20, 0)), 0);
      var es, s := CrowdWraps(s0, 0, 0, 0);
      assert RunAdmissible(es, n, 587) by {
        assert forall i :: 0 <= i < |es| && Admissible(es[i], 587, 587) ==> Admissible(es[i], n, 587);
      }
      assert FromZero(s0, es, s, n) && Admissible(Crowded, n, 587);
    }
  }
}
