/**
 * The steps of locks and condition variables as they run: methods over one processor's own state
 * (threads/synch.c of Project 2). Each method is one stretch between two points where an interrupt can fall.
 */
module Sync {
  import opened Common
  import K = Kernel
  import opened Monitor

  /** Locks and conditions, updated in place over one processor. The ghost fields record what the proofs speak of. */
  class Monitors {
    const cpu: K.Cpu
    var locks: seq<Lock>
    var conds: seq<Condition>
    ghost var kinds: seq<Kind>
    ghost var pc: seq<Pc>

    ghost function View(): State
      reads this, cpu, cpu.status, cpu.at
    {
      State.State(cpu.View(), kinds, pc, locks, conds)
    }

    constructor (pages: nat)
      requires pages >= 2
      ensures View() == Started(pages) && fresh(cpu) && fresh(cpu.status) && fresh(cpu.at)
    {
      cpu := new K.Cpu(pages);
      locks, conds, kinds, pc := [], [], [], seq(pages, _ => Out);
    }

    method LockInitialize() returns (l: nat)
      requires Inv(View()) && Enabled(View(), LockInit)
      modifies this, cpu
      ensures l == old(|locks|) && View() == Step(old(View()), LockInit) && Inv(View())
    {
      StepKeepsInv(View(), LockInit);
      l := |locks|;
      locks := locks + [Lock(|cpu.semas|, None, None)];
      kinds := kinds + [OfLock(l)];
      cpu.semas := cpu.semas + [K.Sema(1, [])];
    }

    /** `lock_acquire` up to the semaphore taken, or the sleep in it. */
    method LockAcquire(l: nat)
      requires Inv(View()) && Enabled(View(), Acquire(l))
      modifies this, cpu, cpu.status, cpu.at
      ensures View() == Step(old(View()), Acquire(l)) && Inv(View())
    {
      StepKeepsInv(View(), Acquire(l));
      var me, x := cpu.run, locks[l].sema;
      if cpu.semas[x].value == 0 {
        pc := pc[me := Acquiring(l)];
      } else {
        pc := pc[me := Got(l)];
        locks := WithInside(locks, l, Some(me));
      }
      cpu.SemaDown(x);
    }

    method LockTryAcquire(l: nat) returns (success: bool)
      requires Inv(View()) && Enabled(View(), TryAcquire(l))
      modifies this, cpu
      ensures View() == Step(old(View()), TryAcquire(l)) && Inv(View())
      ensures success <==> old(cpu.semas[locks[l].sema].value > 0)
    {
      StepKeepsInv(View(), TryAcquire(l));
      success := cpu.SemaTryDown(locks[l].sema);
      if success {
        pc := pc[cpu.run := Got(l)];
        locks := WithInside(locks, l, Some(cpu.run));
      }
    }

    /** Going on in `lock_acquire` after being switched to. */
    method ResumeAcquire(l: nat)
      requires Inv(View()) && Enabled(View(), TestAgain) && pc[cpu.run] == Acquiring(l)
      modifies this, cpu, cpu.status, cpu.at
      ensures View() == Step(old(View()), TestAgain) && Inv(View())
    {
      StepKeepsInv(View(), TestAgain);
      AgainMayTest(View());
      var me := cpu.run;
      var x := cpu.at[me].sema;
      if cpu.semas[x].value > 0 {
        locks := WithInside(locks, l, Some(me));
        pc := pc[me := Got(l)];
      }
      cpu.SemaDown(x);
    }

    /** Going on in `cond_wait` after being switched to. */
    method ResumeWait(w: nat)
      requires Inv(View()) && Enabled(View(), TestAgain) && pc[cpu.run].Waiting? && pc[cpu.run].w == w
      modifies this, cpu, cpu.status, cpu.at
      ensures View() == Step(old(View()), TestAgain) && Inv(View())
    {
      StepKeepsInv(View(), TestAgain);
      AgainMayTest(View());
      var me := cpu.run;
      var x := cpu.at[me].sema;
      if cpu.semas[x].value > 0 {
        kinds := WithStage(kinds, w, Passed);
        pc := pc[me := Back(pc[me].l)];
      }
      cpu.SemaDown(x);
    }

    /** The rest of `lock_acquire` once the semaphore is taken. */
    method TakeOver(l: nat)
      requires Inv(View()) && Enabled(View(), SetHolder) && pc[cpu.run].l == l
      modifies this
      ensures View() == Step(old(View()), SetHolder) && Inv(View())
    {
      StepKeepsInv(View(), SetHolder);
      locks := WithHolder(locks, l, Some(cpu.run));
      pc := pc[cpu.run := Out];
    }

    /** `lock_release` up to the holder cleared. */
    method LockRelease(l: nat)
      requires Inv(View()) && Enabled(View(), Release(l))
      modifies this
      ensures View() == Step(old(View()), Release(l)) && Inv(View())
    {
      StepKeepsInv(View(), Release(l));
      locks := WithHolder(locks, l, None);
      pc := pc[cpu.run := Releasing(l)];
    }

    /** The rest of `lock_release`, called by itself or from `cond_wait`. */
    method HandOn(l: nat)
      requires Inv(View()) && Enabled(View(), FinishRelease) && pc[cpu.run].l == l
      modifies this, cpu, cpu.status
      ensures View() == Step(old(View()), FinishRelease) && Inv(View())
    {
      StepKeepsInv(View(), FinishRelease);
      locks := WithInside(locks, l, None);
      pc := pc[cpu.run := if pc[cpu.run].Releasing? then Out else Before(l, pc[cpu.run].w)];
      cpu.SemaUp(locks[l].sema);
    }

    /** `cond_wait` up to its private semaphore on the list. */
    method CondWait(c: nat) returns (w: nat)
      requires Inv(View()) && Enabled(View(), Wait(c))
      modifies this, cpu
      ensures w == old(|cpu.semas|) && View() == Step(old(View()), Wait(c)) && Inv(View())
    {
      StepKeepsInv(View(), Wait(c));
      w := |cpu.semas|;
      pc := pc[cpu.run := Pushed(conds[c].l, w)];
      kinds := kinds + [Private(cpu.run, Queued(c))];
      conds := conds[c := conds[c].(waiters := conds[c].waiters + [w])];
      cpu.semas := cpu.semas + [K.Sema(0, [])];
    }

    /** `cond_wait` once the lock is released: sleep, unless the signal is already there. */
    method CondSleep(w: nat)
      requires Inv(View()) && Enabled(View(), WaitDown) && pc[cpu.run].w == w
      modifies this, cpu, cpu.status, cpu.at
      ensures View() == Step(old(View()), WaitDown) && Inv(View())
    {
      StepKeepsInv(View(), WaitDown);
      WaitMayTest(View());
      var me := cpu.run;
      if cpu.semas[w].value == 0 {
        pc := pc[me := Waiting(pc[me].l, w)];
      } else {
        pc := pc[me := Back(pc[me].l)];
        kinds := WithStage(kinds, w, Passed);
      }
      cpu.SemaDown(w);
    }

    /** `cond_signal` up to the front of the list popped. */
    method CondSignal(c: nat) returns (w: Option<nat>)
      requires Inv(View()) && Enabled(View(), Signal(c))
      modifies this
      ensures View() == Step(old(View()), Signal(c)) && Inv(View())
      ensures w == if old(conds[c].waiters) == [] then None else Some(old(conds[c].waiters)[0])
    {
      StepKeepsInv(View(), Signal(c));
      w := None;
      if conds[c].waiters != [] {
        w := Some(conds[c].waiters[0]);
        pc := pc[cpu.run := Signalling(w.value)];
        kinds := WithStage(kinds, w.value, Popped(cpu.run));
        conds := conds[c := conds[c].(waiters := conds[c].waiters[1..])];
      }
    }

    /** The rest of `cond_signal`. */
    method CondRaise(w: nat)
      requires Inv(View()) && Enabled(View(), FinishSignal) && pc[cpu.run].w == w
      modifies this, cpu, cpu.status
      ensures View() == Step(old(View()), FinishSignal) && Inv(View())
    {
      StepKeepsInv(View(), FinishSignal);
      kinds := WithStage(kinds, w, Given);
      pc := pc[cpu.run := Out];
      cpu.SemaUp(w);
    }

    /** One turn of `cond_broadcast`, when no interrupt falls in it. */
    method SignalOne(c: nat) returns (w: nat)
      requires Inv(View()) && Enabled(View(), Signal(c)) && conds[c].waiters != []
      modifies this, cpu, cpu.status
      ensures Inv(View()) && cpu.run == old(cpu.run) && Enabled(View(), Signal(c))
      ensures w == old(conds[c].waiters[0]) && conds[c].waiters == old(conds[c].waiters[1..])
      ensures w < |old(kinds)| && old(kinds)[w].Private? && kinds == old(kinds)[w := old(kinds)[w].(stage := Given)]
    {
      OneSignal(View(), c);
      var popped := CondSignal(c);
      w := popped.value;
      CondRaise(w);
    }

    /** `cond_broadcast`, when no interrupt falls in it: every waiter it finds is released. */
    method CondBroadcast(c: nat)
      requires Inv(View()) && Enabled(View(), Signal(c))
      modifies this, cpu, cpu.status
      ensures Inv(View()) && cpu.run == old(cpu.run) && c < |conds| && conds[c].waiters == []
      ensures forall w :: w in old(conds[c].waiters) ==> w < |cpu.semas| && cpu.semas[w] == K.Sema(1, [])
    {
      ghost var q := conds[c].waiters;
      ghost var done := 0;
      while conds[c].waiters != []
        invariant Inv(View()) && cpu.run == old(cpu.run) && c < |conds| && Enabled(View(), Signal(c))
        invariant done <= |q| && conds[c].waiters == q[done..]
        invariant forall i :: 0 <= i < done ==> q[i] < |kinds| && kinds[q[i]].Private? && kinds[q[i]].stage == Given
        decreases |conds[c].waiters|
      {
        var w := SignalOne(c);
        done := done + 1;
      }
      forall w | w in q
        ensures w < |cpu.semas| && cpu.semas[w] == K.Sema(1, [])
      {
        GivenIsKept(View(), w);
      }
    }
  }
}
