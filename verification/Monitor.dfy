/**
 * Locks and Mesa condition variables over the semaphores of one processor (threads/synch.c of Project 2).
 *
 * Each operation is cut where a timer interrupt can fall: between `sema_down` and setting the holder, between clearing
 * the holder and `sema_up`, between the pieces of `cond_wait`, and between popping a waiter and raising its semaphore.
 */
module Monitor {
  import opened Common
  import K = Kernel
  import opened Kernel

  datatype Stage = Queued(c: nat) | Popped(signaller: nat) | Given | Passed

  /**
   * What a semaphore is for. A private one belongs to one call of `cond_wait`; its stage is a history variable: on the
   * list of a condition, popped by a signaller, raised, taken.
   */
  datatype Kind = Plain | OfLock(l: nat) | Private(owner: nat, stage: Stage)

  /** `inside` is a history variable: the thread between a completed `sema_down` and the matching `sema_up`. */
  datatype Lock = Lock(sema: nat, holder: Option<nat>, inside: Option<nat>)

  datatype Condition = Condition(l: nat, waiters: seq<nat>)

  /** Where a thread is within an operation. */
  datatype Pc =
    | Out
    | Acquiring(l: nat)           // asleep or woken inside the lock's `sema_down`
    | Got(l: nat)                 // past it, holder not yet set
    | Releasing(l: nat)           // holder cleared, `sema_up` to come
    | Pushed(l: nat, w: nat)      // `cond_wait`: on the list, lock still held
    | Unlocking(l: nat, w: nat)     // holder cleared, `sema_up` to come
    | Before(l: nat, w: nat)      // lock released, `sema_down` of the private semaphore to come
    | Waiting(l: nat, w: nat)     // asleep or woken inside it
    | Back(l: nat)                // past it, `lock_acquire` to come
    | Signalling(w: nat)          // `cond_signal`: popped, `sema_up` to come

  datatype State = State(k: K.State, kinds: seq<Kind>, pc: seq<Pc>, locks: seq<Lock>, conds: seq<Condition>)

  datatype Op =
    | Sys(op: K.Op)
    | LockInit | CondInit(l: nat)
    | Acquire(l: nat) | TryAcquire(l: nat) | TestAgain | SetHolder
    | Release(l: nat) | FinishRelease
    | Wait(c: nat) | WaitUnhold | WaitDown
    | Signal(c: nat) | FinishSignal

  predicate Shape(s: State) {
    K.Shape(s.k) && |s.kinds| == |s.k.semas| && |s.pc| == |s.k.status|
  }

  // ---------- The steps ----------

  /** The running thread executes ordinary code of its own. */
  predicate InThread(s: State)
    requires Shape(s)
  {
    s.k.at[s.k.run] == User && s.k.run != s.k.idle
  }

  predicate Holds(s: State, l: nat, t: nat) {
    l < |s.locks| && s.locks[l].holder == Some(t)
  }

  /**
   * Plain semaphores may be raised anywhere, also by an interrupt; locks and private semaphores have their own steps.
   */
  predicate SysEnabled(s: State, op: K.Op)
    requires Shape(s)
  {
    && K.Enabled(s.k, op)
    && match op
       case OpRetest => s.kinds[s.k.at[s.k.run].sema].Plain?
       case OpDown(x) => s.pc[s.k.run].Out? && s.kinds[x].Plain?
       case OpTryDown(x) => s.kinds[x].Plain?
       case OpUp(x) => s.kinds[x].Plain?
       case OpCreate(_) => s.pc[s.k.run].Out?
       case OpExit => s.pc[s.k.run].Out?
       case OpSleep => s.pc[s.k.run].Out?
       case OpPark => s.pc[s.k.run].Out?
       case _ => true
  }

  /** The source's assertions on who holds the lock are the conditions of its callers. */
  predicate Enabled(s: State, op: Op)
    requires Shape(s)
  {
    var me := s.k.run;
    match op
    case Sys(o) => SysEnabled(s, o)
    case LockInit => InThread(s) && s.pc[me].Out?
    case CondInit(l) => InThread(s) && s.pc[me].Out? && l < |s.locks|
    case Acquire(l) =>
      InThread(s) && l < |s.locks| && s.locks[l].sema < |s.k.semas| && s.pc[me] in {Out, Back(l)} && !Holds(s, l, me)
    case TryAcquire(l) =>
      InThread(s) && l < |s.locks| && s.locks[l].sema < |s.k.semas| && s.pc[me].Out? && !Holds(s, l, me)
    case TestAgain =>
      && s.k.at[me].Retest? && s.k.at[me].sema < |s.k.semas|
      && ((s.pc[me].Acquiring? && s.pc[me].l < |s.locks|) ||
          (s.pc[me].Waiting? && s.pc[me].w < |s.kinds| && s.kinds[s.pc[me].w].Private?))
    case SetHolder => InThread(s) && s.pc[me].Got? && s.pc[me].l < |s.locks|
    case Release(l) => InThread(s) && s.pc[me].Out? && Holds(s, l, me)
    case FinishRelease =>
      && InThread(s) && (s.pc[me].Releasing? || s.pc[me].Unlocking?)
      && s.pc[me].l < |s.locks| && s.locks[s.pc[me].l].sema < |s.k.semas|
    case Wait(c) => InThread(s) && s.pc[me].Out? && c < |s.conds| && Holds(s, s.conds[c].l, me)
    case WaitUnhold => InThread(s) && s.pc[me].Pushed? && s.pc[me].l < |s.locks|
    case WaitDown => InThread(s) && s.pc[me].Before? && s.pc[me].w < |s.kinds| && s.kinds[s.pc[me].w].Private?
    case Signal(c) =>
      && InThread(s) && s.pc[me].Out? && c < |s.conds| && Holds(s, s.conds[c].l, me)
      && (s.conds[c].waiters != [] ==> s.conds[c].waiters[0] < |s.kinds| && s.kinds[s.conds[c].waiters[0]].Private?)
    case FinishSignal => InThread(s) && s.pc[me].Signalling? && s.pc[me].w < |s.kinds| && s.kinds[s.pc[me].w].Private?
  }

  /** The semaphore operation inside a step, if there is one. */
  function Inner(s: State, op: Op): Option<K.Op>
    requires Shape(s) && Enabled(s, op)
  {
    var me := s.k.run;
    match op
    case Sys(o) => Some(o)
    case LockInit => Some(OpInit(1))
    case Wait(_) => Some(OpInit(0))
    case Acquire(l) => Some(OpDown(s.locks[l].sema))
    case TryAcquire(l) => Some(OpTryDown(s.locks[l].sema))
    case TestAgain => Some(OpRetest)
    case FinishRelease => Some(OpUp(s.locks[s.pc[me].l].sema))
    case WaitDown => Some(OpDown(s.pc[me].w))
    case FinishSignal => Some(OpUp(s.pc[me].w))
    case _ => None
  }

  function At(s: State, pc: Pc): State
    requires Shape(s)
  {
    s.(pc := s.pc[s.k.run := pc])
  }

  function InnerStep(s: State, op: Op): (k: K.State)
    requires Shape(s) && Enabled(s, op)
    ensures K.Shape(k)
  {
    match Inner(s, op)
    case Some(o) => K.Step(s.k, o)
    case None => s.k
  }

  function WithStage(kinds: seq<Kind>, w: nat, stage: Stage): (r: seq<Kind>)
    requires w < |kinds| && kinds[w].Private?
    ensures |r| == |kinds|
  {
    kinds[w := kinds[w].(stage := stage)]
  }

  function WithHolder(locks: seq<Lock>, l: nat, holder: Option<nat>): seq<Lock>
    requires l < |locks|
  {
    locks[l := locks[l].(holder := holder)]
  }

  function WithInside(locks: seq<Lock>, l: nat, inside: Option<nat>): seq<Lock>
    requires l < |locks|
  {
    locks[l := locks[l].(inside := inside)]
  }

  /** What a step does to the state above the semaphores; k is the processor after it. */
  function Outer(s: State, op: Op): (r: State)
    requires Shape(s) && Enabled(s, op)
  {
    var me := s.k.run;
    match op
    case Sys(o) =>
      if o.OpInit? then s.(kinds := s.kinds + [Plain]) else if o.OpCreate? then s.(pc := s.pc[o.t := Out]) else s
    case LockInit => s.(kinds := s.kinds + [OfLock(|s.locks|)], locks := s.locks + [Lock(|s.kinds|, None, None)])
    case CondInit(l) => s.(conds := s.conds + [Condition(l, [])])
    case Acquire(l) =>
      if s.k.semas[s.locks[l].sema].value == 0 then At(s, Acquiring(l))
      else At(s, Got(l)).(locks := WithInside(s.locks, l, Some(me)))
    case TryAcquire(l) =>
      if s.k.semas[s.locks[l].sema].value == 0 then s
      else At(s, Got(l)).(locks := WithInside(s.locks, l, Some(me)))
    case TestAgain =>
      if s.k.semas[s.k.at[me].sema].value == 0 then s
      else if s.pc[me].Acquiring? then At(s, Got(s.pc[me].l)).(locks := WithInside(s.locks, s.pc[me].l, Some(me)))
      else At(s, Back(s.pc[me].l)).(kinds := WithStage(s.kinds, s.pc[me].w, Passed))
    case SetHolder => At(s, Out).(locks := WithHolder(s.locks, s.pc[me].l, Some(me)))
    case Release(l) => At(s, Releasing(l)).(locks := WithHolder(s.locks, l, None))
    case FinishRelease =>
      var pc := if s.pc[me].Releasing? then Out else Before(s.pc[me].l, s.pc[me].w);
      At(s, pc).(locks := WithInside(s.locks, s.pc[me].l, None))
    case Wait(c) =>
      var w := |s.kinds|;
      At(s, Pushed(s.conds[c].l, w)).(
        kinds := s.kinds + [Private(me, Queued(c))],
        conds := s.conds[c := s.conds[c].(waiters := s.conds[c].waiters + [w])])
    case WaitUnhold => At(s, Unlocking(s.pc[me].l, s.pc[me].w)).(locks := WithHolder(s.locks, s.pc[me].l, None))
    case WaitDown =>
      var w := s.pc[me].w;
      if s.k.semas[w].value == 0 then At(s, Waiting(s.pc[me].l, w))
      else At(s, Back(s.pc[me].l)).(kinds := WithStage(s.kinds, w, Passed))
    case Signal(c) =>
      if s.conds[c].waiters == [] then s
      else
        var w := s.conds[c].waiters[0];
        At(s, Signalling(w)).(
          kinds := WithStage(s.kinds, w, Popped(me)),
          conds := s.conds[c := s.conds[c].(waiters := s.conds[c].waiters[1..])])
    case FinishSignal => At(s, Out).(kinds := WithStage(s.kinds, s.pc[me].w, Given))
  }

  function Step(s: State, op: Op): (r: State)
    requires Shape(s) && Enabled(s, op)
  {
    Outer(s, op).(k := InnerStep(s, op))
  }

  // ---------- The invariant ----------

  predicate Alive(k: K.State, t: nat) {
    t < |k.status| && t != k.idle && k.status[t] !in {Absent, Dying}
  }

  /** t still has to take the private semaphore w. */
  predicate Owes(s: State, t: nat, w: nat) {
    w < |s.kinds| && s.kinds[w].Private? && s.kinds[w].owner == t && s.kinds[w].stage != Passed
  }

  predicate InRegion(s: State, t: nat, l: nat) {
    l < |s.locks| && s.locks[l].inside == Some(t) && s.locks[l].holder == None
  }

  predicate Outside(s: State, t: nat, l: nat) {
    l < |s.locks| && s.locks[l].inside != Some(t)
  }

  predicate ThreadOk(s: State, t: nat)
    requires Shape(s) && t < |s.pc|
  {
    var at := s.k.at[t];
    && (s.pc[t] != Out ==> Alive(s.k, t))
    && match s.pc[t]
       case Out => at == User || (at.sema < |s.kinds| && s.kinds[at.sema].Plain?)
       case Acquiring(l) => Outside(s, t, l) && at == Retest(s.locks[l].sema)
       case Got(l) => InRegion(s, t, l) && at == User
       case Releasing(l) => InRegion(s, t, l) && at == User
       case Pushed(l, w) => Holds(s, l, t) && Owes(s, t, w) && at == User
       case Unlocking(l, w) => InRegion(s, t, l) && Owes(s, t, w) && at == User
       case Before(l, w) => Outside(s, t, l) && Owes(s, t, w) && at == User
       case Waiting(l, w) => Outside(s, t, l) && Owes(s, t, w) && at == Retest(w)
       case Back(l) => Outside(s, t, l) && at == User
       case Signalling(w) => w < |s.kinds| && s.kinds[w].Private? && s.kinds[w].stage == Popped(t) && at == User
  }

  /** pc is that of a thread in the region of l that is about to set, or has just cleared, the holder. */
  predicate AtEdge(pc: Pc, l: nat) {
    pc == Got(l) || pc == Releasing(l) || (pc.Unlocking? && pc.l == l)
  }

  predicate LockOk(s: State, l: nat)
    requires Shape(s) && l < |s.locks|
  {
    var k := s.locks[l];
    && k.sema < |s.kinds| && s.kinds[k.sema] == OfLock(l)
    && s.k.semas[k.sema].value == (if k.inside.None? then 1 else 0)
    && (k.holder.Some? ==> k.inside == k.holder)
    && (k.inside.Some? ==> k.inside.value < |s.pc|)
    && (k.inside.Some? && k.holder.None? ==> AtEdge(s.pc[k.inside.value], l))
  }

  /** pc is within a `cond_wait` that has not yet taken its private semaphore w. */
  predicate Concerns(pc: Pc, w: nat) {
    (pc.Pushed? || pc.Unlocking? || pc.Before? || pc.Waiting?) && pc.w == w
  }

  predicate SemaOk(s: State, x: nat)
    requires Shape(s) && x < |s.kinds|
  {
    match s.kinds[x]
    case Plain => true
    case OfLock(l) => l < |s.locks| && s.locks[l].sema == x
    case Private(t, stage) =>
      && s.k.semas[x].value == (if stage == Given then 1 else 0)
      && (stage != Passed ==> t < |s.pc| && Concerns(s.pc[t], x))
      && (stage.Queued? ==> stage.c < |s.conds| && x in s.conds[stage.c].waiters)
      && (stage.Popped? ==> stage.signaller < |s.pc| && s.pc[stage.signaller] == Signalling(x))
  }

  /** Private semaphores are numbered as their waits begin. */
  ghost predicate InOrder(q: seq<nat>) {
    forall i, j :: 0 <= i < j < |q| ==> q[i] < q[j]
  }

  ghost predicate CondOk(s: State, c: nat)
    requires c < |s.conds|
  {
    && s.conds[c].l < |s.locks| && InOrder(s.conds[c].waiters)
    && forall w :: w in s.conds[c].waiters ==> w < |s.kinds| && s.kinds[w].Private? && s.kinds[w].stage == Queued(c)
  }

  ghost predicate Inv(s: State) {
    && K.Inv(s.k) && Shape(s)
    && (forall t :: 0 <= t < |s.pc| ==> ThreadOk(s, t))
    && (forall l :: 0 <= l < |s.locks| ==> LockOk(s, l))
    && (forall x :: 0 <= x < |s.kinds| ==> SemaOk(s, x))
    && (forall c :: 0 <= c < |s.conds| ==> CondOk(s, c))
  }

  // ---------- Every step keeps the invariant ----------

  lemma InnerKeepsInv(s: State, op: Op)
    requires Inv(s) && Enabled(s, op)
    ensures K.Inv(InnerStep(s, op))
  {
    match Inner(s, op)
    case Some(o) => K.StepKeepsInv(s.k, o);
    case None =>
  }

  /** Threads stay alive, unless they exit; k is the processor after the step. */
  lemma InnerAlive(s: State, op: Op, t: nat) returns (k: K.State)
    requires Inv(s) && Enabled(s, op) && t < |s.pc|
    ensures k == InnerStep(s, op) && |k.status| == |s.k.status|
    ensures Alive(s.k, t) && !(op == Sys(OpExit) && t == s.k.run) ==> Alive(k, t)
  {
    k := InnerStep(s, op);
    match Inner(s, op)
    case Some(o) => K.StepPlaces(s.k, o, t); K.StepFrees(s.k, o, t); K.StepLives(s.k, o, t);
    case None =>
  }

  /** Where the running thread stands after the step. */
  lemma InnerPlace(s: State, op: Op) returns (k: K.State)
    requires Inv(s) && Enabled(s, op)
    ensures k == InnerStep(s, op) && |k.at| == |s.k.at|
    ensures k.at[s.k.run] == match Inner(s, op)
                             case None => s.k.at[s.k.run]
                             case Some(o) =>
                               match K.Tested(s.k, o)
                               case None => s.k.at[s.k.run]
                               case Some(x) => if s.k.semas[x].value == 0 then Retest(x) else User
  {
    k := InnerStep(s, op);
    match Inner(s, op)
    case Some(o) => K.StepPlaces(s.k, o, s.k.run);
    case None =>
  }

  /** The semaphore x changes only in a step whose inner operation is on x. */
  lemma InnerValue(s: State, op: Op, x: nat) returns (k: K.State)
    requires Inv(s) && Enabled(s, op) && x < |s.k.semas|
    ensures k == InnerStep(s, op) && x < |k.semas|
    ensures k.semas[x].value == match Inner(s, op)
                                case None => s.k.semas[x].value
                                case Some(o) =>
                                  if o == OpUp(x) then Bumped(s.k.semas[x].value)
                                  else s.k.semas[x].value - (if K.Takes(s.k, o, x) then 1 else 0)
  {
    k := InnerStep(s, op);
    match Inner(s, op)
    case Some(o) => K.StepCounts(s.k, o, x);
    case None =>
  }

  /** Only the running thread moves. */
  lemma InnerOthers(s: State, op: Op, t: nat) returns (k: K.State)
    requires Inv(s) && Enabled(s, op) && t < |s.pc|
    ensures k == InnerStep(s, op) && |k.at| == |s.k.at| && (t != s.k.run ==> k.at[t] == s.k.at[t])
    ensures |k.semas| == |s.k.semas| + (if Inner(s, op).Some? && Inner(s, op).value.OpInit? then 1 else 0)
  {
    k := InnerStep(s, op);
    match Inner(s, op)
    case Some(o) => K.StepPlaces(s.k, o, t);
    case None =>
  }

  /** A step on a lock leaves the region of other threads alone. */
  lemma OthersLocks(s: State, op: Op, l: nat, t: nat)
    requires Shape(s) && Enabled(s, op) && l < |s.locks| && t != s.k.run
    requires ThreadOk(s, s.k.run) && LockOk(s, l)
    ensures l < |Step(s, op).locks| && Step(s, op).locks[l].sema == s.locks[l].sema
    ensures Step(s, op).locks[l].inside == Some(t) <==> s.locks[l].inside == Some(t)
    ensures s.locks[l].inside == Some(t) ==> Step(s, op).locks[l].holder == s.locks[l].holder
  {
  }

  /** Nobody else moves a private semaphore out of the reach of its owner or its signaller. */
  lemma OthersSemas(s: State, op: Op, w: nat, t: nat)
    requires Shape(s) && Enabled(s, op) && w < |s.kinds| && t != s.k.run
    requires ThreadOk(s, s.k.run) && SemaOk(s, w) && (op.Signal? ==> CondOk(s, op.c))
    ensures w < |Step(s, op).kinds|
    ensures s.kinds[w].Plain? ==> Step(s, op).kinds[w].Plain?
    ensures Owes(s, t, w) ==> Owes(Step(s, op), t, w)
    ensures s.kinds[w].Private? && s.kinds[w].stage == Popped(t) ==> Step(s, op).kinds[w] == s.kinds[w]
  {
    if op.Signal? {
      assert s.conds[op.c].waiters != [] ==> s.conds[op.c].waiters[0] in s.conds[op.c].waiters;
    }
  }

  /** s' leaves alone the locks and semaphores that concern t. */
  ghost predicate LocksKept(s: State, s': State, t: nat) {
    forall l :: 0 <= l < |s.locks| ==>
      && l < |s'.locks| && s'.locks[l].sema == s.locks[l].sema
      && (s'.locks[l].inside == Some(t) <==> s.locks[l].inside == Some(t))
      && (s.locks[l].inside == Some(t) ==> s'.locks[l].holder == s.locks[l].holder)
  }

  ghost predicate SemasKept(s: State, s': State, t: nat) {
    forall w :: 0 <= w < |s.kinds| ==>
      && w < |s'.kinds| && (s.kinds[w].Plain? ==> s'.kinds[w].Plain?) && (Owes(s, t, w) ==> Owes(s', t, w))
      && (s.kinds[w].Private? && s.kinds[w].stage == Popped(t) ==> s'.kinds[w] == s.kinds[w])
  }

  lemma OthersKept(s: State, op: Op, t: nat)
    requires Inv(s) && Enabled(s, op) && t != s.k.run
    ensures LocksKept(s, Step(s, op), t) && SemasKept(s, Step(s, op), t)
  {
    assert ThreadOk(s, s.k.run);
    forall l | 0 <= l < |s.locks|
      ensures l < |Step(s, op).locks| && Step(s, op).locks[l].sema == s.locks[l].sema
      ensures Step(s, op).locks[l].inside == Some(t) <==> s.locks[l].inside == Some(t)
      ensures s.locks[l].inside == Some(t) ==> Step(s, op).locks[l].holder == s.locks[l].holder
    {
      OthersLocks(s, op, l, t);
    }
    forall w | 0 <= w < |s.kinds|
      ensures w < |Step(s, op).kinds| && (s.kinds[w].Plain? ==> Step(s, op).kinds[w].Plain?)
      ensures Owes(s, t, w) ==> Owes(Step(s, op), t, w)
      ensures s.kinds[w].Private? && s.kinds[w].stage == Popped(t) ==> Step(s, op).kinds[w] == s.kinds[w]
    {
      assert op.Signal? ==> CondOk(s, op.c);
      OthersSemas(s, op, w, t);
    }
  }

  lemma ThreadKept(s: State, s': State, t: nat)
    requires Shape(s) && Shape(s') && t < |s.pc| == |s'.pc| && ThreadOk(s, t)
    requires s'.pc[t] == s.pc[t] && s'.k.at[t] == s.k.at[t] && (Alive(s.k, t) ==> Alive(s'.k, t))
    requires s.pc[t].Pushed? ==> LockOk(s, s.pc[t].l)
    requires LocksKept(s, s', t) && SemasKept(s, s', t)
    ensures ThreadOk(s', t)
  {
  }

  lemma StepShape(s: State, op: Op)
    requires Inv(s) && Enabled(s, op)
    ensures Shape(Step(s, op)) && |Step(s, op).pc| == |s.pc|
  {
    var k := InnerOthers(s, op, s.k.run);
    k := InnerAlive(s, op, s.k.run);
  }

  lemma OtherPc(s: State, op: Op, t: nat)
    requires Shape(s) && Enabled(s, op) && t < |s.pc| && t != s.k.run && ThreadOk(s, t)
    ensures |Step(s, op).pc| == |s.pc| && Step(s, op).pc[t] == s.pc[t] && Step(s, op).k == InnerStep(s, op)
  {
  }

  /** Another thread goes on with whatever it is doing. */
  lemma OtherThread(s: State, op: Op, t: nat)
    requires Inv(s) && Enabled(s, op) && t < |s.pc| && t != s.k.run
    ensures Shape(Step(s, op)) && t < |Step(s, op).pc| && ThreadOk(Step(s, op), t)
  {
    assert ThreadOk(s, t);
    assert s.pc[t].Pushed? ==> LockOk(s, s.pc[t].l);
    StepShape(s, op);
    OtherPc(s, op, t);
    var k := InnerOthers(s, op, t);
    k := InnerAlive(s, op, t);
    OthersKept(s, op, t);
    ThreadKept(s, Step(s, op), t);
  }

  /** The lock that a step works on. */
  function LockOf(s: State, op: Op): Option<nat>
    requires Shape(s) && Enabled(s, op)
  {
    match op
    case Acquire(l) => Some(l)
    case TryAcquire(l) => Some(l)
    case Release(l) => Some(l)
    case SetHolder => Some(s.pc[s.k.run].l)
    case FinishRelease => Some(s.pc[s.k.run].l)
    case WaitUnhold => Some(s.pc[s.k.run].l)
    case WaitDown => Some(s.pc[s.k.run].l)
    case TestAgain => Some(s.pc[s.k.run].l)
    case Wait(c) => Some(s.conds[c].l)
    case _ => None
  }

  /** The running thread after it starts to take a lock. */
  lemma SelfTakesLock(s: State, op: Op)
    requires Inv(s) && Enabled(s, op) && (op.Acquire? || op.TryAcquire?)
    ensures |Step(s, op).pc| == |s.pc| && Shape(Step(s, op)) && ThreadOk(Step(s, op), s.k.run)
  {
    StepShape(s, op);
    var k := InnerPlace(s, op);
    k := InnerAlive(s, op, s.k.run);
    assert ThreadOk(s, s.k.run);
    assert LockOk(s, op.l);
  }

  /** The running thread after it starts to take the semaphore of its wait. */
  lemma SelfWaits(s: State)
    requires Inv(s) && Enabled(s, WaitDown)
    ensures var s' := Step(s, WaitDown); |s'.pc| == |s.pc| && Shape(s') && ThreadOk(s', s.k.run)
  {
    StepShape(s, WaitDown);
    var k := InnerPlace(s, WaitDown);
    k := InnerAlive(s, WaitDown, s.k.run);
    assert ThreadOk(s, s.k.run);
    assert LockOk(s, s.pc[s.k.run].l);
  }

  lemma AgainMayTest(s: State)
    requires Inv(s) && Enabled(s, TestAgain)
    ensures K.MayTest(s.k, s.k.at[s.k.run].sema)
    ensures s.pc[s.k.run].Waiting? ==> s.k.at[s.k.run].sema == s.pc[s.k.run].w
  {
    assert ThreadOk(s, s.k.run);
  }

  lemma WaitMayTest(s: State)
    requires Inv(s) && Enabled(s, WaitDown)
    ensures s.pc[s.k.run].w < |s.kinds| && K.MayTest(s.k, s.pc[s.k.run].w)
  {
    assert ThreadOk(s, s.k.run);
  }

  /** The running thread after it tests a semaphore again. */
  lemma SelfTests(s: State)
    requires Inv(s) && Enabled(s, TestAgain)
    ensures var s' := Step(s, TestAgain); |s'.pc| == |s.pc| && Shape(s') && ThreadOk(s', s.k.run)
  {
    StepShape(s, TestAgain);
    var k := InnerPlace(s, TestAgain);
    k := InnerAlive(s, TestAgain, s.k.run);
    assert ThreadOk(s, s.k.run);
    assert LockOk(s, s.pc[s.k.run].l);
  }

  /** The running thread after any other step on a lock. */
  lemma SelfOnLock(s: State, op: Op)
    requires Inv(s) && Enabled(s, op) &&
             (op.SetHolder? || op.Release? || op.FinishRelease? || op.WaitUnhold? || op.Wait?)
    ensures |Step(s, op).pc| == |s.pc| && Shape(Step(s, op)) && ThreadOk(Step(s, op), s.k.run)
  {
    var me := s.k.run;
    StepShape(s, op);
    var k := InnerPlace(s, op);
    k := InnerAlive(s, op, me);
    assert ThreadOk(s, me);
    assert LockOk(s, LockOf(s, op).value);
  }

  /** The running thread after a step on a condition, or one that makes a new lock or condition. */
  lemma SelfOffLock(s: State, op: Op)
    requires Inv(s) && Enabled(s, op) && LockOf(s, op).None? && !op.Sys?
    ensures |Step(s, op).pc| == |s.pc| && Shape(Step(s, op)) && ThreadOk(Step(s, op), s.k.run)
  {
    StepShape(s, op);
    var k := InnerPlace(s, op);
    k := InnerAlive(s, op, s.k.run);
    assert ThreadOk(s, s.k.run);
  }

  /** The running thread after a step of its own code, or of an interrupt. */
  lemma SelfInSys(s: State, op: Op)
    requires Inv(s) && Enabled(s, op) && op.Sys?
    ensures |Step(s, op).pc| == |s.pc| && Shape(Step(s, op)) && ThreadOk(Step(s, op), s.k.run)
  {
    var me := s.k.run;
    StepShape(s, op);
    var k := InnerPlace(s, op);
    k := InnerAlive(s, op, me);
    assert ThreadOk(s, me);
    assert s.pc[me].Acquiring? ==> LockOk(s, s.pc[me].l);
  }

  lemma StepThreads(s: State, op: Op, t: nat)
    requires Inv(s) && Enabled(s, op) && t < |s.pc|
    ensures |Step(s, op).pc| == |s.pc| && Shape(Step(s, op)) && ThreadOk(Step(s, op), t)
  {
    if t != s.k.run {
      OtherThread(s, op, t);
    }
    if op.Sys? {
      SelfInSys(s, op);
    } else if LockOf(s, op).None? {
      SelfOffLock(s, op);
    } else if op.TestAgain? {
      SelfTests(s);
    } else if op.WaitDown? {
      SelfWaits(s);
    } else if op.Acquire? || op.TryAcquire? {
      SelfTakesLock(s, op);
    } else {
      SelfOnLock(s, op);
    }
  }

  /** The step's inner operation on the semaphore of lock l; another lock's steps never come near it. */
  lemma LockValue(s: State, op: Op, l: nat, v: int)
    requires Shape(s) && Enabled(s, op) && l < |s.locks| && LockOk(s, l) && ThreadOk(s, s.k.run)
    requires LockOf(s, op).Some? ==> LockOf(s, op).value < |s.locks| && LockOk(s, LockOf(s, op).value)
    requires var x := s.locks[l].sema;
             v == match Inner(s, op)
                  case None => s.k.semas[x].value
                  case Some(o) =>
                    if o == OpUp(x) then Bumped(s.k.semas[x].value)
                    else s.k.semas[x].value - (if K.Takes(s.k, o, x) then 1 else 0)
    ensures l < |Outer(s, op).locks| && v == if Outer(s, op).locks[l].inside.None? then 1 else 0
  {
  }

  /** The lock that a step works on is in order. */
  lemma TouchedOk(s: State, op: Op)
    requires Inv(s) && Enabled(s, op)
    ensures ThreadOk(s, s.k.run)
    ensures LockOf(s, op).Some? ==> LockOf(s, op).value < |s.locks| && LockOk(s, LockOf(s, op).value)
  {
    assert ThreadOk(s, s.k.run);
    if op.Wait? {
      assert CondOk(s, op.c);
    }
  }

  /** Only the running thread gets into the region. */
  lemma LockInside(s: State, op: Op, l: nat)
    requires Shape(s) && Enabled(s, op) && l < |s.locks| && LockOk(s, l) && ThreadOk(s, s.k.run)
    requires LockOf(s, op).Some? ==> LockOf(s, op).value < |s.locks| && LockOk(s, LockOf(s, op).value)
    ensures l < |Outer(s, op).locks| && Outer(s, op).locks[l].sema == s.locks[l].sema
    ensures var k := Outer(s, op).locks[l];
            && (k.holder.Some? ==> k.inside == k.holder)
            && (k.inside.Some? ==> k.inside.value < |s.pc|)
  {
  }

  lemma OtherRegion(s: State, op: Op, l: nat)
    requires Shape(s) && Enabled(s, op) && l < |s.locks| && LockOk(s, l) && ThreadOk(s, s.k.run)
    requires LockOf(s, op) != Some(l)
    requires s.locks[l].inside.Some? ==> ThreadOk(s, s.locks[l].inside.value)
    ensures |Outer(s, op).pc| == |s.pc| && l < |Outer(s, op).locks| && Outer(s, op).locks[l] == s.locks[l]
    ensures var k := s.locks[l];
            k.inside.Some? && k.holder.None? ==> Outer(s, op).pc[k.inside.value] == s.pc[k.inside.value]
  {
  }

  lemma TouchedRegion(s: State, op: Op, l: nat)
    requires Shape(s) && Enabled(s, op) && l < |s.locks| && LockOk(s, l) && ThreadOk(s, s.k.run)
    requires LockOf(s, op) == Some(l)
    ensures |Outer(s, op).pc| == |s.pc| && l < |Outer(s, op).locks|
    ensures var k := Outer(s, op).locks[l];
            k.inside.Some? && k.holder.None? ==> k.inside.value < |s.pc| && AtEdge(Outer(s, op).pc[k.inside.value], l)
  {
  }

  lemma OldLockValue(s: State, op: Op, l: nat)
    requires Inv(s) && Enabled(s, op) && l < |s.locks| && LockOk(s, l)
    ensures l < |Step(s, op).locks| && s.locks[l].sema < |Step(s, op).k.semas|
    ensures Step(s, op).k.semas[s.locks[l].sema].value == if Step(s, op).locks[l].inside.None? then 1 else 0
  {
    TouchedOk(s, op);
    var k := InnerValue(s, op, s.locks[l].sema);
    LockValue(s, op, l, k.semas[s.locks[l].sema].value);
  }

  lemma OldLockInside(s: State, op: Op, l: nat)
    requires Inv(s) && Enabled(s, op) && l < |s.locks| && LockOk(s, l)
    ensures l < |Step(s, op).locks| && Step(s, op).locks[l].sema == s.locks[l].sema
    ensures Step(s, op).locks[l].holder.Some? ==> Step(s, op).locks[l].inside == Step(s, op).locks[l].holder
    ensures Step(s, op).locks[l].inside.Some? ==> Step(s, op).locks[l].inside.value < |s.pc|
  {
    TouchedOk(s, op);
    LockInside(s, op, l);
  }

  lemma StepOldLock(s: State, op: Op, l: nat)
    requires Inv(s) && Enabled(s, op) && l < |s.locks|
    ensures Shape(Step(s, op)) && l < |Step(s, op).locks| && LockOk(Step(s, op), l)
  {
    assert LockOk(s, l);
    TouchedOk(s, op);
    StepShape(s, op);
    OldLockValue(s, op, l);
    OldLockInside(s, op, l);
    if LockOf(s, op) == Some(l) {
      TouchedRegion(s, op, l);
    } else {
      assert s.locks[l].inside.Some? ==> ThreadOk(s, s.locks[l].inside.value);
      OtherRegion(s, op, l);
    }
    assert |s.kinds| <= |Step(s, op).kinds| && Step(s, op).kinds[s.locks[l].sema] == s.kinds[s.locks[l].sema];
  }

  lemma StepNewLock(s: State)
    requires Inv(s) && Enabled(s, LockInit)
    ensures Shape(Step(s, LockInit)) && LockOk(Step(s, LockInit), |s.locks|)
  {
    StepShape(s, LockInit);
    K.StepPlaces(s.k, OpInit(1), s.k.run);
  }

  /** A private semaphore is raised once, by the thread that popped it, and taken once, by its owner. */
  lemma PrivateValue(s: State, op: Op, x: nat, v: int)
    requires Shape(s) && Enabled(s, op) && x < |s.kinds| && s.kinds[x].Private? && SemaOk(s, x) && ThreadOk(s, s.k.run)
    requires LockOf(s, op).Some? ==> LockOf(s, op).value < |s.locks| && LockOk(s, LockOf(s, op).value)
    requires op.Signal? ==> CondOk(s, op.c)
    requires v == match Inner(s, op)
                  case None => s.k.semas[x].value
                  case Some(o) =>
                    if o == OpUp(x) then Bumped(s.k.semas[x].value)
                    else s.k.semas[x].value - (if K.Takes(s.k, o, x) then 1 else 0)
    ensures x < |Outer(s, op).kinds| && Outer(s, op).kinds[x].Private? &&
            Outer(s, op).kinds[x].owner == s.kinds[x].owner
    ensures v == if Outer(s, op).kinds[x].stage == Given then 1 else 0
  {
    if op.Signal? {
      assert s.conds[op.c].waiters != [] ==> s.conds[op.c].waiters[0] in s.conds[op.c].waiters;
    }
  }

  /** Until it is taken, its owner is waiting for it, whatever happens to it. */
  lemma PrivateOwner(s: State, op: Op, x: nat)
    requires Shape(s) && Enabled(s, op) && x < |s.kinds| && s.kinds[x].Private? && SemaOk(s, x) && ThreadOk(s, s.k.run)
    requires s.kinds[x].owner < |s.pc| ==> ThreadOk(s, s.kinds[x].owner)
    requires op.Signal? ==> CondOk(s, op.c)
    ensures x < |Outer(s, op).kinds| && Outer(s, op).kinds[x].Private? && |Outer(s, op).pc| == |s.pc|
    ensures Outer(s, op).kinds[x].stage != Passed ==>
              s.kinds[x].owner < |s.pc| && Concerns(Outer(s, op).pc[s.kinds[x].owner], x)
  {
    if op.Signal? {
      assert s.conds[op.c].waiters != [] ==> s.conds[op.c].waiters[0] in s.conds[op.c].waiters;
    }
  }

  /** It is on the list it is queued on, and the thread that popped it is about to raise it. */
  lemma PrivateStage(s: State, op: Op, x: nat)
    requires Shape(s) && Enabled(s, op) && x < |s.kinds| && s.kinds[x].Private? && SemaOk(s, x) && ThreadOk(s, s.k.run)
    requires op.Sys? && op.op.OpCreate? ==> ThreadOk(s, op.op.t)
    ensures x < |Outer(s, op).kinds| && Outer(s, op).kinds[x].Private? && |Outer(s, op).pc| == |s.pc|
    ensures var stage := Outer(s, op).kinds[x].stage;
            && (stage.Queued? ==> stage.c < |Outer(s, op).conds| && x in Outer(s, op).conds[stage.c].waiters)
            && (stage.Popped? ==> stage.signaller < |s.pc| && Outer(s, op).pc[stage.signaller] == Signalling(x))
  {
    if op.Signal? && s.conds[op.c].waiters != [] {
      assert s.conds[op.c].waiters == [s.conds[op.c].waiters[0]] + s.conds[op.c].waiters[1..];
    }
  }

  lemma StepPrivate(s: State, op: Op, x: nat)
    requires Inv(s) && Enabled(s, op) && x < |s.kinds| && s.kinds[x].Private?
    ensures Shape(Step(s, op)) && x < |Step(s, op).kinds| && SemaOk(Step(s, op), x)
  {
    StepShape(s, op);
    TouchedOk(s, op);
    assert SemaOk(s, x);
    assert s.kinds[x].owner < |s.pc| ==> ThreadOk(s, s.kinds[x].owner);
    assert op.Signal? ==> CondOk(s, op.c);
    assert op.Sys? && op.op.OpCreate? ==> ThreadOk(s, op.op.t);
    var k := InnerValue(s, op, x);
    PrivateValue(s, op, x, k.semas[x].value);
    PrivateOwner(s, op, x);
    PrivateStage(s, op, x);
  }

  lemma StepOldSema(s: State, op: Op, x: nat)
    requires Inv(s) && Enabled(s, op) && x < |s.kinds|
    ensures Shape(Step(s, op)) && x < |Step(s, op).kinds| && SemaOk(Step(s, op), x)
  {
    if s.kinds[x].Private? {
      StepPrivate(s, op, x);
    } else {
      assert SemaOk(s, x);
      StepShape(s, op);
      KindStays(s, op, x);
      if s.kinds[x].OfLock? {
        StepOldLock(s, op, s.kinds[x].l);
      }
    }
  }

  lemma KindStays(s: State, op: Op, x: nat)
    requires Shape(s) && Enabled(s, op) && x < |s.kinds| && !s.kinds[x].Private?
    ensures x < |Step(s, op).kinds| && Step(s, op).kinds[x] == s.kinds[x]
  {
  }

  lemma StepNewSema(s: State, op: Op)
    requires Inv(s) && Enabled(s, op) && |Step(s, op).kinds| > |s.kinds|
    ensures |Step(s, op).kinds| == |s.kinds| + 1 && Shape(Step(s, op)) && SemaOk(Step(s, op), |s.kinds|)
  {
    StepShape(s, op);
    K.StepPlaces(s.k, Inner(s, op).value, s.k.run);
  }

  /** A private semaphore on a list is not yet anyone's to raise or to take. */
  lemma QueuedStays(s: State, op: Op, w: nat)
    requires Inv(s) && Enabled(s, op) && w < |s.kinds| && s.kinds[w].Private? && s.kinds[w].stage.Queued?
    requires op.Signal? ==> s.conds[op.c].waiters == [] || s.conds[op.c].waiters[0] != w
    ensures w < |Step(s, op).kinds| && Step(s, op).kinds[w] == s.kinds[w]
  {
    TouchedOk(s, op);
    assert SemaOk(s, w);
  }

  /** A wait joins its condition's list at the end and a signal pops the front; nothing else touches the list. */
  lemma StepList(s: State, op: Op, c: nat)
    requires Shape(s) && Enabled(s, op) && c < |s.conds|
    ensures c < |Step(s, op).conds| && Step(s, op).conds[c].l == s.conds[c].l && |Step(s, op).locks| >= |s.locks|
    ensures var q := s.conds[c].waiters;
            Step(s, op).conds[c].waiters ==
              if op == Signal(c) && q != [] then q[1..] else if op == Wait(c) then q + [|s.kinds|] else q
  {
  }

  lemma FirstIsIn(q: seq<nat>)
    ensures q != [] ==> q[0] in q
  {
  }

  lemma OrderKept(q: seq<nat>, n: nat)
    requires InOrder(q) && forall w :: w in q ==> w < n
    ensures InOrder(q + [n]) && (q != [] ==> InOrder(q[1..]))
  {
    assert forall i :: 0 <= i < |q| ==> q[i] in q;
  }

  lemma StepListed(s: State, op: Op, c: nat, w: nat)
    requires Inv(s) && Enabled(s, op) && c < |s.conds|
    requires c < |Step(s, op).conds| && w in Step(s, op).conds[c].waiters
    ensures w < |Step(s, op).kinds| && Step(s, op).kinds[w].Private? && Step(s, op).kinds[w].stage == Queued(c)
  {
    assert CondOk(s, c);
    StepList(s, op, c);
    if w in s.conds[c].waiters {
      FirstIsIn(s.conds[c].waiters);
      if op.Signal? {
        assert CondOk(s, op.c);
        FirstIsIn(s.conds[op.c].waiters);
      }
      QueuedStays(s, op, w);
    }
  }

  lemma StepConds(s: State, op: Op, c: nat)
    requires Inv(s) && Enabled(s, op) && c < |s.conds|
    ensures c < |Step(s, op).conds| && CondOk(Step(s, op), c)
  {
    assert CondOk(s, c);
    StepList(s, op, c);
    OrderKept(s.conds[c].waiters, |s.kinds|);
    var s' := Step(s, op);
    forall w | w in s'.conds[c].waiters
      ensures w < |s'.kinds| && s'.kinds[w].Private? && s'.kinds[w].stage == Queued(c)
    {
      StepListed(s, op, c, w);
    }
  }

  lemma StepKeepsInv(s: State, op: Op)
    requires Inv(s) && Enabled(s, op)
    ensures Inv(Step(s, op))
  {
    var s' := Step(s, op);
    InnerKeepsInv(s, op);
    StepShape(s, op);
    forall t | 0 <= t < |s'.pc|
      ensures ThreadOk(s', t)
    {
      StepThreads(s, op, t);
    }
    forall l | 0 <= l < |s'.locks|
      ensures LockOk(s', l)
    {
      StepLocks(s, op, l);
    }
    forall x | 0 <= x < |s'.kinds|
      ensures SemaOk(s', x)
    {
      StepSemas(s, op, x);
    }
    forall c | 0 <= c < |s'.conds|
      ensures CondOk(s', c)
    {
      if c < |s.conds| {
        StepConds(s, op, c);
      }
    }
  }

  lemma StepLocks(s: State, op: Op, l: nat)
    requires Inv(s) && Enabled(s, op) && l < |Step(s, op).locks|
    ensures Shape(Step(s, op)) && LockOk(Step(s, op), l)
  {
    if l < |s.locks| {
      StepOldLock(s, op, l);
    } else {
      StepNewLock(s);
    }
  }

  lemma StepSemas(s: State, op: Op, x: nat)
    requires Inv(s) && Enabled(s, op) && x < |Step(s, op).kinds|
    ensures Shape(Step(s, op)) && SemaOk(Step(s, op), x)
  {
    if x < |s.kinds| {
      StepOldSema(s, op, x);
    } else {
      StepNewSema(s, op);
    }
  }

  // ---------- Nothing gets stuck ----------

  /** How the running thread goes on with what it is doing. */
  function NextOp(s: State): Op
    requires Shape(s)
  {
    match s.pc[s.k.run]
    case Out => if s.k.at[s.k.run] == User then Sys(OpYield) else Sys(OpRetest)
    case Acquiring(_) => TestAgain
    case Got(_) => SetHolder
    case Releasing(_) => FinishRelease
    case Pushed(_, _) => WaitUnhold
    case Unlocking(_, _) => FinishRelease
    case Before(_, _) => WaitDown
    case Waiting(_, _) => TestAgain
    case Back(l) => Acquire(l)
    case Signalling(_) => FinishSignal
  }

  /**
   * Whatever the running thread is in the middle of, it can go on: the assertions on the way hold, and so do those of
   * the operations that it may begin. An interrupt can fall at every point outside `sema_down`.
   */
  lemma CanGoOn(s: State)
    requires Inv(s)
    ensures Enabled(s, NextOp(s))
    ensures s.k.at[s.k.run] == User ==> Enabled(s, Sys(OpYield))
    ensures InThread(s) && s.pc[s.k.run] == Out ==>
              && Enabled(s, LockInit) && Enabled(s, Sys(OpExit)) && Enabled(s, Sys(OpSleep))
              && forall l :: 0 <= l < |s.locks| ==>
                   if Holds(s, l, s.k.run) then Enabled(s, Release(l))
                   else Enabled(s, Acquire(l)) && Enabled(s, TryAcquire(l))
  {
    var me := s.k.run;
    assert ThreadOk(s, me);
    if s.pc[me].Back? || s.pc[me].Unlocking? || s.pc[me].Releasing? {
      assert LockOk(s, s.pc[me].l);
    }
    forall l | 0 <= l < |s.locks|
      ensures s.locks[l].sema < |s.k.semas|
    {
      assert LockOk(s, l);
    }
  }

  // ---------- Runs ----------

  ghost predicate Runs(s: State, ops: seq<Op>, s': State)
    requires Inv(s)
    decreases |ops|
  {
    if ops == [] then s' == s
    else Enabled(s, ops[0]) && (StepKeepsInv(s, ops[0]); Runs(Step(s, ops[0]), ops[1..], s'))
  }

  /** Just after start-up: no locks, no conditions, every thread in its own code. */
  function Started(pages: nat): (s: State)
    requires pages >= 2
    ensures Inv(s)
  {
    State.State(K.Started(pages), [], seq(pages, _ => Out), [], [])
  }

  lemma {:induction false} RunKeepsInv(s: State, ops: seq<Op>, s': State)
    requires Inv(s) && Runs(s, ops, s')
    ensures Inv(s')
    decreases |ops|
  {
    if ops != [] {
      StepKeepsInv(s, ops[0]);
      RunKeepsInv(Step(s, ops[0]), ops[1..], s');
    }
  }

  // ---------- Locks ----------

  /** The threads between a completed `sema_down` of the lock and the matching `sema_up`. */
  ghost function Region(s: State, l: nat): set<nat>
    requires l < |s.locks|
  {
    set t: nat | t < |s.pc| && (Holds(s, l, t) || AtEdge(s.pc[t], l))
  }

  lemma RegionIsInside(s: State, l: nat)
    requires Inv(s) && l < |s.locks|
    ensures Region(s, l) == match s.locks[l].inside case None => {} case Some(t) => {t}
    ensures s.locks[l].sema < |s.k.semas| &&
            s.k.semas[s.locks[l].sema].value == if s.locks[l].inside.None? then 1 else 0
    ensures s.locks[l].holder.Some? ==> s.locks[l].inside == s.locks[l].holder
  {
    assert LockOk(s, l);
    forall t: nat | t in Region(s, l)
      ensures s.locks[l].inside == Some(t)
    {
      assert ThreadOk(s, t);
    }
  }

  /**
   * Mutual exclusion in every interleaving: the lock's semaphore and the threads past it always add up to one, and a
   * holder is exactly the thread in that region.
   */
  lemma MutualExclusion(pages: nat, ops: seq<Op>, s: State, l: nat)
    requires pages >= 2 && Runs(Started(pages), ops, s) && l < |s.locks|
    ensures s.locks[l].sema < |s.k.semas| && s.k.semas[s.locks[l].sema].value + |Region(s, l)| == 1
    ensures s.locks[l].holder.Some? ==> Region(s, l) == {s.locks[l].holder.value}
  {
    RunKeepsInv(Started(pages), ops, s);
    RegionIsInside(s, l);
  }

  /**
   * A holder stays until it gives the lock up itself, and only a thread past the semaphore becomes one. A thread that
   * exits does not give it up: the lock then stays with its page, and with the next thread on that page.
   */
  lemma HolderChanges(s: State, op: Op, l: nat)
    requires Inv(s) && Enabled(s, op) && l < |s.locks|
    ensures l < |Step(s, op).locks|
    ensures var before, after := s.locks[l].holder, Step(s, op).locks[l].holder;
            before != after ==> match before
                                case Some(t) => t == s.k.run && after == None && (op == Release(l) || op == WaitUnhold)
                                case None => after == Some(s.k.run) && op == SetHolder && s.pc[s.k.run] == Got(l)
  {
    TouchedOk(s, op);
    assert LockOk(s, l);
  }

  /** So when a holder exits and a thread is made on its page, that thread holds the lock without having acquired it. */
  lemma LockInherited(s: State, l: nat)
    requires Inv(s) && Enabled(s, Sys(OpExit)) && Holds(s, l, s.k.run) && s.k.run != s.k.first
    ensures var t, s1 := s.k.run, Step(s, Sys(OpExit));
            && Inv(s1) && Holds(s1, l, t) && s1.k.run != t
            && (Enabled(s1, Sys(OpCreate(t))) <==> s1.pc[s1.k.run].Out? && InThread(s1))
            && (Enabled(s1, Sys(OpCreate(t))) ==>
                  var s2 := Step(s1, Sys(OpCreate(t)));
                  Inv(s2) && Holds(s2, l, t) && t in s2.k.ready && s2.pc[t] == Out)
  {
    StepKeepsInv(s, Sys(OpExit));
    var t, s1 := s.k.run, Step(s, Sys(OpExit));
    assert LockOk(s, l);
    K.StepFrees(s.k, OpExit, t);
    if Enabled(s1, Sys(OpCreate(t))) {
      StepKeepsInv(s1, Sys(OpCreate(t)));
    }
  }

  // ---------- Condition variables ----------

  /** w is on the list of some condition. */
  ghost predicate Listed(s: State, w: nat) {
    exists c :: 0 <= c < |s.conds| && w in s.conds[c].waiters
  }

  lemma ListedIsQueued(s: State, w: nat)
    requires Inv(s) && w < |s.kinds| && s.kinds[w].Private?
    ensures Listed(s, w) <==> s.kinds[w].stage.Queued?
  {
    assert SemaOk(s, w);
    forall c | 0 <= c < |s.conds| && w in s.conds[c].waiters
      ensures s.kinds[w].stage == Queued(c)
    {
      assert CondOk(s, c);
    }
  }

  /** A signal that finds a waiter takes the one whose wait began first off its list, and nobody else. */
  lemma SignalTakesLongest(s: State, c: nat, w: nat)
    requires Inv(s) && Enabled(s, Signal(c)) && w in s.conds[c].waiters
    ensures var s' := Step(s, Signal(c));
            && Inv(s') && s'.pc[s.k.run] == Signalling(s.conds[c].waiters[0])
            && s.conds[c].waiters[0] <= w
            && (Listed(s', w) <==> w != s.conds[c].waiters[0])
  {
    assert CondOk(s, c);
    StepKeepsInv(s, Signal(c));
    ListedIsQueued(Step(s, Signal(c)), w);
  }

  /** A thread asleep in, or woken in, the semaphore of a wait is that wait's own thread. */
  lemma OnlyOwnerSleeps(s: State, w: nat, u: nat)
    requires Inv(s) && w < |s.kinds| && s.kinds[w].Private? && u < |s.pc| && s.k.at[u] == Retest(w)
    ensures u == s.kinds[w].owner && Concerns(s.pc[u], w)
  {
    forall l | 0 <= l < |s.locks|
      ensures s.locks[l].sema < |s.kinds| && s.kinds[s.locks[l].sema].OfLock?
    {
      assert LockOk(s, l);
    }
    assert ThreadOk(s, u);
  }

  /** A raised private semaphore stays at one with nobody asleep in it until its owner takes it. */
  lemma GivenIsKept(s: State, w: nat)
    requires Inv(s) && w < |s.kinds| && s.kinds[w].Private? && s.kinds[w].stage == Given
    ensures w < |s.k.semas| && s.k.semas[w] == Sema(1, [])
  {
    assert SemaOk(s, w);
    assert K.WaitersOk(s.k, w) && K.NotStranded(s.k, w);
    forall u: nat | u in K.Woken(s.k, w) || u in s.k.semas[w].waiters
      ensures u == s.kinds[w].owner
    {
      OnlyOwnerSleeps(s, w, u);
    }
    FirstIsIn(s.k.semas[w].waiters);
    var woken := K.Woken(s.k, w);
    assert s.kinds[w].owner in s.k.semas[w].waiters ==> woken == {};
  }

  /**
   * No signal is lost: once a waiter's semaphore has been popped and raised, the waiter is not asleep, and its next
   * test succeeds, whether the signal came before or after it went to sleep.
   */
  lemma SignalIsKept(s: State, t: nat, w: nat)
    requires Inv(s) && t < |s.pc| && Concerns(s.pc[t], w)
    requires !Listed(s, w) && forall u :: 0 <= u < |s.pc| ==> s.pc[u] != Signalling(w)
    ensures w < |s.k.semas| && s.k.semas[w] == Sema(1, [])
    ensures s.pc[t].Waiting? ==> t in s.k.ready || t == s.k.run
  {
    assert ThreadOk(s, t) && SemaOk(s, w);
    ListedIsQueued(s, w);
    assert s.kinds[w].stage == Given;
    GivenIsKept(s, w);
    assert K.WaitersOk(s.k, w);
  }

  /** The assertion of `cond_signal` is all that it needs. */
  lemma SignalEnabled(s: State, c: nat)
    requires Inv(s) && c < |s.conds|
    ensures Enabled(s, Signal(c)) <==> InThread(s) && s.pc[s.k.run].Out? && Holds(s, s.conds[c].l, s.k.run)
    ensures s.conds[c].waiters != [] ==> s.conds[c].waiters[0] < |s.kinds| && s.kinds[s.conds[c].waiters[0]].Private?
  {
    assert CondOk(s, c);
    FirstIsIn(s.conds[c].waiters);
  }

  /** A signal popped. */
  lemma SignalPops(s: State, c: nat)
    requires Shape(s) && Enabled(s, Signal(c)) && s.conds[c].waiters != []
    ensures var w, s' := s.conds[c].waiters[0], Step(s, Signal(c));
            && s'.k == s.k && s'.locks == s.locks && s'.pc == s.pc[s.k.run := Signalling(w)]
            && s'.kinds == WithStage(s.kinds, w, Popped(s.k.run))
            && s'.conds == s.conds[c := s.conds[c].(waiters := s.conds[c].waiters[1..])]
  {
  }

  /** Its semaphore raised. */
  lemma SignalRaises(s: State)
    requires Shape(s) && Enabled(s, FinishSignal)
    ensures var s' := Step(s, FinishSignal);
            && s'.locks == s.locks && s'.conds == s.conds && s'.pc == s.pc[s.k.run := Out]
            && s'.kinds == WithStage(s.kinds, s.pc[s.k.run].w, Given)
            && s'.k.run == s.k.run && s'.k.at == s.k.at && s'.k.idle == s.k.idle
  {
  }

  /** A whole signal without an interrupt in it takes the front off the list, and the signaller can go on. */
  lemma OneSignal(s: State, c: nat)
    requires Inv(s) && Enabled(s, Signal(c)) && s.conds[c].waiters != []
    ensures var w, s1 := s.conds[c].waiters[0], Step(s, Signal(c));
            && Inv(s1) && Enabled(s1, FinishSignal) && s1.pc[s.k.run] == Signalling(w)
            && var s2 := Step(s1, FinishSignal);
            && Inv(s2) && s2.k.run == s.k.run && Enabled(s2, Signal(c)) && s2.kinds == WithStage(s.kinds, w, Given)
            && s2.conds[c].waiters == s.conds[c].waiters[1..]
  {
    StepKeepsInv(s, Signal(c));
    SignalPops(s, c);
    var s1 := Step(s, Signal(c));
    StepKeepsInv(s1, FinishSignal);
    SignalRaises(s1);
    SignalEnabled(Step(s1, FinishSignal), c);
  }

  /** When a wait is over, nothing refers to its semaphore, which lived on the waiter's stack. */
  lemma WaitIsOver(s: State, w: nat)
    requires Inv(s) && w < |s.kinds| && s.kinds[w].Private?
    requires s.kinds[w].owner < |s.pc| ==> !Concerns(s.pc[s.kinds[w].owner], w)
    ensures !Listed(s, w) && forall u :: 0 <= u < |s.pc| ==> s.pc[u] != Signalling(w) && s.k.at[u] != Retest(w)
  {
    assert SemaOk(s, w);
    ListedIsQueued(s, w);
    forall u | 0 <= u < |s.pc|
      ensures s.pc[u] != Signalling(w) && s.k.at[u] != Retest(w)
    {
      assert ThreadOk(s, u);
      if s.k.at[u] == Retest(w) {
        OnlyOwnerSleeps(s, w, u);
      }
    }
  }

  // ---------- Counting signals and waits ----------

  /** The step is a signal that finds a waiter. */
  predicate Effective(s: State, op: Op)
    requires Shape(s) && Enabled(s, op)
  {
    op.Signal? && s.conds[op.c].waiters != []
  }

  /** The step takes a wait past its private semaphore. */
  predicate Passes(s: State, op: Op)
    requires Shape(s) && Enabled(s, op)
  {
    var me := s.k.run;
    (op.WaitDown? && s.k.semas[s.pc[me].w].value > 0) ||
    (op.TestAgain? && s.pc[me].Waiting? && s.k.semas[s.k.at[me].sema].value > 0)
  }

  function SignalCount(s: State, ops: seq<Op>): nat
    requires Inv(s)
    decreases |ops|
  {
    if ops == [] || !Enabled(s, ops[0]) then 0
    else
      StepKeepsInv(s, ops[0]);
      (if Effective(s, ops[0]) then 1 else 0) + SignalCount(Step(s, ops[0]), ops[1..])
  }

  function PassCount(s: State, ops: seq<Op>): nat
    requires Inv(s)
    decreases |ops|
  {
    if ops == [] || !Enabled(s, ops[0]) then 0
    else
      StepKeepsInv(s, ops[0]);
      (if Passes(s, ops[0]) then 1 else 0) + PassCount(Step(s, ops[0]), ops[1..])
  }

  /** The waits that were signalled, and those that got past their private semaphore. */
  ghost function Signalled(kinds: seq<Kind>): set<nat> {
    set w: nat | w < |kinds| && kinds[w].Private? && !kinds[w].stage.Queued?
  }

  ghost function Past(kinds: seq<Kind>): set<nat> {
    set w: nat | w < |kinds| && kinds[w].Private? && kinds[w].stage == Passed
  }

  /** The private semaphore that a step moves to another stage, and that stage. */
  function Moved(s: State, op: Op): Option<(nat, Stage)>
    requires Shape(s) && Enabled(s, op)
  {
    var me := s.k.run;
    if Effective(s, op) then Some((s.conds[op.c].waiters[0], Popped(me)))
    else if op.FinishSignal? then Some((s.pc[me].w, Given))
    else if Passes(s, op) then Some((s.pc[me].w, Passed))
    else None
  }

  /** What a moved semaphore was before: popped off a list, raised after popping, taken after raising. */
  lemma MovedFrom(s: State, op: Op)
    requires Inv(s) && Enabled(s, op) && Moved(s, op).Some?
    ensures var (w, stage) := Moved(s, op).value;
            && w < |s.kinds| && s.kinds[w].Private?
            && (stage.Popped? <==> Effective(s, op)) && (stage.Passed? <==> Passes(s, op))
            && (stage.Popped? <==> s.kinds[w].stage.Queued?) && s.kinds[w].stage != Passed
  {
    TouchedOk(s, op);
    if op.Signal? {
      assert CondOk(s, op.c);
      FirstIsIn(s.conds[op.c].waiters);
    } else {
      assert SemaOk(s, s.pc[s.k.run].w);
    }
  }

  /** kinds' is kinds with the stage of at most one private semaphore changed, and at most one new kind. */
  ghost predicate Moves(kinds: seq<Kind>, kinds': seq<Kind>, moved: Option<(nat, Stage)>) {
    && |kinds| <= |kinds'| <= |kinds| + 1
    && (forall w: nat :: w < |kinds| ==> (kinds'[w].Private? <==> kinds[w].Private?))
    && (forall w: nat :: w < |kinds| && kinds[w].Private? ==>
          kinds'[w].stage == if moved.Some? && moved.value.0 == w then moved.value.1 else kinds[w].stage)
    && (|kinds| < |kinds'| && kinds'[|kinds|].Private? ==> kinds'[|kinds|].stage.Queued?)
  }

  lemma MovesCount(kinds: seq<Kind>, kinds': seq<Kind>, w: nat, stage: Stage)
    requires Moves(kinds, kinds', Some((w, stage))) && w < |kinds| && kinds[w].Private?
    requires !stage.Queued? && kinds[w].stage != Passed && (stage.Popped? <==> kinds[w].stage.Queued?)
    ensures |Signalled(kinds')| == |Signalled(kinds)| + if stage.Popped? then 1 else 0
    ensures |Past(kinds')| == |Past(kinds)| + if stage.Passed? then 1 else 0
  {
    var before, past := Signalled(kinds), Past(kinds);
    assert w in before <==> !stage.Popped?;
    assert w !in past;
    if stage.Popped? {
      assert Signalled(kinds') == before + {w};
    } else {
      assert Signalled(kinds') == before;
    }
    if stage.Passed? {
      assert Past(kinds') == past + {w};
    } else {
      assert Past(kinds') == past;
    }
  }

  lemma StageAfter(s: State, op: Op, w: nat)
    requires Shape(s) && Enabled(s, op) && ThreadOk(s, s.k.run) && w < |s.kinds|
    ensures w < |Outer(s, op).kinds| && (Outer(s, op).kinds[w].Private? <==> s.kinds[w].Private?)
    ensures s.kinds[w].Private? ==>
              Outer(s, op).kinds[w].stage ==
                if Moved(s, op).Some? && Moved(s, op).value.0 == w then Moved(s, op).value.1 else s.kinds[w].stage
  {
  }

  lemma NewKind(s: State, op: Op)
    requires Shape(s) && Enabled(s, op)
    ensures |s.kinds| <= |Outer(s, op).kinds| <= |s.kinds| + 1
    ensures |s.kinds| < |Outer(s, op).kinds| && Outer(s, op).kinds[|s.kinds|].Private? ==>
              Outer(s, op).kinds[|s.kinds|].stage.Queued?
  {
  }

  lemma StepStages(s: State, op: Op)
    requires Inv(s) && Enabled(s, op)
    ensures Moves(s.kinds, Step(s, op).kinds, Moved(s, op))
  {
    TouchedOk(s, op);
    NewKind(s, op);
    forall w: nat | w < |s.kinds|
      ensures Outer(s, op).kinds[w].Private? <==> s.kinds[w].Private?
      ensures s.kinds[w].Private? ==>
                Outer(s, op).kinds[w].stage ==
                  if Moved(s, op).Some? && Moved(s, op).value.0 == w then Moved(s, op).value.1 else s.kinds[w].stage
    {
      StageAfter(s, op, w);
    }
  }

  lemma StepMoves(s: State, op: Op)
    requires Inv(s) && Enabled(s, op)
    ensures |Signalled(Step(s, op).kinds)| == |Signalled(s.kinds)| + if Effective(s, op) then 1 else 0
    ensures |Past(Step(s, op).kinds)| == |Past(s.kinds)| + if Passes(s, op) then 1 else 0
  {
    var kinds' := Step(s, op).kinds;
    StepStages(s, op);
    if Moved(s, op).Some? {
      MovedFrom(s, op);
      MovesCount(s.kinds, kinds', Moved(s, op).value.0, Moved(s, op).value.1);
    } else {
      assert Signalled(kinds') == Signalled(s.kinds);
      assert Past(kinds') == Past(s.kinds);
    }
  }

  lemma {:induction false} RunCounts(s: State, ops: seq<Op>, s': State)
    requires Inv(s) && Runs(s, ops, s')
    ensures |Signalled(s'.kinds)| == |Signalled(s.kinds)| + SignalCount(s, ops)
    ensures |Past(s'.kinds)| == |Past(s.kinds)| + PassCount(s, ops)
    decreases |ops|
  {
    if ops != [] {
      StepKeepsInv(s, ops[0]);
      StepMoves(s, ops[0]);
      RunCounts(Step(s, ops[0]), ops[1..], s');
    }
  }

  lemma SubsetCount(a: set<nat>, b: set<nat>)
    requires a <= b
    ensures |a| <= |b|
  {
    assert b == a + (b - a);
  }

  /** In every run, waits that get past their private semaphore never outnumber the signals that found a waiter. */
  lemma WaitsNeedSignals(pages: nat, ops: seq<Op>, s: State)
    requires pages >= 2 && Runs(Started(pages), ops, s)
    ensures PassCount(Started(pages), ops) <= SignalCount(Started(pages), ops)
  {
    RunCounts(Started(pages), ops, s);
    SubsetCount(Past(s.kinds), Signalled(s.kinds));
  }

  // ---------- Acquiring and waiting end with the lock held ----------

  /** t is inside `lock_acquire` or `cond_wait` for lock l, at whatever point. */
  predicate Awaiting(s: State, t: nat, l: nat) {
    t < |s.pc| &&
    match s.pc[t]
    case Acquiring(k) => k == l
    case Got(k) => k == l
    case Pushed(k, _) => k == l
    case Unlocking(k, _) => k == l
    case Before(k, _) => k == l
    case Waiting(k, _) => k == l
    case Back(k) => k == l
    case _ => false
  }

  /** t is in code of its own and holds l. */
  predicate Returned(s: State, t: nat, l: nat) {
    t < |s.pc| && s.pc[t] == Out && Holds(s, l, t)
  }

  /** Both operations begin so: an acquire with the semaphore, a wait with the lock in hand. */
  lemma AwaitBegins(s: State, op: Op)
    requires Inv(s) && Enabled(s, op)
    ensures op.Acquire? ==> Awaiting(Step(s, op), s.k.run, op.l)
    ensures op.Wait? ==> Awaiting(Step(s, op), s.k.run, s.conds[op.c].l) && Holds(s, s.conds[op.c].l, s.k.run)
    ensures op.TryAcquire? && s.k.semas[s.locks[op.l].sema].value > 0 ==> Awaiting(Step(s, op), s.k.run, op.l)
  {
    TouchedOk(s, op);
  }

  lemma AwaitSelf(s: State, op: Op, l: nat)
    requires Shape(s) && Enabled(s, op) && ThreadOk(s, s.k.run) && Awaiting(s, s.k.run, l)
    requires LockOf(s, op).Some? ==> LockOf(s, op).value < |s.locks|
    ensures Awaiting(Outer(s, op), s.k.run, l) || Returned(Outer(s, op), s.k.run, l)
  {
  }

  /** Whatever step is made, t goes on awaiting l, or it returns and holds l. */
  lemma AwaitGoesOn(s: State, op: Op, t: nat, l: nat)
    requires Inv(s) && Enabled(s, op) && Awaiting(s, t, l)
    ensures Awaiting(Step(s, op), t, l) || (t == s.k.run && Returned(Step(s, op), t, l))
  {
    assert ThreadOk(s, t);
    TouchedOk(s, op);
    if t == s.k.run {
      AwaitSelf(s, op, l);
    } else {
      OtherPc(s, op, t);
    }
  }

  /** After the signal a waiter can do nothing to locks and conditions but take its lock again. */
  lemma BackAcquires(s: State, op: Op, l: nat)
    requires Inv(s) && Enabled(s, op) && s.pc[s.k.run] == Back(l)
    ensures op == Acquire(l) || op.Sys?
  {
    assert ThreadOk(s, s.k.run);
  }

  /** No thread gets back to its own code by any step unless it holds the lock, has released it, or has signalled. */
  lemma OnlyHoldersReturn(s: State, op: Op, t: nat)
    requires Inv(s) && Enabled(s, op) && t < |s.pc| && s.pc[t] != Out
    requires t < |Step(s, op).pc| && Step(s, op).pc[t] == Out
    ensures (exists l :: Awaiting(s, t, l) && Returned(Step(s, op), t, l)) || s.pc[t].Releasing? || s.pc[t].Signalling?
  {
    if !s.pc[t].Releasing? && !s.pc[t].Signalling? {
      AwaitGoesOn(s, op, t, s.pc[t].l);
    }
  }

  lemma FirstStep(s: State, ops: seq<Op>, n: nat, u: State)
    requires Inv(s) && 0 < n <= |ops| && Enabled(s, ops[0]) && Inv(Step(s, ops[0]))
    requires Runs(Step(s, ops[0]), ops[1..][..n - 1], u)
    ensures Runs(s, ops[..n], u)
  {
    assert ops[..n][0] == ops[0] && ops[..n][1..] == ops[1..][..n - 1];
  }

  /** In the states before the n-th step t awaits l. */
  ghost predicate AwaitsUntil(s: State, ops: seq<Op>, n: nat, t: nat, l: nat)
    requires Inv(s) && n <= |ops|
  {
    forall m, v :: 0 <= m < n && Runs(s, ops[..m], v) ==> Awaiting(v, t, l)
  }

  lemma FirstAwaits(s: State, ops: seq<Op>, n: nat, t: nat, l: nat)
    requires Inv(s) && 0 < n <= |ops| && Enabled(s, ops[0]) && Inv(Step(s, ops[0])) && Awaiting(s, t, l)
    requires AwaitsUntil(Step(s, ops[0]), ops[1..], n - 1, t, l)
    ensures AwaitsUntil(s, ops, n, t, l)
  {
    forall m, v | 0 <= m < n && Runs(s, ops[..m], v)
      ensures Awaiting(v, t, l)
    {
      if m > 0 {
        assert ops[..m][0] == ops[0] && ops[..m][1..] == ops[1..][..m - 1];
      }
    }
  }

  /**
   * Over every run, whoever acquires a lock or waits on a condition holds the lock at the first moment at which it is
   * back in its own code. Before n it awaits the lock; at n it holds it, unless the run ends first.
   */
  lemma {:induction false} ReturnsHolding(s: State, ops: seq<Op>, s': State, t: nat, l: nat) returns (n: nat, u: State)
    requires Inv(s) && Runs(s, ops, s') && Awaiting(s, t, l)
    ensures n <= |ops| && Runs(s, ops[..n], u) && Inv(u)
    ensures Returned(u, t, l) || (n == |ops| && u == s' && Awaiting(s', t, l))
    ensures AwaitsUntil(s, ops, n, t, l)
    decreases |ops|
  {
    n, u := 0, s;
    if ops != [] {
      var v := Step(s, ops[0]);
      StepKeepsInv(s, ops[0]);
      AwaitGoesOn(s, ops[0], t, l);
      if Awaiting(v, t, l) {
        n, u := ReturnsHolding(v, ops[1..], s', t, l);
      } else {
        u := v;
      }
      n := n + 1;
      FirstStep(s, ops, n, u);
      FirstAwaits(s, ops, n, t, l);
    }
  }

  // ---------- Broadcast ----------

  /** Nobody but the holder of a condition's lock changes its list, so no two operations on it ever interleave. */
  lemma HolderGuardsList(s: State, op: Op, c: nat)
    requires Inv(s) && Enabled(s, op) && c < |s.conds|
    requires c < |Step(s, op).conds| && Step(s, op).conds[c].waiters != s.conds[c].waiters
    ensures Holds(s, s.conds[c].l, s.k.run)
  {
    StepList(s, op, c);
  }

  /** t holds lock l and is not inside a wait that is about to give it up. */
  predicate Keeps(s: State, l: nat, t: nat) {
    Holds(s, l, t) && t < |s.pc| && !(s.pc[t].Pushed? && s.pc[t].l == l)
  }

  /** The step does not give up lock l: no release of l, no wait on a condition of l. */
  predicate NotGivingUp(s: State, op: Op, l: nat) {
    op != Release(l) && !(op.Wait? && op.c < |s.conds| && s.conds[op.c].l == l)
  }

  lemma StepKeepsLock(s: State, op: Op, l: nat, t: nat)
    requires Shape(s) && Enabled(s, op) && Keeps(s, l, t) && ThreadOk(s, s.k.run) && LockOk(s, l) && ThreadOk(s, t)
    requires t == s.k.run ==> NotGivingUp(s, op, l)
    ensures Keeps(Step(s, op), l, t)
  {
  }

  function SignalsOf(ops: seq<Op>, c: nat): nat {
    if ops == [] then 0 else (if ops[0] == Signal(c) then 1 else 0) + SignalsOf(ops[1..], c)
  }

  /** In this run t never gives up lock l by its own steps. */
  ghost predicate Retained(s: State, ops: seq<Op>, l: nat, t: nat)
    requires Inv(s)
    decreases |ops|
  {
    ops == [] || !Enabled(s, ops[0]) ||
    ((s.k.run == t ==> NotGivingUp(s, ops[0], l)) &&
        (StepKeepsInv(s, ops[0]); Retained(Step(s, ops[0]), ops[1..], l, t)))
  }

  lemma HeldStep(s: State, op: Op, c: nat, t: nat)
    requires Inv(s) && Enabled(s, op) && c < |s.conds| && Keeps(s, s.conds[c].l, t)
    requires s.k.run == t ==> NotGivingUp(s, op, s.conds[c].l)
    ensures var s' := Step(s, op);
            && Inv(s') && c < |s'.conds| && s'.conds[c].l == s.conds[c].l && Keeps(s', s.conds[c].l, t)
            && s'.conds[c].waiters ==
                 if op == Signal(c) && s.conds[c].waiters != [] then s.conds[c].waiters[1..] else s.conds[c].waiters
  {
    StepKeepsInv(s, op);
    assert ThreadOk(s, s.k.run) && LockOk(s, s.conds[c].l) && ThreadOk(s, t);
    StepKeepsLock(s, op, s.conds[c].l, t);
    StepList(s, op, c);
  }

  /**
   * While one thread keeps the lock, whoever else runs in between, the condition's list only loses its front, once with
   * each signal. So the loop of `cond_broadcast` releases exactly the waiters it found, in order, and ends.
   */
  lemma {:induction false} BroadcastDrains(s: State, ops: seq<Op>, s': State, c: nat, t: nat)
    requires Inv(s) && Runs(s, ops, s') && c < |s.conds| && Keeps(s, s.conds[c].l, t) &&
             Retained(s, ops, s.conds[c].l, t)
    ensures c < |s'.conds| && Keeps(s', s.conds[c].l, t)
    ensures var q := s.conds[c].waiters;
            s'.conds[c].waiters == if SignalsOf(ops, c) < |q| then q[SignalsOf(ops, c)..] else []
    decreases |ops|
  {
    if ops != [] {
      HeldStep(s, ops[0], c, t);
      BroadcastDrains(Step(s, ops[0]), ops[1..], s', c, t);
    }
  }
}
