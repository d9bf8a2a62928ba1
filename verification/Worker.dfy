/** The kick/stop protocol of Worker, one atomic load, store or compare-exchange a step.

    Any number of controller threads call start, stop and kick; each spawned worker thread runs the body of
    the lambda in start, whose work() may call wait_for_kick any number of times and return or throw at any
    point outside it. Steps of all threads interleave freely. */
module Worker {
  import opened Options

  datatype State = Stopped | Starting | Started | KickWaiting | Stopping

  /** Where a worker thread is: each constructor names its next step. */
  datatype ThreadPc =
    | SetId         // id_.store
    | Enter         // state_: Starting -> Started
    | InWork        // inside work(), outside wait_for_kick
    | TakeKick      // kicked_: true -> false
    | LoadStop1     // is_stopping in the loop: stop_requested_
    | LoadSignal1   //                          Ossignals::signalled
    | Park          // state_: Started -> KickWaiting
    | Sleep         // timed wait on kicked_cv_, or yield
    | LoadStop2     // is_stopping after the loop
    | LoadSignal2
    | StoreStopping // state_.store, then return false
    | StoreStarted  // state_.store, then return true
    | Leave         // state_.store(Stopped)
    | ClearId       // id_.store(0)
    | Done

  /** `took`: the current wait_for_kick call has consumed a kick. `begunFlagged`: a stop had been requested
      or signalled when that call began. `creator`: the controller whose start created the thread. All three
      only observe. */
  datatype Thread = Thread(pc: ThreadPc, took: bool, begunFlagged: bool, creator: nat)

  datatype ControllerPc =
    | Idle
    | StartCas(kicked: bool)   // state_: Stopped -> Starting
    | StartKick(kicked: bool)  // kicked_.store(kicked)
    | StartId                  // id_.store(0)
    | Create                   // make_unique<thread>: the new thread runs from here on
    | Assign(thread: nat)      // thread_ = the new thread
    | StopCas(wait: bool)      // stop_requested_: false -> true
    | StopKick(wait: bool)     // kick() inside stop
    | StopLoad(wait: bool)     // if (wait && thread_)
    | Join                     // thread_->join()
    | Reset                    // thread_.reset()
    | KickStore                // kicked_.store(true)

  /** thread_: which thread it owns, and whether that thread still has to be joined. */
  datatype Handle = Handle(thread: nat, joinable: bool)

  datatype KickEvent = Kicked | Consumed | StartStored(kicked: bool)

  datatype System = System(
    state: State, kicked: bool, stopRequested: bool, signalled: bool,
    handle: Option<Handle>, threads: seq<Thread>, controllers: seq<ControllerPc>,
    crashed: bool,             // std::terminate has been called
    launcher: Option<nat>,     // observers from here on: the controller between start's CAS and the creation,
    log: seq<KickEvent>,       // every write of kicked_,
    stopStores: nat,           // successful compare-exchanges of stop_requested_,
    trueReturns: nat)          // and wait_for_kick calls that returned true

  datatype Call = CallStart(kicked: bool) | CallStop(wait: bool) | CallKick

  /** Who takes the next step. A controller that is idle begins a call; a worker in work() either calls
      wait_for_kick or leaves, normally or by exception. */
  datatype Action = Begin(c: nat, call: Call) | Control(c: nat) | Run(t: nat) | CallWait(t: nat) | LeaveWork(t: nat) | Signal

  predicate Flagged(s: System) {
    s.stopRequested || s.signalled
  }

  ghost predicate Enabled(s: System, a: Action) {
    && !s.crashed
    && match a
       case Begin(c, _) => c < |s.controllers| && s.controllers[c] == Idle
       case Control(c) =>
         && c < |s.controllers| && s.controllers[c] != Idle
         // join blocks until the thread has finished
         && (s.controllers[c] == Join && s.handle.Some? && s.handle.value.joinable && s.handle.value.thread < |s.threads| ==>
               s.threads[s.handle.value.thread].pc == Done)
       case Run(t) => t < |s.threads| && s.threads[t].pc != InWork && s.threads[t].pc != Done
       case CallWait(t) => t < |s.threads| && s.threads[t].pc == InWork
       case LeaveWork(t) => t < |s.threads| && s.threads[t].pc == InWork
       case Signal => true
  }

  ghost function At(s: System, c: nat, pc: ControllerPc): System
    requires c < |s.controllers|
  {
    s.(controllers := s.controllers[c := pc])
  }

  ghost function Go(s: System, t: nat, pc: ThreadPc): System
    requires t < |s.threads|
  {
    s.(threads := s.threads[t := s.threads[t].(pc := pc)])
  }

  ghost function StoreKick(s: System, e: KickEvent): System {
    s.(kicked := Sets(e), log := s.log + [e])
  }

  /** The value an event leaves in kicked_. */
  predicate Sets(e: KickEvent) {
    e == Kicked || e == StartStored(true)
  }

  ghost function ControlStep(s: System, c: nat): System
    requires c < |s.controllers|
  {
    match s.controllers[c]
    case Idle => s
    case StartCas(kicked) =>
      if s.state == Stopped then At(s.(state := Starting, launcher := Some(c)), c, StartKick(kicked)) else At(s, c, Idle)
    case StartKick(kicked) => At(StoreKick(s, StartStored(kicked)), c, StartId)
    case StartId => At(s, c, Create)
    case Create =>
      At(s.(threads := s.threads + [Thread(SetId, false, false, c)], launcher := None), c, Assign(|s.threads|))
    case Assign(t) =>
      // destroying the joinable std::thread that thread_ held terminates the program
      if s.handle.Some? && s.handle.value.joinable then s.(crashed := true)
      else At(s.(handle := Some(Handle(t, true))), c, Idle)
    case StopCas(wait) =>
      if !s.stopRequested then At(s.(stopRequested := true, stopStores := s.stopStores + 1), c, StopKick(wait))
      else At(s, c, StopLoad(wait))
    case StopKick(wait) => At(StoreKick(s, Kicked), c, StopLoad(wait))
    case StopLoad(wait) => At(s, c, if wait && s.handle.Some? then Join else Idle)
    case Join =>
      // no thread, or one joined already: join throws inside noexcept
      if s.handle.None? || !s.handle.value.joinable then s.(crashed := true)
      else At(s.(handle := Some(s.handle.value.(joinable := false))), c, Reset)
    case Reset =>
      if s.handle.Some? && s.handle.value.joinable then s.(crashed := true)
      else At(s.(handle := None), c, Idle)
    case KickStore => At(StoreKick(s, Kicked), c, Idle)
  }

  ghost function ThreadStep(s: System, t: nat): System
    requires t < |s.threads|
  {
    match s.threads[t].pc
    case SetId => Go(s, t, Enter)
    case Enter => if s.state == Starting then Go(s.(state := Started), t, InWork) else Go(s, t, Leave)
    case InWork => s
    case TakeKick =>
      if s.kicked then
        StoreKick(s, Consumed).(threads := s.threads[t := s.threads[t].(pc := LoadStop2, took := true)])
      else Go(s, t, LoadStop1)
    case LoadStop1 => Go(s, t, if s.stopRequested then LoadStop2 else LoadSignal1)
    case LoadSignal1 => Go(s, t, if s.signalled then LoadStop2 else Park)
    case Park => Go(if s.state == Started then s.(state := KickWaiting) else s, t, Sleep)
    case Sleep => Go(s, t, TakeKick)
    case LoadStop2 => Go(s, t, if s.stopRequested then StoreStopping else LoadSignal2)
    case LoadSignal2 => Go(s, t, if s.signalled then StoreStopping else StoreStarted)
    case StoreStopping =>
      s.(state := Stopping, threads := s.threads[t := s.threads[t].(pc := InWork, took := false, begunFlagged := false)])
    case StoreStarted =>
      s.(state := Started, trueReturns := s.trueReturns + 1, threads := s.threads[t := s.threads[t].(pc := InWork, took := false, begunFlagged := false)])
    case Leave => Go(s.(state := Stopped), t, ClearId)
    case ClearId => Go(s, t, Done)
    case Done => s
  }

  ghost function Step(s: System, a: Action): System
    requires Enabled(s, a)
  {
    match a
    case Begin(c, call) =>
      At(s, c, match call case CallStart(kicked) => StartCas(kicked) case CallStop(wait) => StopCas(wait) case CallKick => KickStore)
    case Control(c) => ControlStep(s, c)
    case Run(t) => ThreadStep(s, t)
    case CallWait(t) => s.(threads := s.threads[t := s.threads[t].(pc := TakeKick, took := false, begunFlagged := Flagged(s))])
    case LeaveWork(t) => Go(s, t, Leave)
    case Signal => s.(signalled := true)
  }

  /** A freshly constructed Worker and `controllers` other threads. */
  ghost function Initially(controllers: nat): System {
    System(Stopped, false, false, false, None, [], seq(controllers, _ => Idle), false, None, [], 0, 0)
  }

  ghost predicate IsRun(s: System, actions: seq<Action>)
    decreases |actions|
  {
    actions != [] ==> Enabled(s, actions[0]) && IsRun(Step(s, actions[0]), actions[1..])
  }

  ghost function After(s: System, actions: seq<Action>): System
    requires IsRun(s, actions)
    decreases |actions|
  {
    if actions == [] then s else After(Step(s, actions[0]), actions[1..])
  }

  // ---- the invariant ----

  predicate InWait(pc: ThreadPc) {
    pc in {TakeKick, LoadStop1, LoadSignal1, Park, Sleep, LoadStop2, LoadSignal2, StoreStopping, StoreStarted}
  }

  /** Between entering the thread body and storing Stopped. */
  predicate Alive(pc: ThreadPc) {
    pc != ClearId && pc != Done
  }

  /** Inside work(), including inside a wait_for_kick that work() called. */
  predicate Working(pc: ThreadPc) {
    pc == InWork || InWait(pc)
  }

  /** Between start's compare-exchange and the creation of the thread. */
  predicate Launching(pc: ControllerPc) {
    pc.StartKick? || pc == StartId || pc == Create
  }

  /** Thread t has to be joined and thread_ owns it, or the start that created it is about to assign it. */
  ghost predicate Accounted(s: System, t: nat)
    requires t < |s.threads|
  {
    || s.handle == Some(Handle(t, true))
    || (s.threads[t].creator < |s.controllers| && s.controllers[s.threads[t].creator] == Assign(t))
  }

  ghost predicate ThreadOk(s: System, t: nat)
    requires t < |s.threads|
  {
    var th := s.threads[t];
    && (th.pc != Done ==> Accounted(s, t))
    && (Alive(th.pc) ==> t == |s.threads| - 1 && s.launcher == None && s.state != Stopped)
    && (th.pc == SetId || th.pc == Enter ==> s.state == Starting)
    && (th.pc == InWork || th.pc == Leave ==> s.state == Started || s.state == Stopping)
    && (InWait(th.pc) ==> s.state != Starting)
    && WaitOk(s, th)
  }

  /** What holds inside wait_for_kick. */
  ghost predicate WaitOk(s: System, th: Thread) {
    && (th.took ==> th.pc in {LoadStop2, LoadSignal2, StoreStopping, StoreStarted})
    && (th.pc == StoreStarted ==> th.took && !th.begunFlagged && s.state != Stopping)
    && (th.pc == StoreStopping ==> Flagged(s))
    && (th.pc == LoadStop2 && !th.took ==> Flagged(s))
    && (th.pc == LoadSignal2 && !th.took ==> s.signalled)
    && (th.begunFlagged ==> InWait(th.pc) && Flagged(s))
    && ((th.pc == LoadSignal1 || th.pc == LoadSignal2) && (th.begunFlagged || s.state == Stopping) ==> s.signalled)
    && (th.pc == Park || th.pc == Sleep ==> !th.begunFlagged && s.state != Stopping)
    && (th.pc == Sleep ==> s.state == KickWaiting)
  }

  ghost predicate SharedOk(s: System) {
    && (s.state == Stopping ==> Flagged(s))
    && (s.handle.Some? ==> s.handle.value.thread < |s.threads|)
    && (s.handle.Some? && !s.handle.value.joinable ==> s.threads[s.handle.value.thread].pc == Done)
    && (s.launcher.Some? ==> s.launcher.value < |s.controllers| && Launching(s.controllers[s.launcher.value]) && s.state == Starting)
    && (s.state != Stopped ==> s.launcher.Some? || (s.threads != [] && Alive(s.threads[|s.threads| - 1].pc)))
    && s.stopStores == if s.stopRequested then 1 else 0
  }

  /** kicked_ is what its last write left, and a kick is consumed only while it is set. */
  ghost predicate LogOk(s: System) {
    && (s.kicked <==> s.log != [] && Sets(s.log[|s.log| - 1]))
    && forall i | 0 <= i < |s.log| && s.log[i] == Consumed :: i > 0 && Sets(s.log[i - 1])
  }

  /** Calls that have returned true, and a call that is about to, each consumed a kick of its own. */
  ghost predicate ReturnsOk(s: System) {
    s.trueReturns + (if s.threads != [] then Took(s.threads[|s.threads| - 1]) else 0) <= Consumes(s.log)
  }

  function Took(th: Thread): nat {
    if th.took then 1 else 0
  }

  function Consumes(log: seq<KickEvent>): nat {
    if log == [] then 0 else Consumes(log[..|log| - 1]) + if log[|log| - 1] == Consumed then 1 else 0
  }

  ghost predicate Inv(s: System) {
    && SharedOk(s) && LogOk(s) && ReturnsOk(s)
    && (forall t: nat | t < |s.threads| :: ThreadOk(s, t))
    && (forall c: nat | c < |s.controllers| :: ControllerOk(s, c))
  }

  ghost predicate ControllerOk(s: System, c: nat)
    requires c < |s.controllers|
  {
    var pc := s.controllers[c];
    && (Launching(pc) ==> s.launcher == Some(c))
    && (pc.Assign? ==>
          && pc.thread < |s.threads| && s.threads[pc.thread].creator == c
          && (s.handle.Some? ==> s.handle.value.thread != pc.thread))
  }

  lemma InvInitially(controllers: nat)
    ensures Inv(Initially(controllers))
  {}

  lemma CountAppend(log: seq<KickEvent>, e: KickEvent)
    ensures Consumes(log + [e]) == Consumes(log) + if e == Consumed then 1 else 0
  {
    assert (log + [e])[..|log|] == log;
  }

  /** A write of kicked_ keeps the log explained: kicks may be stored any time, consuming needs the flag set. */
  lemma LogGrows(s: System, e: KickEvent)
    requires LogOk(s) && (e == Consumed ==> s.kicked)
    ensures LogOk(StoreKick(s, e))
  {
    var log := s.log + [e];
    forall i | 0 <= i < |log| && log[i] == Consumed
      ensures i > 0 && Sets(log[i - 1])
    {
      if i < |s.log| {
        assert s.log[i] == Consumed;
      } else {
        assert log[i - 1] == s.log[|s.log| - 1];
      }
    }
  }

  /** At most one worker thread has not stored Stopped: the one created last. */
  lemma OneThread(s: System, t: nat)
    requires Inv(s) && t < |s.threads| && Alive(s.threads[t].pc)
    ensures t == |s.threads| - 1 && s.launcher == None
    ensures forall u: nat | u < |s.threads| && u != t :: !Alive(s.threads[u].pc) && !s.threads[u].took && !s.threads[u].begunFlagged
  {
    assert ThreadOk(s, t);
    forall u: nat | u < |s.threads| && u != t
      ensures !Alive(s.threads[u].pc) && !s.threads[u].took && !s.threads[u].begunFlagged
    {
      assert ThreadOk(s, u);
    }
  }

  lemma InvStep(s: System, a: Action)
    requires Inv(s) && Enabled(s, a)
    ensures Inv(Step(s, a))
  {
    hide Consumes;
    match a
    case Begin(c, call) => InvBegin(s, c, call);
    case Control(c) => InvControl(s, c);
    case Run(t) => InvRun(s, t);
    case CallWait(t) => InvCallWait(s, t);
    case LeaveWork(t) => InvLeaveWork(s, t);
    case Signal => InvFlags(s, s.(signalled := true));
  }

  /** Raising a flag disturbs nothing. */
  lemma InvFlags(s: System, s': System)
    requires Inv(s)
    requires s' == s.(signalled := true) || (!s.stopRequested && s' == s.(stopRequested := true, stopStores := s.stopStores + 1))
    ensures Inv(s')
  {
    hide Consumes, LogOk;
    assert LogOk(s') by { LogSame(s, s'); }
    forall t: nat | t < |s'.threads|
      ensures ThreadOk(s', t)
    {
      assert ThreadOk(s, t);
    }
    forall c: nat | c < |s'.controllers|
      ensures ControllerOk(s', c)
    {
      assert ControllerOk(s, c);
    }
  }

  lemma LogSame(s: System, s': System)
    requires LogOk(s) && s'.log == s.log && s'.kicked == s.kicked
    ensures LogOk(s')
  {}

  lemma ReturnsSame(s: System, s': System)
    requires ReturnsOk(s) && s'.log == s.log && s'.threads == s.threads && s'.trueReturns == s.trueReturns
    ensures ReturnsOk(s')
  {}

  lemma InvBegin(s: System, c: nat, call: Call)
    requires Inv(s) && Enabled(s, Begin(c, call))
    ensures Inv(Step(s, Begin(c, call)))
  {
    InvMoved(s, c, match call case CallStart(kicked) => StartCas(kicked) case CallStop(wait) => StopCas(wait) case CallKick => KickStore);
  }

  /** A controller moving on without touching anything shared. */
  lemma InvMoved(s: System, c: nat, pc: ControllerPc)
    requires Inv(s) && c < |s.controllers| && Launching(s.controllers[c]) == Launching(pc)
    requires !s.controllers[c].Assign? && !pc.Assign?
    ensures Inv(At(s, c, pc))
  {
    hide Consumes, LogOk;
    var s' := At(s, c, pc);
    assert LogOk(s') by { LogSame(s, s'); }
    forall t: nat | t < |s'.threads|
      ensures ThreadOk(s', t)
    {
      assert ThreadOk(s, t);
    }
    forall d: nat | d < |s'.controllers|
      ensures ControllerOk(s', d)
    {
      assert ControllerOk(s, d);
    }
  }

  lemma InvKick(s: System, e: KickEvent)
    requires Inv(s) && e != Consumed
    ensures Inv(StoreKick(s, e))
  {
    LogGrows(s, e);
    CountAppend(s.log, e);
    hide Consumes, LogOk;
    var s' := StoreKick(s, e);
    forall t: nat | t < |s'.threads|
      ensures ThreadOk(s', t)
    {
      assert ThreadOk(s, t);
    }
    forall c: nat | c < |s'.controllers|
      ensures ControllerOk(s', c)
    {
      assert ControllerOk(s, c);
    }
  }

  lemma InvControl(s: System, c: nat)
    requires Inv(s) && Enabled(s, Control(c))
    ensures Inv(ControlStep(s, c))
  {
    hide Consumes, LogOk;
    match s.controllers[c]
    case StartCas(kicked) =>
      if s.state == Stopped { InvLaunch(s, c, kicked); } else { InvMoved(s, c, Idle); }
    case StartKick(kicked) => InvKick(s, StartStored(kicked)); InvMoved(StoreKick(s, StartStored(kicked)), c, StartId);
    case StartId => InvMoved(s, c, Create);
    case Create => InvCreate(s, c);
    case Assign(t) => InvAssign(s, c, t);
    case StopCas(wait) =>
      if !s.stopRequested {
        var s1 := s.(stopRequested := true, stopStores := s.stopStores + 1);
        InvFlags(s, s1);
        InvMoved(s1, c, StopKick(wait));
      } else {
        InvMoved(s, c, StopLoad(wait));
      }
    case StopKick(wait) => InvKick(s, Kicked); InvMoved(StoreKick(s, Kicked), c, StopLoad(wait));
    case StopLoad(wait) => InvMoved(s, c, if wait && s.handle.Some? then Join else Idle);
    case Join => InvJoinReset(s, c);
    case Reset => InvJoinReset(s, c);
    case KickStore => InvKick(s, Kicked); InvMoved(StoreKick(s, Kicked), c, Idle);
  }

  lemma InvCrashed(s: System)
    requires Inv(s)
    ensures Inv(s.(crashed := true))
  {
    hide Consumes, LogOk;
    var s' := s.(crashed := true);
    assert LogOk(s') by { LogSame(s, s'); }
    forall t: nat | t < |s'.threads|
      ensures ThreadOk(s', t)
    {
      assert ThreadOk(s, t);
    }
    forall c: nat | c < |s'.controllers|
      ensures ControllerOk(s', c)
    {
      assert ControllerOk(s, c);
    }
  }

  /** start's compare-exchange succeeds only when nobody is launching and no thread is alive. */
  lemma InvLaunch(s: System, c: nat, kicked: bool)
    requires Inv(s) && c < |s.controllers| && s.controllers[c] == StartCas(kicked) && s.state == Stopped
    ensures Inv(At(s.(state := Starting, launcher := Some(c)), c, StartKick(kicked)))
  {
    hide Consumes, LogOk;
    var s' := At(s.(state := Starting, launcher := Some(c)), c, StartKick(kicked));
    assert LogOk(s') by { LogSame(s, s'); }
    forall t: nat | t < |s'.threads|
      ensures ThreadOk(s', t)
    {
      assert ThreadOk(s, t);
    }
    forall d: nat | d < |s'.controllers|
      ensures ControllerOk(s', d)
    {
      assert ControllerOk(s, d);
    }
  }

  /** The new thread is the only one alive; the controller that created it accounts for it. */
  lemma InvCreate(s: System, c: nat)
    requires Inv(s) && c < |s.controllers| && s.controllers[c] == Create
    ensures Inv(ControlStep(s, c))
  {
    hide Consumes, LogOk;
    var s' := ControlStep(s, c);
    assert LogOk(s') by { LogSame(s, s'); }
    assert ControllerOk(s, c);
    forall t: nat | t < |s'.threads|
      ensures ThreadOk(s', t)
    {
      if t < |s.threads| {
        assert ThreadOk(s, t);
      }
    }
    forall d: nat | d < |s'.controllers|
      ensures ControllerOk(s', d)
    {
      assert ControllerOk(s, d);
    }
    assert s.threads != [] ==> ThreadOk(s, |s.threads| - 1);
  }

  lemma InvAssign(s: System, c: nat, t: nat)
    requires Inv(s) && c < |s.controllers| && s.controllers[c] == Assign(t)
    ensures Inv(ControlStep(s, c))
  {
    hide Consumes, LogOk;
    if s.handle.Some? && s.handle.value.joinable {
      InvCrashed(s);
    } else {
      var s' := ControlStep(s, c);
      assert LogOk(s') by { LogSame(s, s'); }
      assert ReturnsOk(s') by { ReturnsSame(s, s'); }
      assert ControllerOk(s, c);
      assert SharedOk(s');
      hide ReturnsOk, SharedOk;
      forall u: nat | u < |s'.threads|
        ensures ThreadOk(s', u)
      {
        assert ThreadOk(s, u);
      }
      forall d: nat | d < |s'.controllers|
        ensures ControllerOk(s', d)
      {
        assert ControllerOk(s, d);
      }
    }
  }

  lemma InvJoinReset(s: System, c: nat)
    requires Inv(s) && Enabled(s, Control(c)) && (s.controllers[c] == Join || s.controllers[c] == Reset)
    ensures Inv(ControlStep(s, c))
  {
    hide Consumes, LogOk;
    if s.handle.None? {
      if s.controllers[c] == Join { InvCrashed(s); } else { InvMoved(s, c, Idle); }
    } else if s.handle.value.joinable != (s.controllers[c] == Join) {
      InvCrashed(s);
    } else {
      InvHandle(s, c, ControlStep(s, c).handle, if s.controllers[c] == Join then Reset else Idle);
    }
  }

  /** The owned thread has finished, and its handle is joined or dropped. */
  lemma InvHandle(s: System, c: nat, handle: Option<Handle>, pc: ControllerPc)
    requires Inv(s) && c < |s.controllers| && (s.controllers[c] == Join || s.controllers[c] == Reset) && (pc == Reset || pc == Idle)
    requires s.handle.Some? && s.threads[s.handle.value.thread].pc == Done
    requires handle.None? || handle == Some(s.handle.value.(joinable := false))
    ensures Inv(At(s.(handle := handle), c, pc))
  {
    hide Consumes, LogOk;
    var s' := At(s.(handle := handle), c, pc);
    assert LogOk(s') by { LogSame(s, s'); }
    forall t: nat | t < |s'.threads|
      ensures ThreadOk(s', t)
    {
      assert ThreadOk(s, t);
    }
    forall d: nat | d < |s'.controllers|
      ensures ControllerOk(s', d)
    {
      assert ControllerOk(s, d);
    }
  }

  /** A step of the live worker thread that writes only state_, its own place and the return counter. */
  lemma InvThread(s: System, s': System, t: nat)
    requires Inv(s) && t < |s.threads| && Alive(s.threads[t].pc)
    requires |s'.threads| == |s.threads| && s' == s.(state := s'.state, threads := s.threads[t := s'.threads[t]], trueReturns := s'.trueReturns)
    requires s'.threads[t].creator == s.threads[t].creator
    requires s'.trueReturns + Took(s'.threads[t]) <= s.trueReturns + Took(s.threads[t])
    requires ThreadOk(s', t) && SharedOk(s')
    ensures Inv(s')
  {
    OneThread(s, t);
    hide Consumes, LogOk, SharedOk, Took;
    assert LogOk(s') by { LogSame(s, s'); }
    assert ReturnsOk(s');
    hide ReturnsOk;
    ThreadFrame(s, s', t);
  }

  /** What the other threads and all controllers rely on is not touched. */
  lemma ThreadFrame(s: System, s': System, t: nat)
    requires Inv(s) && t < |s.threads| && Alive(s.threads[t].pc)
    requires |s'.threads| == |s.threads| && s'.threads == s.threads[t := s'.threads[t]] && s'.threads[t].creator == s.threads[t].creator
    requires ThreadOk(s', t)
    requires s'.controllers == s.controllers && s'.handle == s.handle && s'.launcher == s.launcher
    ensures forall u: nat | u < |s'.threads| :: ThreadOk(s', u)
    ensures forall c: nat | c < |s'.controllers| :: ControllerOk(s', c)
  {
    hide LogOk, SharedOk, ReturnsOk;
    OneThread(s, t);
    forall u: nat | u < |s'.threads|
      ensures ThreadOk(s', u)
    {
      assert ThreadOk(s, u);
    }
    forall c: nat | c < |s'.controllers|
      ensures ControllerOk(s', c)
    {
      assert ControllerOk(s, c);
    }
  }

  lemma InvRun(s: System, t: nat)
    requires Inv(s) && Enabled(s, Run(t))
    ensures Inv(ThreadStep(s, t))
  {
    hide Inv, ThreadStep;
    var pc := s.threads[t].pc;
    if pc in {TakeKick, LoadStop1, LoadSignal1} {
      if pc == TakeKick && s.kicked { InvTake(s, t); } else { InvLoop(s, t); }
    } else if pc in {Park, Sleep} {
      InvPark(s, t);
    } else if pc in {LoadStop2, LoadSignal2, StoreStopping, StoreStarted} {
      InvReturn(s, t);
    } else {
      InvBody(s, t);
    }
  }

  lemma InvLoop(s: System, t: nat)
    requires Inv(s) && Enabled(s, Run(t)) && s.threads[t].pc in {TakeKick, LoadStop1, LoadSignal1}
    requires s.threads[t].pc == TakeKick ==> !s.kicked
    ensures Inv(ThreadStep(s, t))
  {
    hide Consumes, LogOk, ReturnsOk, ControllerOk;
    OneThread(s, t);
    assert ThreadOk(s, t);
    InvThread(s, ThreadStep(s, t), t);
  }

  lemma InvPark(s: System, t: nat)
    requires Inv(s) && Enabled(s, Run(t)) && s.threads[t].pc in {Park, Sleep}
    ensures Inv(ThreadStep(s, t))
  {
    hide Consumes, LogOk, ReturnsOk, ControllerOk;
    OneThread(s, t);
    assert ThreadOk(s, t);
    InvThread(s, ThreadStep(s, t), t);
  }

  lemma InvReturn(s: System, t: nat)
    requires Inv(s) && Enabled(s, Run(t)) && s.threads[t].pc in {LoadStop2, LoadSignal2, StoreStopping, StoreStarted}
    ensures Inv(ThreadStep(s, t))
  {
    hide Consumes, LogOk, ReturnsOk, ControllerOk;
    OneThread(s, t);
    assert ThreadOk(s, t);
    InvThread(s, ThreadStep(s, t), t);
  }

  lemma InvBody(s: System, t: nat)
    requires Inv(s) && Enabled(s, Run(t)) && s.threads[t].pc in {SetId, Enter, Leave, ClearId}
    ensures Inv(ThreadStep(s, t))
  {
    hide Consumes, LogOk;
    if s.threads[t].pc == ClearId {
      InvClear(s, t);
    } else {
      OneThread(s, t);
      assert ThreadOk(s, t);
      InvThread(s, ThreadStep(s, t), t);
    }
  }

  lemma InvClear(s: System, t: nat)
    requires Inv(s) && t < |s.threads| && s.threads[t].pc == ClearId
    ensures Inv(Go(s, t, Done))
  {
    hide Consumes, LogOk;
    var s' := Go(s, t, Done);
    assert LogOk(s') by { LogSame(s, s'); }
    forall u: nat | u < |s'.threads|
      ensures ThreadOk(s', u)
    {
      assert ThreadOk(s, u);
    }
    forall c: nat | c < |s'.controllers|
      ensures ControllerOk(s', c)
    {
      assert ControllerOk(s, c);
    }
  }

  lemma InvTake(s: System, t: nat)
    requires Inv(s) && t < |s.threads| && s.threads[t].pc == TakeKick && s.kicked
    ensures Inv(ThreadStep(s, t))
  {
    OneThread(s, t);
    assert ThreadOk(s, t);
    LogGrows(s, Consumed);
    CountAppend(s.log, Consumed);
    hide Consumes, LogOk;
    var s' := ThreadStep(s, t);
    assert LogOk(s') by { LogSame(StoreKick(s, Consumed), s'); }
    ThreadFrame(s, s', t);
  }

  lemma InvCallWait(s: System, t: nat)
    requires Inv(s) && Enabled(s, CallWait(t))
    ensures Inv(Step(s, CallWait(t)))
  {
    hide Consumes, LogOk, ReturnsOk, ControllerOk;
    OneThread(s, t);
    assert ThreadOk(s, t);
    InvThread(s, Step(s, CallWait(t)), t);
  }

  lemma InvLeaveWork(s: System, t: nat)
    requires Inv(s) && Enabled(s, LeaveWork(t))
    ensures Inv(Step(s, LeaveWork(t)))
  {
    hide Consumes, LogOk, ReturnsOk, ControllerOk;
    OneThread(s, t);
    assert ThreadOk(s, t);
    InvThread(s, Step(s, LeaveWork(t)), t);
  }

  lemma {:induction false} InvAfter(s: System, actions: seq<Action>)
    requires Inv(s) && IsRun(s, actions)
    ensures Inv(After(s, actions))
    decreases |actions|
  {
    if actions != [] {
      InvStep(s, actions[0]);
      InvAfter(Step(s, actions[0]), actions[1..]);
    }
  }

  // ---- what every run keeps ----

  /** How state_ may move. */
  predicate Move(from: State, to: State) {
    || from == to
    || (from == Stopped && to == Starting)
    || (from == Starting && to == Started)
    || (from == Started && (to == KickWaiting || to == Stopping || to == Stopped))
    || (from == KickWaiting && (to == Started || to == Stopping))
    || (from == Stopping && to == Stopped)
  }

  /** In every run, state_ follows its life cycle: in particular Stopping is never taken back, and a waiting
      thread never goes straight to Stopped. */
  lemma StateLifeCycle(controllers: nat, actions: seq<Action>, a: Action)
    requires IsRun(Initially(controllers), actions) && Enabled(After(Initially(controllers), actions), a)
    ensures var s := After(Initially(controllers), actions);
            Move(s.state, Step(s, a).state)
  {
    InvInitially(controllers);
    InvAfter(Initially(controllers), actions);
    MoveStep(After(Initially(controllers), actions), a);
  }

  lemma MoveRun(s: System, t: nat)
    requires t < |s.threads| && ThreadOk(s, t) && Enabled(s, Run(t))
    ensures Move(s.state, ThreadStep(s, t).state)
  {}

  lemma MoveStep(s: System, a: Action)
    requires Inv(s) && Enabled(s, a)
    ensures Move(s.state, Step(s, a).state)
  {
    hide LogOk, ReturnsOk, ThreadOk, ThreadStep;
    match a
    case Run(t) => MoveRun(s, t);
    case _ =>
  }

  /** In every run at most one thread is inside work(), state_ tells whether one is alive or being launched,
      at most one stop call stored the request, and a thread that reaches work() always finds Starting. */
  lemma OneWorkerAtATime(controllers: nat, actions: seq<Action>)
    requires IsRun(Initially(controllers), actions)
    ensures var s := After(Initially(controllers), actions);
            && (forall t: nat, u: nat | t < |s.threads| && u < |s.threads| && Working(s.threads[t].pc) && Working(s.threads[u].pc) :: t == u)
            && (s.state == Stopped <==>
                  s.launcher == None && forall t: nat | t < |s.threads| :: !Alive(s.threads[t].pc))
            && (forall t: nat | t < |s.threads| && s.threads[t].pc == Enter :: s.state == Starting)
            && s.stopStores == if s.stopRequested then 1 else 0
  {
    InvInitially(controllers);
    InvAfter(Initially(controllers), actions);
    OneWorker(After(Initially(controllers), actions));
  }

  lemma OneWorker(s: System)
    requires Inv(s)
    ensures forall t: nat, u: nat | t < |s.threads| && u < |s.threads| && Working(s.threads[t].pc) && Working(s.threads[u].pc) :: t == u
    ensures s.state == Stopped <==> s.launcher == None && forall t: nat | t < |s.threads| :: !Alive(s.threads[t].pc)
    ensures forall t: nat | t < |s.threads| && s.threads[t].pc == Enter :: s.state == Starting
    ensures s.stopStores == if s.stopRequested then 1 else 0
  {
    hide LogOk, ReturnsOk, WaitOk;
    forall t: nat, u: nat | t < |s.threads| && u < |s.threads| && Working(s.threads[t].pc) && Working(s.threads[u].pc)
      ensures t == u
    {
      assert ThreadOk(s, t) && ThreadOk(s, u);
    }
    forall t: nat | t < |s.threads|
      ensures Alive(s.threads[t].pc) ==> s.state != Stopped
      ensures s.threads[t].pc == Enter ==> s.state == Starting
    {
      assert ThreadOk(s, t);
    }
  }

  /** When a join completes, every worker thread has finished, other than one created by a start that has not
      yet assigned it to thread_. */
  lemma JoinLeavesOnlyUnassigned(controllers: nat, actions: seq<Action>, c: nat)
    requires IsRun(Initially(controllers), actions) && Enabled(After(Initially(controllers), actions), Control(c))
    requires After(Initially(controllers), actions).controllers[c] == Join
    ensures var s' := Step(After(Initially(controllers), actions), Control(c));
            s'.crashed || forall t: nat | t < |s'.threads| && s'.threads[t].pc != Done ::
              s'.threads[t].creator < |s'.controllers| && s'.controllers[s'.threads[t].creator] == Assign(t)
  {
    InvInitially(controllers);
    InvAfter(Initially(controllers), actions);
    JoinStep(After(Initially(controllers), actions), c);
  }

  lemma JoinStep(s: System, c: nat)
    requires Inv(s) && Enabled(s, Control(c)) && s.controllers[c] == Join
    ensures var s' := ControlStep(s, c);
            s'.crashed || forall t: nat | t < |s'.threads| && s'.threads[t].pc != Done ::
              s'.threads[t].creator < |s'.controllers| && s'.controllers[s'.threads[t].creator] == Assign(t)
  {
    hide LogOk, ReturnsOk, WaitOk, SharedOk;
    forall t: nat | t < |s.threads|
      ensures s.threads[t].pc != Done ==> Accounted(s, t)
    {
      assert ThreadOk(s, t);
    }
  }

  // ---- no kick lost, none invented ----

  function Kicks(log: seq<KickEvent>): nat {
    if log == [] then 0 else Kicks(log[..|log| - 1]) + if Sets(log[|log| - 1]) then 1 else 0
  }

  lemma {:induction false} KicksCoverConsumes(log: seq<KickEvent>)
    requires forall i | 0 <= i < |log| && log[i] == Consumed :: i > 0 && Sets(log[i - 1])
    ensures Consumes(log) + (if log != [] && Sets(log[|log| - 1]) then 1 else 0) <= Kicks(log)
  {
    if log != [] {
      KicksCoverConsumes(log[..|log| - 1]);
    }
  }

  /** A later write took the kick away: a consuming one, or a new start that stored false. */
  ghost predicate Answered(log: seq<KickEvent>, i: nat) {
    exists j | i < j < |log| :: log[j] == Consumed || log[j] == StartStored(false)
  }

  /** In every run: each consumed kick is the one stored immediately before, so consumed plus pending kicks
      never exceed kicks stored; when kicked_ is false every kick has been answered; and wait_for_kick has
      returned true no more often than kicks were consumed. */
  lemma KicksAccountedFor(controllers: nat, actions: seq<Action>)
    requires IsRun(Initially(controllers), actions)
    ensures var s := After(Initially(controllers), actions);
            && (forall i | 0 <= i < |s.log| && s.log[i] == Consumed :: i > 0 && Sets(s.log[i - 1]))
            && Consumes(s.log) + (if s.kicked then 1 else 0) <= Kicks(s.log)
            && (!s.kicked ==> forall i: nat | i < |s.log| && Sets(s.log[i]) :: Answered(s.log, i))
            && s.trueReturns <= Consumes(s.log)
  {
    InvInitially(controllers);
    InvAfter(Initially(controllers), actions);
    var s := After(Initially(controllers), actions);
    hide After, IsRun;
    KicksCoverConsumes(s.log);
    if !s.kicked {
      forall i: nat | i < |s.log| && Sets(s.log[i])
        ensures Answered(s.log, i)
      {
        var last := |s.log| - 1;
        assert s.log[last] == Consumed || s.log[last] == StartStored(false);
      }
    }
  }

  /** What wait_for_kick's answer means, in every run: true only if that very call consumed a kick, and was
      begun before any stop; false only if a stop has been requested or signalled. A call that returns true
      leaves Started, one that returns false leaves Stopping, and one that sleeps does so as KickWaiting. */
  lemma WaitForKickAnswers(controllers: nat, actions: seq<Action>, t: nat)
    requires IsRun(Initially(controllers), actions)
    requires t < |After(Initially(controllers), actions).threads|
    ensures var s := After(Initially(controllers), actions);
            && (s.threads[t].pc == StoreStarted ==> s.threads[t].took && !s.threads[t].begunFlagged)
            && (s.threads[t].pc == StoreStopping ==> Flagged(s))
            && (s.threads[t].pc == Sleep ==> s.state == KickWaiting)
            && (Enabled(s, Run(t)) && Step(s, Run(t)).threads[t].pc == InWork && InWait(s.threads[t].pc) ==>
                  if Step(s, Run(t)).trueReturns == s.trueReturns + 1 then s.threads[t].took && Step(s, Run(t)).state == Started
                  else Flagged(s) && Step(s, Run(t)).trueReturns == s.trueReturns && Step(s, Run(t)).state == Stopping)
  {
    InvInitially(controllers);
    InvAfter(Initially(controllers), actions);
    var s := After(Initially(controllers), actions);
    assert ThreadOk(s, t);
    hide Inv, ThreadOk, Accounted;
    if Enabled(s, Run(t)) && InWait(s.threads[t].pc) { AnswerStep(s, t); }
  }

  lemma AnswerStep(s: System, t: nat)
    requires t < |s.threads| && InWait(s.threads[t].pc) && WaitOk(s, s.threads[t])
    ensures var s' := ThreadStep(s, t);
            |s'.threads| == |s.threads| &&
            (s'.threads[t].pc == InWork ==>
               if s'.trueReturns == s.trueReturns + 1 then s.threads[t].took && s'.state == Started
               else Flagged(s) && s'.trueReturns == s.trueReturns && s'.state == Stopping)
  {
    match s.threads[t].pc
    case TakeKick =>
    case LoadStop1 =>
    case LoadSignal1 =>
    case Park =>
    case Sleep =>
    case LoadStop2 =>
    case LoadSignal2 =>
    case StoreStopping =>
    case StoreStarted =>
    case _ =>
  }

  // ---- a stop is noticed ----

  /** Own steps a waiting thread can still take before its call returns, once a flag is up. */
  function Rank(s: System, pc: ThreadPc): nat {
    match pc
    case LoadSignal1 => if s.signalled then 5 else 10
    case Park => 9
    case Sleep => 8
    case TakeKick => 7
    case LoadStop1 => 6
    case LoadStop2 => 4
    case LoadSignal2 => 3
    case StoreStopping => 2
    case StoreStarted => 2
    case _ => 0
  }

  lemma RankOwnStep(s: System, t: nat)
    requires Enabled(s, Run(t)) && Flagged(s) && InWait(s.threads[t].pc)
    ensures var s' := ThreadStep(s, t);
            && Flagged(s') && |s'.threads| == |s.threads|
            && (|| s'.threads[t].pc == InWork
                || (InWait(s'.threads[t].pc) && Rank(s', s'.threads[t].pc) < Rank(s, s.threads[t].pc)))
  {}

  /** The steps of start. */
  predicate InStart(pc: ControllerPc) {
    pc.StartCas? || Launching(pc) || pc.Assign?
  }

  lemma StartKeepsThreads(s: System, c: nat)
    requires c < |s.controllers| && InStart(s.controllers[c])
    ensures s.threads <= ControlStep(s, c).threads
    ensures ControlStep(s, c).signalled == s.signalled && (s.stopRequested ==> ControlStep(s, c).stopRequested)
  {}

  lemma StopKeepsThreads(s: System, c: nat)
    requires c < |s.controllers| && !InStart(s.controllers[c])
    ensures s.threads <= ControlStep(s, c).threads
    ensures ControlStep(s, c).signalled == s.signalled && (s.stopRequested ==> ControlStep(s, c).stopRequested)
  {}

  lemma ControlKeepsThreads(s: System, c: nat)
    requires c < |s.controllers|
    ensures s.threads <= ControlStep(s, c).threads
    ensures ControlStep(s, c).signalled == s.signalled && (s.stopRequested ==> ControlStep(s, c).stopRequested)
  {
    hide ControlStep, InStart;
    if InStart(s.controllers[c]) { StartKeepsThreads(s, c); } else { StopKeepsThreads(s, c); }
  }

  lemma WaitKeepsFlags(s: System, u: nat, t: nat)
    requires u < |s.threads| && t < |s.threads| && u != t && InWait(s.threads[u].pc)
    ensures |ThreadStep(s, u).threads| == |s.threads| && ThreadStep(s, u).threads[t] == s.threads[t]
    ensures ThreadStep(s, u).signalled == s.signalled && ThreadStep(s, u).stopRequested == s.stopRequested
  {
    match s.threads[u].pc
    case TakeKick =>
    case LoadStop1 =>
    case LoadSignal1 =>
    case Park =>
    case Sleep =>
    case LoadStop2 =>
    case LoadSignal2 =>
    case StoreStopping =>
    case StoreStarted =>
    case _ =>
  }

  lemma BodyKeepsFlags(s: System, u: nat, t: nat)
    requires u < |s.threads| && t < |s.threads| && u != t && !InWait(s.threads[u].pc)
    ensures |ThreadStep(s, u).threads| == |s.threads| && ThreadStep(s, u).threads[t] == s.threads[t]
    ensures ThreadStep(s, u).signalled == s.signalled && ThreadStep(s, u).stopRequested == s.stopRequested
  {
    match s.threads[u].pc
    case SetId =>
    case Enter =>
    case InWork =>
    case Leave =>
    case ClearId =>
    case Done =>
    case _ =>
  }

  lemma ThreadsKeepFlags(s: System, u: nat, t: nat)
    requires u < |s.threads| && t < |s.threads| && u != t
    ensures |ThreadStep(s, u).threads| == |s.threads| && ThreadStep(s, u).threads[t] == s.threads[t]
    ensures ThreadStep(s, u).signalled == s.signalled && ThreadStep(s, u).stopRequested == s.stopRequested
  {
    hide ThreadStep, InWait;
    if InWait(s.threads[u].pc) { WaitKeepsFlags(s, u, t); } else { BodyKeepsFlags(s, u, t); }
  }

  /** Other threads may raise flags, but do not move this one. */
  lemma RankOtherStep(s: System, a: Action, t: nat)
    requires Enabled(s, a) && t < |s.threads| && InWait(s.threads[t].pc) && a != Run(t)
    ensures var s' := Step(s, a);
            && t < |s'.threads| && s'.threads[t].pc == s.threads[t].pc
            && (s.signalled ==> s'.signalled) && (s.stopRequested ==> s'.stopRequested)
  {
    hide ThreadStep, ControlStep;
    match a
    case Control(c) => ControlKeepsThreads(s, c);
    case Run(u) => ThreadsKeepFlags(s, u, t);
    case _ =>
  }

  lemma RankDecreases(s: System, a: Action, t: nat)
    requires Inv(s) && Enabled(s, a) && Flagged(s) && t < |s.threads| && InWait(s.threads[t].pc)
    ensures Flagged(Step(s, a)) && t < |Step(s, a).threads|
    ensures var pc := Step(s, a).threads[t].pc;
            if a == Run(t) then pc == InWork || (InWait(pc) && Rank(Step(s, a), pc) < Rank(s, s.threads[t].pc))
            else pc == s.threads[t].pc && Rank(Step(s, a), pc) <= Rank(s, s.threads[t].pc)
  {
    hide Inv, ThreadStep, ControlStep;
    if a == Run(t) {
      RankOwnStep(s, t);
    } else {
      RankOtherStep(s, a, t);
    }
  }

  function Turns(actions: seq<Action>, t: nat): nat {
    if actions == [] then 0 else (if actions[0] == Run(t) then 1 else 0) + Turns(actions[1..], t)
  }

  /** Thread t is back in work() at some point of the run. */
  ghost predicate Returns(s: System, actions: seq<Action>, t: nat)
    requires IsRun(s, actions)
    decreases |actions|
  {
    || (t < |s.threads| && s.threads[t].pc == InWork)
    || (actions != [] && Returns(Step(s, actions[0]), actions[1..], t))
  }

  lemma {:induction false} ReturnsWithinRank(s: System, actions: seq<Action>, t: nat)
    requires Inv(s) && IsRun(s, actions) && Flagged(s) && t < |s.threads| && InWait(s.threads[t].pc)
    requires Turns(actions, t) >= Rank(s, s.threads[t].pc)
    ensures Returns(s, actions, t)
    decreases |actions|
  {
    var s' := Step(s, actions[0]);
    RankDecreases(s, actions[0], t);
    InvStep(s, actions[0]);
    if s'.threads[t].pc == InWork {
      assert Returns(s', actions[1..], t);
    } else {
      ReturnsWithinRank(s', actions[1..], t);
    }
  }

  /** Once a stop is requested or signalled, a thread inside wait_for_kick returns within ten steps of its own,
      whatever the other threads do in between: no notification is needed for that. */
  lemma StopIsNoticed(controllers: nat, before: seq<Action>, actions: seq<Action>, t: nat)
    requires IsRun(Initially(controllers), before)
    requires var s := After(Initially(controllers), before);
             IsRun(s, actions) && Flagged(s) && t < |s.threads| && InWait(s.threads[t].pc)
    requires Turns(actions, t) >= 10
    ensures Returns(After(Initially(controllers), before), actions, t)
  {
    InvInitially(controllers);
    InvAfter(Initially(controllers), before);
    ReturnsWithinRank(After(Initially(controllers), before), actions, t);
  }

  // ---- a kick is noticed ----

  /** In the loop of wait_for_kick, or past it. */
  predicate InLoop(pc: ThreadPc) {
    pc in {TakeKick, LoadStop1, LoadSignal1, Park, Sleep}
  }

  /** A kick is pending for the thread in its loop, or the thread is past the loop. */
  ghost predicate KickReaches(s: System, t: nat) {
    t < |s.threads| && InWait(s.threads[t].pc) && (InLoop(s.threads[t].pc) ==> s.kicked)
  }

  /** Own steps such a thread can still take before its call returns. */
  function KickRank(pc: ThreadPc): nat {
    match pc
    case LoadStop1 => 8
    case LoadSignal1 => 7
    case Park => 6
    case Sleep => 5
    case TakeKick => 4
    case LoadStop2 => 3
    case LoadSignal2 => 2
    case StoreStopping => 1
    case StoreStarted => 1
    case _ => 0
  }

  lemma KickOwnStep(s: System, t: nat)
    requires KickReaches(s, t) && Enabled(s, Run(t))
    ensures var s' := ThreadStep(s, t);
            && t < |s'.threads|
            && (|| s'.threads[t].pc == InWork
                || (KickReaches(s', t) && KickRank(s'.threads[t].pc) < KickRank(s.threads[t].pc)))
  {}

  /** While a thread is alive no other thread consumes, and no start can store that there is no kick. */
  lemma KickKept(s: System, a: Action, t: nat)
    requires Inv(s) && Enabled(s, a) && KickReaches(s, t) && a != Run(t)
    ensures s.kicked ==> Step(s, a).kicked
  {
    OneThread(s, t);
    match a
    case Control(c) => assert ControllerOk(s, c); hide Inv;
    case Run(u) => assert !InWait(s.threads[u].pc); hide Inv;
    case _ =>
  }

  lemma KickOtherStep(s: System, a: Action, t: nat)
    requires Inv(s) && Enabled(s, a) && KickReaches(s, t) && a != Run(t)
    ensures KickReaches(Step(s, a), t) && Step(s, a).threads[t].pc == s.threads[t].pc
  {
    KickKept(s, a, t);
    RankOtherStep(s, a, t);
    hide Inv, Step;
  }

  lemma {:induction false} ReturnsWithinKickRank(s: System, actions: seq<Action>, t: nat)
    requires Inv(s) && IsRun(s, actions) && KickReaches(s, t)
    requires Turns(actions, t) >= KickRank(s.threads[t].pc)
    ensures Returns(s, actions, t)
    decreases |actions|
  {
    assert actions != [];
    var s', a := Step(s, actions[0]), actions[0];
    InvStep(s, a);
    if a == Run(t) { KickOwnStep(s, t); } else { KickOtherStep(s, a, t); }
    hide Inv, Enabled, ThreadStep;
    if s'.threads[t].pc == InWork {
      assert Returns(s', actions[1..], t);
    } else {
      ReturnsWithinKickRank(s', actions[1..], t);
    }
  }

  /** If kicked_ is set while a thread is anywhere in the loop of wait_for_kick, the call returns within eight
      steps of its own, whatever the other threads do in between: no kick is lost, notified or not. */
  lemma KickIsNoticed(controllers: nat, before: seq<Action>, actions: seq<Action>, t: nat)
    requires IsRun(Initially(controllers), before)
    requires var s := After(Initially(controllers), before);
             IsRun(s, actions) && s.kicked && t < |s.threads| && InLoop(s.threads[t].pc)
    requires Turns(actions, t) >= 8
    ensures Returns(After(Initially(controllers), before), actions, t)
  {
    InvInitially(controllers);
    InvAfter(Initially(controllers), before);
    ReturnsWithinKickRank(After(Initially(controllers), before), actions, t);
  }
}
