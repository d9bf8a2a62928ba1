/** The calls of a run against what they leave behind: every kick() stores its kick, every stop() raises the
    request, every start that wins stores its argument and creates one thread. Calls are counted where they
    begin, so that one that does nothing shows. */
module WorkerLedger {
  import opened Options
  import opened Worker

  /** What a call that has begun still has to do. */
  datatype Due = TheKick | TheRequest | TheArgument(kicked: bool) | TheThread

  function Owes(pc: ControllerPc, due: Due): nat {
    match due
    case TheKick => if pc == KickStore || pc.StopKick? then 1 else 0
    case TheRequest => if pc.StopCas? then 1 else 0
    case TheArgument(kicked) => if pc == StartCas(kicked) || pc == StartKick(kicked) then 1 else 0
    case TheThread => if pc == StartId || pc == Create then 1 else 0
  }

  function Owed(controllers: seq<ControllerPc>, due: Due): nat {
    if controllers == [] then 0 else Owes(controllers[0], due) + Owed(controllers[1..], due)
  }

  lemma {:induction false} OwedMoved(controllers: seq<ControllerPc>, c: nat, pc: ControllerPc, due: Due)
    requires c < |controllers|
    ensures Owed(controllers[c := pc], due) == Owed(controllers, due) - Owes(controllers[c], due) + Owes(pc, due)
  {
    var moved := controllers[c := pc];
    hide Owes;
    if c > 0 {
      assert moved[1..] == controllers[1..][c - 1 := pc];
      OwedMoved(controllers[1..], c - 1, pc, due);
    } else {
      assert moved[1..] == controllers[1..];
    }
  }

  lemma {:induction false} NothingOwed(n: nat, due: Due)
    ensures Owed(seq(n, _ => Idle), due) == 0
  {
    if n > 0 {
      assert seq(n, _ => Idle)[1..] == seq(n - 1, _ => Idle);
      NothingOwed(n - 1, due);
    }
  }

  /** How often `call` was made in a run. */
  function Made(actions: seq<Action>, call: Call): nat {
    if actions == [] then 0 else Makes(actions[0], call) + Made(actions[1..], call)
  }

  function Makes(a: Action, call: Call): nat {
    if a.Begin? && a.call == call then 1 else 0
  }

  /** How often `e` was written. */
  function Stores(log: seq<KickEvent>, e: KickEvent): nat {
    multiset(log)[e]
  }

  lemma StoresMore(log: seq<KickEvent>, more: seq<KickEvent>, e: KickEvent)
    ensures Stores(log + more, e) == Stores(log, e) + Stores(more, e)
  {
    assert multiset(log + more) == multiset(log) + multiset(more);
  }

  lemma StoresOne(pc: ControllerPc, e: KickEvent)
    ensures Stores(Writes(pc), e) == if Writes(pc) == [e] then 1 else 0
  {}

  // ---- what one step of a controller can do ----

  /** The writes of kicked_ in a controller's next step. */
  function Writes(pc: ControllerPc): seq<KickEvent> {
    match pc
    case StartKick(kicked) => [StartStored(kicked)]
    case StopKick(_) => [Kicked]
    case KickStore => [Kicked]
    case _ => []
  }

  /** Which step comes after which. */
  predicate Follows(pc: ControllerPc, next: ControllerPc) {
    match pc
    case Idle => next == Idle
    case StartCas(kicked) => next == StartKick(kicked) || next == Idle
    case StartKick(_) => next == StartId
    case StartId => next == Create
    case Create => next.Assign?
    case Assign(_) => next == Idle || next == pc
    case StopCas(wait) => next == StopKick(wait) || next == StopLoad(wait)
    case StopKick(wait) => next == StopLoad(wait)
    case StopLoad(_) => next == Join || next == Idle
    case Join => next == Reset || next == Join
    case Reset => next == Idle || next == Reset
    case KickStore => next == Idle
  }

  ghost predicate Effect(s: System, s': System, c: nat)
    requires c < |s.controllers|
  {
    var pc := s.controllers[c];
    && |s'.controllers| == |s.controllers| && s'.controllers == s.controllers[c := s'.controllers[c]]
    && Follows(pc, s'.controllers[c])
    && s'.log == s.log + Writes(pc)
    && s'.signalled == s.signalled
    && s'.stopRequested == (s.stopRequested || pc.StopCas?)
    && s'.stopStores == s.stopStores + (if s'.controllers[c].StopKick? then 1 else 0)
    && |s'.threads| == |s.threads| + (if pc == Create then 1 else 0)
  }

  lemma ControlEffect(s: System, c: nat)
    requires c < |s.controllers|
    ensures Effect(s, ControlStep(s, c), c)
  {
    hide ControlStep, Effect;
    var pc := s.controllers[c];
    if pc.StartKick? || pc.StopKick? || pc == KickStore { StoreEffect(s, c); }
    else if pc.Assign? || pc == Join || pc == Reset { HandleEffect(s, c); }
    else { QuietEffect(s, c); }
  }

  lemma StoreEffect(s: System, c: nat)
    requires c < |s.controllers|
    requires s.controllers[c].StartKick? || s.controllers[c].StopKick? || s.controllers[c] == KickStore
    ensures Effect(s, ControlStep(s, c), c)
  {}

  /** A step that ends the program moves nobody. */
  lemma HandleEffect(s: System, c: nat)
    requires c < |s.controllers| && (s.controllers[c].Assign? || s.controllers[c] == Join || s.controllers[c] == Reset)
    ensures Effect(s, ControlStep(s, c), c)
  {
    assert s.controllers[c := s.controllers[c]] == s.controllers;
    assert s.log + [] == s.log;
    match s.controllers[c]
    case Assign(t) =>
    case Join =>
    case Reset =>
  }

  lemma QuietEffect(s: System, c: nat)
    requires c < |s.controllers|
    requires var pc := s.controllers[c];
             pc == Idle || pc.StartCas? || pc == StartId || pc == Create || pc.StopCas? || pc.StopLoad?
    ensures Effect(s, ControlStep(s, c), c)
  {
    assert s.controllers[c := s.controllers[c]] == s.controllers;
    assert s.log + [] == s.log;
  }

  /** A worker thread moves no controller and raises no flag; of the writes of kicked_ it only consumes. */
  ghost predicate Quiet(s: System, s': System) {
    && s'.controllers == s.controllers && |s'.threads| == |s.threads|
    && s'.stopStores == s.stopStores && s'.stopRequested == s.stopRequested && s'.signalled == s.signalled
    && (s'.log == s.log || s'.log == s.log + [Consumed])
  }

  lemma RunEffect(s: System, t: nat)
    requires t < |s.threads|
    ensures Quiet(s, ThreadStep(s, t))
  {
    hide InWait, ThreadStep, Quiet;
    if InWait(s.threads[t].pc) { WaitEffect(s, t); } else { BodyEffect(s, t); }
  }

  lemma WaitEffect(s: System, t: nat)
    requires t < |s.threads| && InWait(s.threads[t].pc)
    ensures Quiet(s, ThreadStep(s, t))
  {
    match s.threads[t].pc
    case TakeKick =>
    case LoadStop1 =>
    case LoadSignal1 =>
    case Park =>
    case Sleep =>
    case LoadStop2 =>
    case LoadSignal2 =>
    case StoreStopping =>
    case StoreStarted =>
    case _ =>
  }

  lemma BodyEffect(s: System, t: nat)
    requires t < |s.threads| && !InWait(s.threads[t].pc)
    ensures Quiet(s, ThreadStep(s, t))
  {
    match s.threads[t].pc
    case SetId =>
    case Enter =>
    case InWork =>
    case Leave =>
    case ClearId =>
    case Done =>
    case _ =>
  }

  // ---- kicks ----

  /** Kicks stored and owed, other than by the stop that won. */
  ghost function KickLedger(s: System): int {
    Stores(s.log, Kicked) + Owed(s.controllers, TheKick) - s.stopStores
  }

  lemma KickLedgerStep(s: System, a: Action)
    requires Enabled(s, a)
    ensures KickLedger(Step(s, a)) == KickLedger(s) + Makes(a, CallKick)
  {
    hide Owed, Stores, ControlStep, ThreadStep;
    match a
    case Begin(c, call) => OwedMoved(s.controllers, c, Step(s, a).controllers[c], TheKick);
    case Control(c) =>
      ControlEffect(s, c);
      KickLedgerControl(s, ControlStep(s, c), c);
    case Run(t) =>
      RunEffect(s, t);
      LogAfterRun(s, t, Kicked);
    case _ =>
  }

  lemma KickLedgerControl(s: System, s': System, c: nat)
    requires c < |s.controllers| && Effect(s, s', c)
    ensures KickLedger(s') == KickLedger(s)
  {
    var pc := s.controllers[c];
    OwedMoved(s.controllers, c, s'.controllers[c], TheKick);
    StoresMore(s.log, Writes(pc), Kicked);
    StoresOne(pc, Kicked);
    hide Owed, Stores;
  }

  lemma LogAfterRun(s: System, t: nat, e: KickEvent)
    requires t < |s.threads| && e != Consumed
    ensures Stores(ThreadStep(s, t).log, e) == Stores(s.log, e)
  {
    RunEffect(s, t);
    StoresMore(s.log, [Consumed], e);
    assert Stores([Consumed], e) == 0;
    hide Stores, ThreadStep;
  }

  lemma {:induction false} KickLedgerRun(s: System, actions: seq<Action>)
    requires IsRun(s, actions)
    ensures KickLedger(After(s, actions)) == KickLedger(s) + Made(actions, CallKick)
    decreases |actions|
  {
    if actions != [] {
      KickLedgerStep(s, actions[0]);
      KickLedgerRun(Step(s, actions[0]), actions[1..]);
    }
  }

  /** In every run, kicks stored and kicks still to be stored are the kick() calls made and the one stop that
      raised the request: a kick() that has returned, and a winning stop past its kick, have each stored one. */
  lemma EveryKickIsStored(controllers: nat, actions: seq<Action>)
    requires IsRun(Initially(controllers), actions)
    ensures var s := After(Initially(controllers), actions);
            Stores(s.log, Kicked) + Owed(s.controllers, TheKick) == Made(actions, CallKick) + s.stopStores
  {
    NothingOwed(controllers, TheKick);
    KickLedgerRun(Initially(controllers), actions);
    hide IsRun, After, Owed, Made;
  }

  /** kicked_ right after it was stored. */
  lemma StoredIsSet(s: System, c: nat)
    requires Enabled(s, Control(c))
    ensures s.controllers[c] == KickStore || s.controllers[c].StopKick? ==> Step(s, Control(c)).kicked
    ensures s.controllers[c].StartKick? ==> Step(s, Control(c)).kicked == s.controllers[c].kicked
  {}

  // ---- stops ----

  /** The request is up exactly when some of the n stop calls made is past its compare-exchange. */
  ghost predicate RequestLedger(s: System, n: nat) {
    Owed(s.controllers, TheRequest) <= n && (s.stopRequested <==> Owed(s.controllers, TheRequest) < n)
  }

  function Stops(actions: seq<Action>): nat {
    Made(actions, CallStop(false)) + Made(actions, CallStop(true))
  }

  lemma RequestLedgerStep(s: System, a: Action, n: nat)
    requires Enabled(s, a) && RequestLedger(s, n)
    ensures RequestLedger(Step(s, a), n + Makes(a, CallStop(false)) + Makes(a, CallStop(true)))
  {
    hide Owed, ControlStep, ThreadStep;
    match a
    case Begin(c, call) => OwedMoved(s.controllers, c, Step(s, a).controllers[c], TheRequest);
    case Control(c) =>
      ControlEffect(s, c);
      OwedMoved(s.controllers, c, ControlStep(s, c).controllers[c], TheRequest);
    case Run(t) => RunEffect(s, t);
    case _ =>
  }

  lemma {:induction false} RequestLedgerRun(s: System, actions: seq<Action>, n: nat)
    requires IsRun(s, actions) && RequestLedger(s, n)
    ensures RequestLedger(After(s, actions), n + Stops(actions))
    decreases |actions|
  {
    if actions != [] {
      var a := actions[0];
      RequestLedgerStep(s, a, n);
      RequestLedgerRun(Step(s, a), actions[1..], n + Makes(a, CallStop(false)) + Makes(a, CallStop(true)));
      hide RequestLedger, Enabled, Step, Makes;
    }
  }

  lemma {:induction false} SignalRun(s: System, actions: seq<Action>)
    requires IsRun(s, actions)
    ensures After(s, actions).signalled <==> s.signalled || Signal in actions
    decreases |actions|
  {
    if actions != [] {
      SignalStep(s, actions[0]);
      SignalRun(Step(s, actions[0]), actions[1..]);
      hide Enabled, Step;
    }
  }

  lemma SignalStep(s: System, a: Action)
    requires Enabled(s, a)
    ensures Step(s, a).signalled <==> s.signalled || a == Signal
  {
    hide ControlStep, ThreadStep;
    match a
    case Control(c) => ControlEffect(s, c);
    case Run(t) => RunEffect(s, t);
    case _ =>
  }

  /** In every run, the request is up exactly when a stop() call has got past its compare-exchange, in
      particular whenever one has returned; and a signal is seen exactly when there was one. */
  lemma EveryStopIsRequested(controllers: nat, actions: seq<Action>)
    requires IsRun(Initially(controllers), actions)
    ensures var s := After(Initially(controllers), actions);
            && (s.stopRequested <==> Owed(s.controllers, TheRequest) < Stops(actions))
            && (s.signalled <==> Signal in actions)
  {
    NothingOwed(controllers, TheRequest);
    RequestLedgerRun(Initially(controllers), actions, 0);
    SignalRun(Initially(controllers), actions);
    hide IsRun, After, Owed, Stops;
  }

  // ---- starts ----

  ghost predicate ArgumentLedger(s: System, kicked: bool, n: nat) {
    Stores(s.log, StartStored(kicked)) + Owed(s.controllers, TheArgument(kicked)) <= n
  }

  ghost function ThreadLedger(s: System): int {
    Stores(s.log, StartStored(false)) + Stores(s.log, StartStored(true)) - Owed(s.controllers, TheThread) - |s.threads|
  }

  lemma ArgumentLedgerStep(s: System, a: Action, kicked: bool, n: nat)
    requires Enabled(s, a) && ArgumentLedger(s, kicked, n)
    ensures ArgumentLedger(Step(s, a), kicked, n + Makes(a, CallStart(kicked)))
  {
    hide Owed, Stores, ControlStep, ThreadStep;
    match a
    case Begin(c, call) => OwedMoved(s.controllers, c, Step(s, a).controllers[c], TheArgument(kicked));
    case Control(c) =>
      ControlEffect(s, c);
      ArgumentLedgerControl(s, ControlStep(s, c), c, kicked, n);
    case Run(t) =>
      RunEffect(s, t);
      LogAfterRun(s, t, StartStored(kicked));
    case _ =>
  }

  lemma ArgumentLedgerControl(s: System, s': System, c: nat, kicked: bool, n: nat)
    requires c < |s.controllers| && Effect(s, s', c) && ArgumentLedger(s, kicked, n)
    ensures ArgumentLedger(s', kicked, n)
  {
    var pc := s.controllers[c];
    OwedMoved(s.controllers, c, s'.controllers[c], TheArgument(kicked));
    StoresMore(s.log, Writes(pc), StartStored(kicked));
    StoresOne(pc, StartStored(kicked));
    hide Owed, Stores;
  }

  lemma ThreadLedgerStep(s: System, a: Action)
    requires Enabled(s, a)
    ensures ThreadLedger(Step(s, a)) == ThreadLedger(s)
  {
    hide Owed, Stores, ControlStep, ThreadStep;
    match a
    case Begin(c, call) => OwedMoved(s.controllers, c, Step(s, a).controllers[c], TheThread);
    case Control(c) =>
      ControlEffect(s, c);
      ThreadLedgerControl(s, ControlStep(s, c), c);
    case Run(t) =>
      RunEffect(s, t);
      LogAfterRun(s, t, StartStored(false));
      LogAfterRun(s, t, StartStored(true));
    case _ =>
  }

  lemma ThreadLedgerControl(s: System, s': System, c: nat)
    requires c < |s.controllers| && Effect(s, s', c)
    ensures ThreadLedger(s') == ThreadLedger(s)
  {
    var pc := s.controllers[c];
    OwedMoved(s.controllers, c, s'.controllers[c], TheThread);
    StoresMore(s.log, Writes(pc), StartStored(false));
    StoresMore(s.log, Writes(pc), StartStored(true));
    StoresOne(pc, StartStored(false));
    StoresOne(pc, StartStored(true));
    hide Owed, Stores;
  }

  lemma {:induction false} ArgumentLedgerRun(s: System, actions: seq<Action>, kicked: bool, n: nat)
    requires IsRun(s, actions) && ArgumentLedger(s, kicked, n)
    ensures ArgumentLedger(After(s, actions), kicked, n + Made(actions, CallStart(kicked)))
    decreases |actions|
  {
    if actions != [] {
      ArgumentLedgerStep(s, actions[0], kicked, n);
      ArgumentLedgerRun(Step(s, actions[0]), actions[1..], kicked, n + Makes(actions[0], CallStart(kicked)));
      hide ArgumentLedger, Enabled, Step, Makes;
    }
  }

  lemma {:induction false} ThreadLedgerRun(s: System, actions: seq<Action>)
    requires IsRun(s, actions)
    ensures ThreadLedger(After(s, actions)) == ThreadLedger(s)
    decreases |actions|
  {
    if actions != [] {
      ThreadLedgerStep(s, actions[0]);
      ThreadLedgerRun(Step(s, actions[0]), actions[1..]);
      hide ThreadLedger, Enabled, Step;
    }
  }

  /** In every run, each thread created goes back to one store of kicked_ by a start, and each such store to a
      start call made with that very argument. */
  lemma EveryThreadWasStarted(controllers: nat, actions: seq<Action>)
    requires IsRun(Initially(controllers), actions)
    ensures var s := After(Initially(controllers), actions);
            && Stores(s.log, StartStored(false)) + Stores(s.log, StartStored(true)) == |s.threads| + Owed(s.controllers, TheThread)
            && Stores(s.log, StartStored(false)) + Owed(s.controllers, TheArgument(false)) <= Made(actions, CallStart(false))
            && Stores(s.log, StartStored(true)) + Owed(s.controllers, TheArgument(true)) <= Made(actions, CallStart(true))
  {
    var s := Initially(controllers);
    NothingOwed(controllers, TheThread);
    NothingOwed(controllers, TheArgument(false));
    NothingOwed(controllers, TheArgument(true));
    ArgumentLedgerRun(s, actions, false, 0);
    ArgumentLedgerRun(s, actions, true, 0);
    ThreadLedgerRun(s, actions);
    hide IsRun, After, Owed, Made;
  }

  // ---- a call is carried through ----

  /** Nobody else moves a controller that is inside a call. */
  lemma OthersLeaveController(s: System, a: Action, c: nat)
    requires Enabled(s, a) && c < |s.controllers| && s.controllers[c] != Idle && a != Control(c)
    ensures c < |Step(s, a).controllers| && Step(s, a).controllers[c] == s.controllers[c]
  {
    hide ControlStep, ThreadStep;
    match a
    case Control(d) => ControlEffect(s, d);
    case Run(t) => RunEffect(s, t);
    case _ =>
  }

  lemma {:induction false} StaysInCall(s: System, actions: seq<Action>, c: nat)
    requires IsRun(s, actions) && c < |s.controllers| && s.controllers[c] != Idle && Control(c) !in actions
    ensures var s' := After(s, actions);
            c < |s'.controllers| && s'.controllers[c] == s.controllers[c]
    decreases |actions|
  {
    if actions != [] {
      OthersLeaveController(s, actions[0], c);
      StaysInCall(Step(s, actions[0]), actions[1..], c);
    }
  }

  /** `kick` is a call of kick() by controller c in a run from s, other threads going on meanwhile. */
  ghost predicate IsKickCall(s: System, between: seq<Action>, c: nat) {
    && Enabled(s, Begin(c, CallKick))
    && IsRun(Step(s, Begin(c, CallKick)), between) && Control(c) !in between
    && Enabled(After(Step(s, Begin(c, CallKick)), between), Control(c))
  }

  ghost function AfterKick(s: System, between: seq<Action>, c: nat): System
    requires IsKickCall(s, between, c)
  {
    Step(After(Step(s, Begin(c, CallKick)), between), Control(c))
  }

  /** kick() returns with kicked_ set. */
  lemma KickReturns(s: System, between: seq<Action>, c: nat)
    requires IsKickCall(s, between, c)
    ensures AfterKick(s, between, c).kicked && c < |AfterKick(s, between, c).controllers|
    ensures AfterKick(s, between, c).controllers[c] == Idle
  {
    var s1 := Step(s, Begin(c, CallKick));
    StaysInCall(s1, between, c);
    StoredIsSet(After(s1, between), c);
  }

  lemma {:induction false} InvKickCall(s: System, between: seq<Action>, c: nat)
    requires Inv(s) && IsKickCall(s, between, c)
    ensures Inv(AfterKick(s, between, c))
  {
    var s1 := Step(s, Begin(c, CallKick));
    InvStep(s, Begin(c, CallKick));
    InvAfter(s1, between);
    InvStep(After(s1, between), Control(c));
  }

  /** After any kick() in any run, a thread that is then in the loop of wait_for_kick is back in work() within
      eight steps of its own. */
  lemma KickWakes(controllers: nat, before: seq<Action>, between: seq<Action>, c: nat, actions: seq<Action>, t: nat)
    requires IsRun(Initially(controllers), before)
    requires IsKickCall(After(Initially(controllers), before), between, c)
    requires var s := AfterKick(After(Initially(controllers), before), between, c);
             IsRun(s, actions) && t < |s.threads| && InLoop(s.threads[t].pc)
    requires Turns(actions, t) >= 8
    ensures Returns(AfterKick(After(Initially(controllers), before), between, c), actions, t)
  {
    var s := After(Initially(controllers), before);
    InvInitially(controllers);
    InvAfter(Initially(controllers), before);
    InvKickCall(s, between, c);
    KickReturns(s, between, c);
    ReturnsWithinKickRank(AfterKick(s, between, c), actions, t);
  }

  /** Own steps a launching start still takes until its thread exists. */
  function LaunchRank(pc: ControllerPc): nat {
    match pc
    case StartKick(_) => 3
    case StartId => 2
    case Create => 1
    case _ => 0
  }

  function Moves(actions: seq<Action>, c: nat): nat {
    if actions == [] then 0 else (if actions[0] == Control(c) then 1 else 0) + Moves(actions[1..], c)
  }

  /** Controller c has created a thread at some point of the run. */
  ghost predicate Creates(s: System, actions: seq<Action>, c: nat)
    requires IsRun(s, actions)
    decreases |actions|
  {
    && actions != []
    && (|| (actions[0] == Control(c) && |Step(s, actions[0]).threads| == |s.threads| + 1
            && Step(s, actions[0]).threads[|s.threads|] == Thread(SetId, false, false, c))
        || Creates(Step(s, actions[0]), actions[1..], c))
  }

  lemma LaunchStep(s: System, c: nat)
    requires c < |s.controllers| && Launching(s.controllers[c])
    ensures c < |ControlStep(s, c).controllers|
    ensures s.controllers[c] != Create ==>
              LaunchRank(ControlStep(s, c).controllers[c]) == LaunchRank(s.controllers[c]) - 1 && Launching(ControlStep(s, c).controllers[c])
    ensures s.controllers[c] == Create ==> ControlStep(s, c).threads == s.threads + [Thread(SetId, false, false, c)]
  {
    match s.controllers[c]
    case StartKick(_) =>
    case StartId =>
    case Create =>
  }

  lemma {:induction false} LaunchCreates(s: System, actions: seq<Action>, c: nat)
    requires IsRun(s, actions) && c < |s.controllers| && Launching(s.controllers[c])
    requires Moves(actions, c) >= LaunchRank(s.controllers[c])
    ensures Creates(s, actions, c)
    decreases |actions|
  {
    assert actions != [];
    var a := actions[0];
    var s' := Step(s, a);
    if a != Control(c) {
      OthersLeaveController(s, a, c);
      LaunchCreates(s', actions[1..], c);
    } else {
      LaunchStep(s, c);
      assert s' == ControlStep(s, c);
      hide ControlStep, Enabled;
      if s.controllers[c] != Create {
        LaunchCreates(s', actions[1..], c);
      }
    }
  }

  /** A start that finds no thread alive and no start launching creates its thread within four steps of its own,
      whatever the other threads do between its first step and its last. */
  lemma StartCreates(controllers: nat, before: seq<Action>, c: nat, actions: seq<Action>)
    requires IsRun(Initially(controllers), before)
    requires var s := After(Initially(controllers), before);
             && c < |s.controllers| && s.controllers[c].StartCas?
             && s.launcher == None && (forall t: nat | t < |s.threads| :: !Alive(s.threads[t].pc))
             && IsRun(s, actions) && actions != [] && actions[0] == Control(c)
    requires Moves(actions, c) >= 4
    ensures Creates(After(Initially(controllers), before), actions, c)
  {
    var s := After(Initially(controllers), before);
    InvInitially(controllers);
    InvAfter(Initially(controllers), before);
    OneWorker(s);
    hide Inv;
    var s' := Step(s, actions[0]);
    assert s'.controllers[c] == StartKick(s.controllers[c].kicked);
    LaunchCreates(s', actions[1..], c);
  }
}
