/** Which calls keep a Worker from ending the program.

    Destroying a std::thread unjoined ends it, and so does joining twice inside a noexcept stop; joining through
    a null thread_ has no defined behaviour, and is counted with them. All are a matter of how start and stop are
    called; here is when they happen. */
module WorkerCalls {
  import opened Options
  import opened Worker

  // ---- what callers do ----

  /** A start's compare-exchange succeeds: this call will create a thread. */
  ghost predicate WinsStart(s: System, a: Action) {
    a.Control? && a.c < |s.controllers| && s.controllers[a.c].StartCas? && s.state == Stopped
  }

  /** A stop(true) that has joined completes. */
  ghost predicate CompletesJoin(s: System, a: Action) {
    a.Control? && a.c < |s.controllers| && s.controllers[a.c] == Reset
  }

  /** Whether a start has won since the last completed join. */
  ghost function UnjoinedAfter(s: System, a: Action, unjoined: bool): bool {
    if WinsStart(s, a) then true else if CompletesJoin(s, a) then false else unjoined
  }

  /** Between any two starts that win lies a completed stop(true) that joined. */
  ghost predicate Separated(s: System, actions: seq<Action>, unjoined: bool)
    requires IsRun(s, actions)
    decreases |actions|
  {
    actions != [] ==>
      && (WinsStart(s, actions[0]) ==> !unjoined)
      && Separated(Step(s, actions[0]), actions[1..], UnjoinedAfter(s, actions[0], unjoined))
  }

  predicate InWaitingStop(pc: ControllerPc) {
    pc in {StopCas(true), StopKick(true), StopLoad(true), Join, Reset}
  }

  ghost predicate NoWaitingStop(s: System) {
    forall c: nat | c < |s.controllers| :: !InWaitingStop(s.controllers[c])
  }

  /** No stop(true) begins while another is in flight. */
  ghost predicate StopsOneByOne(s: System, actions: seq<Action>)
    requires IsRun(s, actions)
    decreases |actions|
  {
    actions != [] ==>
      && (actions[0].Begin? && actions[0].call == CallStop(true) ==> NoWaitingStop(s))
      && StopsOneByOne(Step(s, actions[0]), actions[1..])
  }

  // ---- orderly callers ----

  /** In a start that has won: the thread is to be created, or is created and not assigned. */
  predicate Pending(pc: ControllerPc) {
    Launching(pc) || pc.Assign?
  }

  ghost predicate Orderly(s: System, unjoined: bool) {
    && !s.crashed
    && (s.handle.Some? ==> unjoined)
    && (forall c: nat | c < |s.controllers| :: CallOk(s, c, unjoined))
    && (forall c: nat, d: nat | c < |s.controllers| && d < |s.controllers| && Pending(s.controllers[c]) && Pending(s.controllers[d]) :: c == d)
    && (forall c: nat, d: nat | c < |s.controllers| && d < |s.controllers| && InWaitingStop(s.controllers[c]) && InWaitingStop(s.controllers[d]) :: c == d)
    && (s.handle.Some? && !s.handle.value.joinable ==> exists c: nat :: c < |s.controllers| && s.controllers[c] == Reset)
    && (|s.controllers| == 1 && unjoined ==> s.handle.Some? || Pending(s.controllers[0]))
  }

  ghost predicate CallOk(s: System, c: nat, unjoined: bool)
    requires c < |s.controllers|
  {
    var pc := s.controllers[c];
    && (Pending(pc) ==> unjoined && s.handle.None?)
    && (pc == Join ==> s.handle.Some? && s.handle.value.joinable)
    && (pc == Reset ==> s.handle.Some? && !s.handle.value.joinable)
  }

  /** A step inside a call that does not assign, join or reset: only the controller's place matters here. */
  lemma ControlMoves(s: System, c: nat)
    requires c < |s.controllers|
    requires var pc := s.controllers[c]; !pc.Assign? && pc != Join && pc != Reset
    ensures var s' := ControlStep(s, c);
            && s'.handle == s.handle && s'.crashed == s.crashed && |s'.controllers| == |s.controllers|
            && s'.controllers == s.controllers[c := s'.controllers[c]]
    ensures var pc, pc' := s.controllers[c], ControlStep(s, c).controllers[c];
            && pc' != Reset && (InWaitingStop(pc') ==> InWaitingStop(pc)) && (pc' == Join ==> s.handle.Some?)
            && ((pc.StartCas? && s.state == Stopped) || Pending(pc) <==> Pending(pc'))
  {
    var pc := s.controllers[c];
    if pc.StartCas? || pc.StartKick? || pc == StartId || pc == Create {
    } else if pc.StopCas? || pc.StopKick? || pc.StopLoad? {
    }
  }

  lemma OrderlyStep(s: System, a: Action, unjoined: bool)
    requires Enabled(s, a) && Orderly(s, unjoined)
    requires WinsStart(s, a) ==> !unjoined
    requires a.Begin? && a.call == CallStop(true) ==> NoWaitingStop(s)
    ensures Orderly(Step(s, a), UnjoinedAfter(s, a, unjoined))
  {
    assert !s.crashed by { hide CallOk; }
    hide Orderly, CallOk, Pending;
    match a
    case Begin(c, call) => OrderlyBegin(s, c, call, unjoined);
    case Control(c) => OrderlyControl(s, c, unjoined);
    case _ =>
      var s' := Step(s, a);
      assert s'.controllers == s.controllers && s'.handle == s.handle && !s'.crashed;
      SameCalls(s, s', unjoined);
  }

  lemma SameCalls(s: System, s': System, unjoined: bool)
    requires Orderly(s, unjoined)
    requires s'.controllers == s.controllers && s'.handle == s.handle && !s'.crashed
    ensures Orderly(s', unjoined)
  {
    forall c: nat | c < |s'.controllers|
      ensures CallOk(s', c, unjoined)
    {
      assert CallOk(s, c, unjoined);
    }
  }

  lemma OrderlyBegin(s: System, c: nat, call: Call, unjoined: bool)
    requires Enabled(s, Begin(c, call)) && Orderly(s, unjoined)
    requires call == CallStop(true) ==> NoWaitingStop(s)
    ensures Orderly(Step(s, Begin(c, call)), unjoined)
  {
    OrderlyMoved(s, Step(s, Begin(c, call)), c, unjoined);
  }

  /** A controller moves on within its call, or into one, without touching thread_. */
  lemma OrderlyMoved(s: System, s': System, c: nat, unjoined: bool)
    requires Orderly(s, unjoined) && c < |s.controllers| == |s'.controllers|
    requires s'.controllers == s.controllers[c := s'.controllers[c]] && s'.handle == s.handle && !s'.crashed
    requires s.controllers[c] != Reset && s.controllers[c] != Join && s'.controllers[c] != Reset
    requires Pending(s'.controllers[c]) == Pending(s.controllers[c])
    requires InWaitingStop(s'.controllers[c]) ==> InWaitingStop(s.controllers[c]) || NoWaitingStop(s)
    requires s'.controllers[c] == Join ==> s.handle.Some? && InWaitingStop(s.controllers[c])
    ensures Orderly(s', unjoined)
  {
    forall d: nat | d < |s'.controllers|
      ensures CallOk(s', d, unjoined)
    {
      assert CallOk(s, d, unjoined);
    }
    if s.handle.Some? && !s.handle.value.joinable {
      var d: nat :| d < |s.controllers| && s.controllers[d] == Reset;
      assert s'.controllers[d] == Reset;
    }
  }

  lemma OrderlyControl(s: System, c: nat, unjoined: bool)
    requires Enabled(s, Control(c)) && Orderly(s, unjoined)
    requires WinsStart(s, Control(c)) ==> !unjoined
    ensures Orderly(ControlStep(s, c), UnjoinedAfter(s, Control(c), unjoined))
  {
    hide Orderly, CallOk;
    var pc := s.controllers[c];
    if pc.StartCas? && s.state == Stopped {
      OrderlyWin(s, c);
    } else if pc.Assign? {
      OrderlyAssign(s, c, unjoined);
    } else if pc == Join {
      OrderlyJoin(s, c, unjoined);
    } else if pc == Reset {
      OrderlyReset(s, c, unjoined);
    } else {
      OrderlyOther(s, c, unjoined);
    }
  }

  lemma OrderlyOther(s: System, c: nat, unjoined: bool)
    requires Enabled(s, Control(c)) && Orderly(s, unjoined)
    requires var pc := s.controllers[c]; !pc.Assign? && pc != Join && pc != Reset && (pc.StartCas? ==> s.state != Stopped)
    ensures Orderly(ControlStep(s, c), unjoined)
  {
    assert !s.crashed by { hide CallOk; }
    ControlMoves(s, c);
    hide ControlStep, Pending, Orderly;
    OrderlyMoved(s, ControlStep(s, c), c, unjoined);
  }

  lemma OrderlyWin(s: System, c: nat)
    requires c < |s.controllers| && s.controllers[c].StartCas? && s.state == Stopped && Orderly(s, false)
    ensures Orderly(ControlStep(s, c), true)
  {
    var s' := ControlStep(s, c);
    forall d: nat | d < |s'.controllers|
      ensures CallOk(s', d, true)
      ensures d != c ==> !Pending(s'.controllers[d])
    {
      assert CallOk(s, d, false);
    }
  }

  lemma OrderlyAssign(s: System, c: nat, unjoined: bool)
    requires c < |s.controllers| && s.controllers[c].Assign? && Orderly(s, unjoined)
    ensures Orderly(ControlStep(s, c), unjoined)
  {
    var s' := ControlStep(s, c);
    assert CallOk(s, c, unjoined);
    forall d: nat | d < |s'.controllers|
      ensures CallOk(s', d, unjoined)
    {
      assert CallOk(s, d, unjoined);
    }
  }

  lemma OrderlyJoin(s: System, c: nat, unjoined: bool)
    requires c < |s.controllers| && s.controllers[c] == Join && Orderly(s, unjoined)
    ensures Orderly(ControlStep(s, c), unjoined)
  {
    var s' := ControlStep(s, c);
    assert CallOk(s, c, unjoined);
    forall d: nat | d < |s'.controllers|
      ensures CallOk(s', d, unjoined)
    {
      assert CallOk(s, d, unjoined);
    }
    assert s'.controllers[c] == Reset;
  }

  lemma OrderlyReset(s: System, c: nat, unjoined: bool)
    requires c < |s.controllers| && s.controllers[c] == Reset && Orderly(s, unjoined)
    ensures Orderly(ControlStep(s, c), false)
  {
    var s' := ControlStep(s, c);
    assert CallOk(s, c, unjoined);
    forall d: nat | d < |s'.controllers|
      ensures CallOk(s', d, false)
    {
      assert CallOk(s, d, unjoined);
    }
  }

  lemma {:induction false} OrderlyRun(s: System, actions: seq<Action>, unjoined: bool) returns (unjoined': bool)
    requires IsRun(s, actions) && Orderly(s, unjoined)
    requires Separated(s, actions, unjoined) && StopsOneByOne(s, actions)
    ensures Orderly(After(s, actions), unjoined')
    decreases |actions|
  {
    unjoined' := unjoined;
    if actions != [] {
      OrderlyStep(s, actions[0], unjoined);
      hide Orderly;
      unjoined' := OrderlyRun(Step(s, actions[0]), actions[1..], UnjoinedAfter(s, actions[0], unjoined));
    }
  }

  /** Any number of callers, any interleaving: if every winning start is preceded by a completed join of the one
      before it, and no two waiting stops overlap, the program is never ended. */
  lemma OrderlyCallersNeverCrash(controllers: nat, actions: seq<Action>)
    requires IsRun(Initially(controllers), actions)
    requires Separated(Initially(controllers), actions, false) && StopsOneByOne(Initially(controllers), actions)
    ensures !After(Initially(controllers), actions).crashed
  {
    var unjoined := OrderlyRun(Initially(controllers), actions, false);
  }

  /** Under the same condition a completed join leaves no thread running at all. */
  lemma OrderlyJoinLeavesNothing(controllers: nat, actions: seq<Action>, c: nat)
    requires IsRun(Initially(controllers), actions)
    requires Separated(Initially(controllers), actions, false) && StopsOneByOne(Initially(controllers), actions)
    requires Enabled(After(Initially(controllers), actions), Control(c))
    requires After(Initially(controllers), actions).controllers[c] == Join
    ensures var s' := Step(After(Initially(controllers), actions), Control(c));
            !s'.crashed && forall t: nat | t < |s'.threads| :: s'.threads[t].pc == Done
  {
    var unjoined := OrderlyRun(Initially(controllers), actions, false);
    JoinLeavesOnlyUnassigned(controllers, actions, c);
    var s := After(Initially(controllers), actions);
    hide After, IsRun, Separated, StopsOneByOne;
    assert CallOk(s, c, unjoined);
    forall d: nat | d < |s.controllers|
      ensures !s.controllers[d].Assign?
    {
      assert CallOk(s, d, unjoined);
    }
  }

  // ---- the exact condition for any number of callers ----

  ghost predicate Assigning(s: System, a: Action) {
    a.Control? && a.c < |s.controllers| && s.controllers[a.c].Assign?
  }

  /** Whether thread_ has been assigned since the last completed join. */
  ghost function OwnedAfter(s: System, a: Action, owned: bool): bool {
    if Assigning(s, a) then true else if CompletesJoin(s, a) then false else owned
  }

  /** Between any two assignments of thread_ lies a completed join. */
  ghost predicate Alternating(s: System, actions: seq<Action>, owned: bool)
    requires IsRun(s, actions)
    decreases |actions|
  {
    actions != [] ==>
      && (Assigning(s, actions[0]) ==> !owned)
      && Alternating(Step(s, actions[0]), actions[1..], OwnedAfter(s, actions[0], owned))
  }

  ghost predicate OneWaitingStop(s: System) {
    forall c: nat, d: nat | c < |s.controllers| && d < |s.controllers| && InWaitingStop(s.controllers[c]) && InWaitingStop(s.controllers[d]) :: c == d
  }

  /** What thread_ holds is what the calls have made of it. */
  ghost predicate Tidy(s: System, owned: bool) {
    && !s.crashed && OneWaitingStop(s)
    && (owned <==> s.handle.Some?)
    && (forall c: nat | c < |s.controllers| :: StopOk(s, c))
    && (s.handle.Some? && !s.handle.value.joinable ==> exists c: nat :: c < |s.controllers| && s.controllers[c] == Reset)
  }

  ghost predicate StopOk(s: System, c: nat)
    requires c < |s.controllers|
  {
    && (s.controllers[c] == Join ==> s.handle.Some? && s.handle.value.joinable)
    && (s.controllers[c] == Reset ==> s.handle.Some? && !s.handle.value.joinable)
  }

  /** A stop is about to drop a thread it has not joined: thread_ was assigned between its join and its reset. */
  ghost predicate DropsUnjoined(s: System) {
    && OneWaitingStop(s) && s.handle.Some? && s.handle.value.joinable
    && exists c: nat :: c < |s.controllers| && s.controllers[c] == Reset
  }

  ghost predicate Lost(s: System) {
    s.crashed || DropsUnjoined(s)
  }

  /** A step keeps order or, by assigning over what is owned, loses it. */
  lemma TidyStep(s: System, a: Action, owned: bool)
    requires Enabled(s, a) && Tidy(s, owned)
    requires a.Begin? && a.call == CallStop(true) ==> NoWaitingStop(s)
    ensures if Assigning(s, a) && owned then Lost(Step(s, a)) else Tidy(Step(s, a), OwnedAfter(s, a, owned))
  {
    hide Tidy, StopOk, OneWaitingStop, Lost;
    match a
    case Begin(c, call) => TidyMoved(s, Step(s, a), c, owned);
    case Control(c) => TidyControl(s, c, owned);
    case _ =>
      assert Step(s, a).controllers == s.controllers && Step(s, a).handle == s.handle && Step(s, a).crashed == s.crashed;
      TidySame(s, Step(s, a), owned);
  }

  lemma TidySame(s: System, s': System, owned: bool)
    requires Tidy(s, owned)
    requires s'.controllers == s.controllers && s'.handle == s.handle && s'.crashed == s.crashed
    ensures Tidy(s', owned)
  {
    forall c: nat | c < |s'.controllers|
      ensures StopOk(s', c)
    {
      assert StopOk(s, c);
    }
  }

  lemma TidyMoved(s: System, s': System, c: nat, owned: bool)
    requires Tidy(s, owned) && c < |s.controllers| == |s'.controllers|
    requires s'.controllers == s.controllers[c := s'.controllers[c]] && s'.handle == s.handle && s'.crashed == s.crashed
    requires s.controllers[c] != Reset && s.controllers[c] != Join && s'.controllers[c] != Reset
    requires InWaitingStop(s'.controllers[c]) ==> InWaitingStop(s.controllers[c]) || NoWaitingStop(s)
    requires s'.controllers[c] == Join ==> s.handle.Some? && InWaitingStop(s.controllers[c])
    ensures Tidy(s', owned)
  {
    forall d: nat | d < |s'.controllers|
      ensures StopOk(s', d)
    {
      assert StopOk(s, d);
    }
    if s.handle.Some? && !s.handle.value.joinable {
      var d: nat :| d < |s.controllers| && s.controllers[d] == Reset;
      assert s'.controllers[d] == Reset;
    }
  }

  lemma TidyControl(s: System, c: nat, owned: bool)
    requires Enabled(s, Control(c)) && Tidy(s, owned)
    ensures if s.controllers[c].Assign? && owned then Lost(ControlStep(s, c))
            else Tidy(ControlStep(s, c), OwnedAfter(s, Control(c), owned))
  {
    hide Tidy, StopOk, OneWaitingStop, Lost, ControlStep, Pending;
    var pc := s.controllers[c];
    if pc.Assign? {
      TidyAssign(s, c, owned);
    } else if pc == Join {
      TidyJoin(s, c, owned);
    } else if pc == Reset {
      TidyReset(s, c, owned);
    } else {
      ControlMoves(s, c);
      TidyMoved(s, ControlStep(s, c), c, owned);
    }
  }

  lemma TidyAssign(s: System, c: nat, owned: bool)
    requires c < |s.controllers| && s.controllers[c].Assign? && Tidy(s, owned)
    ensures if owned then Lost(ControlStep(s, c)) else Tidy(ControlStep(s, c), true)
  {
    var s' := ControlStep(s, c);
    if owned && !s.handle.value.joinable {
      var d: nat :| d < |s.controllers| && s.controllers[d] == Reset;
      assert s'.controllers[d] == Reset;
    } else if !owned {
      forall d: nat | d < |s'.controllers|
        ensures StopOk(s', d)
      {
        assert StopOk(s, d);
      }
    }
  }

  lemma TidyJoin(s: System, c: nat, owned: bool)
    requires c < |s.controllers| && s.controllers[c] == Join && Tidy(s, owned)
    ensures Tidy(ControlStep(s, c), owned)
  {
    var s' := ControlStep(s, c);
    assert StopOk(s, c);
    forall d: nat | d < |s'.controllers|
      ensures StopOk(s', d)
    {
      assert StopOk(s, d);
    }
    assert s'.controllers[c] == Reset;
  }

  lemma TidyReset(s: System, c: nat, owned: bool)
    requires c < |s.controllers| && s.controllers[c] == Reset && Tidy(s, owned)
    ensures Tidy(ControlStep(s, c), false)
  {
    var s' := ControlStep(s, c);
    assert StopOk(s, c);
    forall d: nat | d < |s'.controllers|
      ensures StopOk(s', d)
    {
      assert StopOk(s, d);
    }
  }

  /** Nothing repairs it: the drop comes, or another assignment ends the program first. */
  lemma LostStep(s: System, a: Action)
    requires Enabled(s, a) && Lost(s)
    requires a.Begin? && a.call == CallStop(true) ==> NoWaitingStop(s)
    ensures Lost(Step(s, a))
  {
    var d: nat :| d < |s.controllers| && s.controllers[d] == Reset;
    var s' := Step(s, a);
    if !s'.crashed {
      LostFrame(s, a, d);
    }
  }

  lemma LostFrame(s: System, a: Action, d: nat)
    requires Enabled(s, a) && DropsUnjoined(s) && d < |s.controllers| && s.controllers[d] == Reset && !Step(s, a).crashed
    requires a.Begin? && a.call == CallStop(true) ==> NoWaitingStop(s)
    ensures var s' := Step(s, a);
            && s'.handle == s.handle && |s'.controllers| == |s.controllers| && s'.controllers[d] == Reset && OneWaitingStop(s')
  {
    match a
    case Control(c) =>
      OnlyDrops(s, c, d);
      ControlMoves(s, c);
      hide ControlStep, Pending;
    case Run(t) => RunKeepsCallers(s, t); hide ThreadStep;
    case _ =>
  }

  lemma RunKeepsCallers(s: System, t: nat)
    requires t < |s.threads|
    ensures ThreadStep(s, t).handle == s.handle && ThreadStep(s, t).controllers == s.controllers
  {
    match s.threads[t].pc
    case Enter =>
    case TakeKick =>
    case Park =>
    case _ =>
  }

  /** An assignment or the drop itself ends the program, and no other stop is there to join. */
  lemma OnlyDrops(s: System, c: nat, d: nat)
    requires DropsUnjoined(s) && c < |s.controllers| && d < |s.controllers| && s.controllers[d] == Reset
    requires !ControlStep(s, c).crashed
    ensures var pc := s.controllers[c]; !pc.Assign? && pc != Join && pc != Reset
  {}

  lemma {:induction false} LostRun(s: System, actions: seq<Action>)
    requires Lost(s) && IsRun(s, actions) && StopsOneByOne(s, actions)
    ensures Lost(After(s, actions))
    decreases |actions|
  {
    if actions != [] {
      LostStep(s, actions[0]);
      hide Lost;
      LostRun(Step(s, actions[0]), actions[1..]);
    }
  }

  lemma {:induction false} TidyRun(s: System, actions: seq<Action>, owned: bool) returns (owned': bool)
    requires IsRun(s, actions) && Tidy(s, owned) && StopsOneByOne(s, actions)
    ensures if Alternating(s, actions, owned) then Tidy(After(s, actions), owned') else Lost(After(s, actions))
    decreases |actions|
  {
    owned' := owned;
    if actions != [] {
      var a := actions[0];
      TidyStep(s, a, owned);
      hide Tidy, Lost;
      if Assigning(s, a) && owned {
        LostRun(Step(s, a), actions[1..]);
      } else {
        owned' := TidyRun(Step(s, a), actions[1..], OwnedAfter(s, a, owned));
      }
    }
  }

  lemma TidyNotLost(s: System, owned: bool)
    requires Tidy(s, owned)
    ensures !Lost(s)
  {
    forall d: nat | d < |s.controllers|
      ensures s.controllers[d] == Reset ==> s.handle.Some? && !s.handle.value.joinable
    {
      assert StopOk(s, d);
    }
  }

  /** Any number of callers whose waiting stops do not overlap, every run: a completed join lies between any two
      assignments of thread_ if and only if the program has not been ended, and no stop is about to end it by
      dropping a thread assigned behind its back. */
  lemma CallersCrash(controllers: nat, actions: seq<Action>)
    requires IsRun(Initially(controllers), actions) && StopsOneByOne(Initially(controllers), actions)
    ensures Alternating(Initially(controllers), actions, false) <==> !Lost(After(Initially(controllers), actions))
  {
    assert Tidy(Initially(controllers), false);
    var owned := TidyRun(Initially(controllers), actions, false);
    hide *;
    if Alternating(Initially(controllers), actions, false) {
      TidyNotLost(After(Initially(controllers), actions), owned);
    }
  }

  /** So, when all calls have returned or one has ended the program: ended if and only if thread_ was assigned
      twice without a completed join between. */
  lemma ReturnedCallersCrash(controllers: nat, actions: seq<Action>)
    requires IsRun(Initially(controllers), actions) && StopsOneByOne(Initially(controllers), actions)
    requires var s := After(Initially(controllers), actions);
             s.crashed || forall c: nat | c < |s.controllers| :: s.controllers[c] == Idle
    ensures After(Initially(controllers), actions).crashed <==> !Alternating(Initially(controllers), actions, false)
  {
    CallersCrash(controllers, actions);
    hide After, IsRun, Alternating, StopsOneByOne, OneWaitingStop, Initially;
  }

  // ---- a single caller ----

  /** The only caller is in a start that has won over an unjoined thread. */
  ghost predicate Doomed(s: System) {
    |s.controllers| == 1 && Pending(s.controllers[0]) && s.handle.Some? && s.handle.value.joinable
  }

  lemma DoomedStep(s: System, a: Action)
    requires Doomed(s) && Enabled(s, a)
    ensures Step(s, a).crashed || Doomed(Step(s, a))
  {
    match a
    case Control(c) =>
    case Run(t) =>
    case _ =>
  }

  lemma {:induction false} DoomedRun(s: System, actions: seq<Action>)
    requires (s.crashed || Doomed(s)) && IsRun(s, actions)
    ensures After(s, actions).crashed || Doomed(After(s, actions))
    decreases |actions|
  {
    if actions != [] {
      DoomedStep(s, actions[0]);
      hide Doomed;
      DoomedRun(Step(s, actions[0]), actions[1..]);
    }
  }

  lemma OneStopsOneByOne(s: System, a: Action)
    requires |s.controllers| == 1 && Enabled(s, a)
    ensures |Step(s, a).controllers| == 1
    ensures a.Begin? ==> NoWaitingStop(s)
  {
    match a
    case Control(c) =>
    case Run(t) =>
    case _ =>
  }

  lemma {:induction false} SingleRun(s: System, actions: seq<Action>, unjoined: bool) returns (unjoined': bool)
    requires IsRun(s, actions) && Orderly(s, unjoined) && |s.controllers| == 1
    ensures var s' := After(s, actions);
            if Separated(s, actions, unjoined) then Orderly(s', unjoined') && |s'.controllers| == 1 else s'.crashed || Doomed(s')
    decreases |actions|
  {
    unjoined' := unjoined;
    if actions != [] {
      var a := actions[0];
      OneStopsOneByOne(s, a);
      if WinsStart(s, a) && unjoined {
        WinOverUnjoined(s, a);
        hide Orderly, Doomed;
        DoomedRun(Step(s, a), actions[1..]);
      } else {
        OrderlyStep(s, a, unjoined);
        hide Orderly, Doomed;
        unjoined' := SingleRun(Step(s, a), actions[1..], UnjoinedAfter(s, a, unjoined));
      }
    }
  }

  lemma WinOverUnjoined(s: System, a: Action)
    requires Orderly(s, true) && |s.controllers| == 1 && Enabled(s, a) && WinsStart(s, a)
    ensures Doomed(Step(s, a))
  {
    assert s.controllers[0].StartCas?;
  }

  lemma InitiallyOrderly(controllers: nat)
    ensures Orderly(Initially(controllers), false)
  {}

  /** A single caller, in every run: a completed join lies between any two of its winning starts if and only if
      the program has not been ended and is not about to be, by the start now under way. */
  lemma SingleCaller(actions: seq<Action>)
    requires IsRun(Initially(1), actions)
    ensures Separated(Initially(1), actions, false) <==>
              !(After(Initially(1), actions).crashed || Doomed(After(Initially(1), actions)))
  {
    InitiallyOrderly(1);
    var unjoined := SingleRun(Initially(1), actions, false);
    var s := After(Initially(1), actions);
    hide After, IsRun, Separated;
    if Orderly(s, unjoined) && |s.controllers| == 1 {
      assert CallOk(s, 0, unjoined);
    }
  }

  /** So, whenever its calls have all returned or one has ended the program: ended if and only if two starts won
      without a completed join between them. */
  lemma SingleCallerCrashes(actions: seq<Action>)
    requires IsRun(Initially(1), actions)
    requires After(Initially(1), actions).crashed || After(Initially(1), actions).controllers == [Idle]
    ensures After(Initially(1), actions).crashed <==> !Separated(Initially(1), actions, false)
  {
    SingleCaller(actions);
    hide After, IsRun, Separated;
  }

  // ---- runs that show the conditions are needed, and what a join does not promise ----

  lemma {:induction false} RunExtends(s0: System, run: seq<Action>, a: Action)
    requires IsRun(s0, run) && Enabled(After(s0, run), a)
    ensures IsRun(s0, run + [a]) && After(s0, run + [a]) == Step(After(s0, run), a)
    ensures forall u :: Separated(s0, run + [a], u) <==>
                          Separated(s0, run, u) && !(WinsStart(After(s0, run), a) && Unjoined(s0, run, u))
    ensures forall u :: Unjoined(s0, run + [a], u) == UnjoinedAfter(After(s0, run), a, Unjoined(s0, run, u))
    ensures forall u :: Alternating(s0, run + [a], u) <==>
                          Alternating(s0, run, u) && !(Assigning(After(s0, run), a) && Owned(s0, run, u))
    ensures forall u :: Owned(s0, run + [a], u) == OwnedAfter(After(s0, run), a, Owned(s0, run, u))
    ensures StopsOneByOne(s0, run + [a]) <==>
              StopsOneByOne(s0, run) && (a.Begin? && a.call == CallStop(true) ==> NoWaitingStop(After(s0, run)))
    decreases |run|
  {
    if run == [] {
      assert [] + [a] == [a] && [a][1..] == [];
    } else {
      RunExtends(Step(s0, run[0]), run[1..], a);
      assert (run + [a])[1..] == run[1..] + [a];
    }
  }

  /** Whether a start has won in the run since its last completed join. */
  ghost function Unjoined(s: System, actions: seq<Action>, unjoined: bool): bool
    requires IsRun(s, actions)
    decreases |actions|
  {
    if actions == [] then unjoined
    else Unjoined(Step(s, actions[0]), actions[1..], UnjoinedAfter(s, actions[0], unjoined))
  }

  /** Whether thread_ has been assigned in the run since its last completed join. */
  ghost function Owned(s: System, actions: seq<Action>, owned: bool): bool
    requires IsRun(s, actions)
    decreases |actions|
  {
    if actions == [] then owned
    else Owned(Step(s, actions[0]), actions[1..], OwnedAfter(s, actions[0], owned))
  }

  /** How a run has gone: whether its winning starts were separated, its assignments alternated with joins and its
      waiting stops did not overlap; and whether the last start is unjoined and the last assignment not dropped. */
  datatype History = History(separated: bool, unjoined: bool, alternating: bool, owned: bool, oneByOne: bool)

  ghost function HistoryAfter(h: History, s: System, a: Action): History {
    History(h.separated && !(WinsStart(s, a) && h.unjoined), UnjoinedAfter(s, a, h.unjoined),
            h.alternating && !(Assigning(s, a) && h.owned), OwnedAfter(s, a, h.owned),
            h.oneByOne && (a.Begin? && a.call == CallStop(true) ==> NoWaitingStop(s)))
  }

  ghost function HistoryOf(s: System, run: seq<Action>): History
    requires IsRun(s, run)
  {
    History(Separated(s, run, false), Unjoined(s, run, false), Alternating(s, run, false), Owned(s, run, false), StopsOneByOne(s, run))
  }

  /** A run of n callers, where it leads and how it has gone. */
  datatype Trace = Trace(n: nat, run: seq<Action>, s: System, h: History)

  ghost predicate Built(r: Trace) {
    IsRun(Initially(r.n), r.run) && After(Initially(r.n), r.run) == r.s && r.h == HistoryOf(Initially(r.n), r.run)
  }

  lemma Nothing(n: nat) returns (r: Trace)
    ensures r == Trace(n, [], Initially(n), History(true, false, true, false, true)) && Built(r)
  {
    r := Trace(n, [], Initially(n), History(true, false, true, false, true));
  }

  lemma Do(r: Trace, a: Action) returns (r': Trace)
    requires Built(r) && Enabled(r.s, a)
    ensures Built(r') && r'.n == r.n && r'.run == r.run + [a] && r'.s == Step(r.s, a)
    ensures r'.h == HistoryAfter(r.h, r.s, a)
  {
    r' := Trace(r.n, r.run + [a], Step(r.s, a), HistoryAfter(r.h, r.s, a));
    RunExtends(Initially(r.n), r.run, a);
    hide IsRun, After, Step, Separated, Unjoined, UnjoinedAfter, WinsStart, Initially;
    hide Alternating, Owned, OwnedAfter, Assigning, StopsOneByOne, NoWaitingStop;
  }

  /** A start that wins, up to the point where the new thread runs and is not yet assigned. */
  lemma Starts(r: Trace, c: nat) returns (r': Trace)
    requires Built(r) && c < |r.s.controllers| && r.s.controllers[c] == Idle && r.s.state == Stopped && !r.s.crashed
    ensures Built(r') && r'.n == r.n && r'.h == r.h.(separated := r.h.separated && !r.h.unjoined, unjoined := true)
    ensures r'.s.threads == r.s.threads + [Thread(SetId, false, false, c)] && r'.s.state == Starting && !r'.s.crashed
    ensures r'.s.controllers == r.s.controllers[c := Assign(|r.s.threads|)] && r'.s.handle == r.s.handle
  {
    hide Built;
    r' := Wins(r, c);
    r' := Do(r', Control(c));
    r' := Do(r', Control(c));
    r' := Do(r', Control(c));
  }

  lemma Wins(r: Trace, c: nat) returns (r': Trace)
    requires Built(r) && c < |r.s.controllers| && r.s.controllers[c] == Idle && r.s.state == Stopped && !r.s.crashed
    ensures Built(r') && r'.n == r.n && r'.h == r.h.(separated := r.h.separated && !r.h.unjoined, unjoined := true)
    ensures r'.s.threads == r.s.threads && r'.s.state == Starting && !r'.s.crashed && r'.s.handle == r.s.handle
    ensures r'.s.controllers == r.s.controllers[c := StartKick(false)]
  {
    hide Built;
    r' := Do(r, Begin(c, CallStart(false)));
    r' := Do(r', Control(c));
  }

  lemma EntersWork(r: Trace, t: nat) returns (r': Trace)
    requires Built(r) && t < |r.s.threads| && r.s.threads[t].pc == SetId && r.s.state == Starting && !r.s.crashed
    ensures Built(r') && r'.n == r.n && r'.h == r.h
    ensures r'.s.threads == r.s.threads[t := r.s.threads[t].(pc := InWork)] && r'.s.state == Started && !r'.s.crashed
    ensures r'.s.controllers == r.s.controllers && r'.s.handle == r.s.handle
  {
    hide Built;
    r' := Do(r, Run(t));
    r' := Do(r', Run(t));
  }

  /** work() returns, and the thread stores Stopped; it has not finished yet. */
  lemma StoresStopped(r: Trace, t: nat) returns (r': Trace)
    requires Built(r) && t < |r.s.threads| && r.s.threads[t].pc == InWork && !r.s.crashed
    ensures Built(r') && r'.n == r.n && r'.h == r.h
    ensures r'.s.threads == r.s.threads[t := r.s.threads[t].(pc := ClearId)] && r'.s.state == Stopped && !r'.s.crashed
    ensures r'.s.controllers == r.s.controllers && r'.s.handle == r.s.handle
  {
    hide Built;
    r' := Do(r, LeaveWork(t));
    r' := Do(r', Run(t));
  }

  /** A stop(true), up to the point where it joins. */
  lemma ReachesJoin(r: Trace, c: nat) returns (r': Trace)
    requires Built(r) && c < |r.s.controllers| && r.s.controllers[c] == Idle && r.s.handle.Some? && !r.s.crashed
    ensures Built(r') && r'.n == r.n && r'.h == r.h.(oneByOne := r.h.oneByOne && NoWaitingStop(r.s))
    ensures r'.s.controllers == r.s.controllers[c := Join] && !r'.s.crashed
    ensures r'.s.threads == r.s.threads && r'.s.state == r.s.state && r'.s.handle == r.s.handle
  {
    hide Built;
    r' := RequestsStop(r, c);
    r' := Do(r', Control(c));
  }

  /** A stop(true), up to the point where it looks at thread_. */
  lemma RequestsStop(r: Trace, c: nat) returns (r': Trace)
    requires Built(r) && c < |r.s.controllers| && r.s.controllers[c] == Idle && !r.s.crashed
    ensures Built(r') && r'.n == r.n && r'.h == r.h.(oneByOne := r.h.oneByOne && NoWaitingStop(r.s))
    ensures r'.s.controllers == r.s.controllers[c := StopLoad(true)] && !r'.s.crashed
    ensures r'.s.threads == r.s.threads && r'.s.state == r.s.state && r'.s.handle == r.s.handle
  {
    hide Built;
    r' := Do(r, Begin(c, CallStop(true)));
    r' := Do(r', Control(c));
    if r'.s.controllers[c] == StopKick(true) {
      r' := Do(r', Control(c));
    }
  }

  /** The step that assigns the new thread to thread_, or ends the program. */
  lemma Assigns(r: Trace, c: nat) returns (r': Trace)
    requires Built(r) && c < |r.s.controllers| && r.s.controllers[c].Assign? && !r.s.crashed
    ensures Built(r') && r'.n == r.n
    ensures r'.h == r.h.(alternating := r.h.alternating && !r.h.owned, owned := true)
    ensures r'.s.crashed == (r.s.handle.Some? && r.s.handle.value.joinable)
    ensures r'.s.threads == r.s.threads && r'.s.state == r.s.state && r'.s.stopRequested == r.s.stopRequested
    ensures !r'.s.crashed ==>
              r'.s.controllers == r.s.controllers[c := Idle] && r'.s.handle == Some(Handle(r.s.controllers[c].thread, true))
  {
    hide Built;
    r' := Do(r, Control(c));
  }

  lemma Finishes(r: Trace, t: nat) returns (r': Trace)
    requires Built(r) && t < |r.s.threads| && r.s.threads[t].pc == ClearId && !r.s.crashed
    ensures Built(r') && r'.n == r.n && r'.h == r.h
    ensures r'.s.threads == r.s.threads[t := r.s.threads[t].(pc := Done)] && r'.s.state == r.s.state && !r'.s.crashed
    ensures r'.s.controllers == r.s.controllers && r'.s.handle == r.s.handle
  {
    hide Built;
    r' := Do(r, Run(t));
  }

  /** The join of a finished thread. */
  lemma Joins(r: Trace, c: nat) returns (r': Trace)
    requires Built(r) && c < |r.s.controllers| && r.s.controllers[c] == Join && !r.s.crashed && r.s.handle.Some?
    requires r.s.handle.value.thread < |r.s.threads| && r.s.threads[r.s.handle.value.thread].pc == Done
    ensures Enabled(r.s, Control(c)) && r'.s == Step(r.s, Control(c))
    ensures Built(r') && r'.n == r.n && r'.h == r.h
    ensures r'.s.crashed == !r.s.handle.value.joinable && r'.s.threads == r.s.threads
    ensures !r'.s.crashed ==>
              r'.s.controllers == r.s.controllers[c := Reset] && r'.s.handle == Some(r.s.handle.value.(joinable := false))
  {
    hide Built;
    r' := Do(r, Control(c));
  }

  lemma Resets(r: Trace, c: nat) returns (r': Trace)
    requires Built(r) && c < |r.s.controllers| && r.s.controllers[c] == Reset && !r.s.crashed
    requires r.s.handle.Some? && !r.s.handle.value.joinable
    ensures Built(r') && r'.n == r.n && r'.h == r.h.(unjoined := false, owned := false) && !r'.s.crashed
    ensures r'.s.controllers == r.s.controllers[c := Idle] && r'.s.handle == None
  {
    hide Built;
    r' := Do(r, Control(c));
  }

  /** One start, its thread inside work(). */
  lemma OneWorking(n: nat) returns (r: Trace)
    requires n > 0
    ensures Built(r) && r.n == n && r.h == History(true, true, true, true, true) && !r.s.crashed
    ensures r.s.threads == [Thread(InWork, false, false, 0)] && r.s.handle == Some(Handle(0, true))
    ensures r.s.controllers == seq(n, _ => Idle) && r.s.state == Started
  {
    r := Nothing(n);
    hide Built;
    r := Starts(r, 0);
    r := Assigns(r, 0);
    assert r.s.controllers == seq(n, _ => Idle);
    r := EntersWork(r, 0);
  }

  lemma Reaches(r: Trace)
    requires Built(r)
    ensures IsRun(Initially(r.n), r.run) && After(Initially(r.n), r.run) == r.s
    ensures r.h == HistoryOf(Initially(r.n), r.run)
  {}

  /** One caller, no race: start, work() returns, and start again ends the program. */
  lemma RestartWithoutJoinCrashes() returns (run: seq<Action>)
    ensures IsRun(Initially(1), run) && After(Initially(1), run).crashed
    ensures !Separated(Initially(1), run, false)
  {
    var r := OneWorking(1);
    hide Built, IsRun, After, Separated, Unjoined, Alternating, Owned, StopsOneByOne, Initially;
    r := StoresStopped(r, 0);
    r := Starts(r, 0);
    r := Assigns(r, 0);
    run := r.run;
    Reaches(r);
  }

  /** Two waiting stops in flight: the second joins a thread that has been joined, which ends the program,
      although there was only one start and one assignment. So stops that do not overlap are needed. */
  lemma OverlappingStopsCrash() returns (run: seq<Action>)
    ensures IsRun(Initially(2), run) && After(Initially(2), run).crashed
    ensures Separated(Initially(2), run, false) && Alternating(Initially(2), run, false)
  {
    var r := OneWorking(2);
    hide Built, IsRun, After, Separated, Unjoined, Alternating, Owned, StopsOneByOne, Initially;
    r := StoresStopped(r, 0);
    r := Finishes(r, 0);
    assert r.s.threads == [Thread(Done, false, false, 0)];
    r := ReachesJoin(r, 0);
    r := ReachesJoin(r, 1);
    assert r.s.controllers == [Join, Join];
    r := Joins(r, 0);
    r := Joins(r, 1);
    run := r.run;
    Reaches(r);
  }

  /** Caller 0 is joining a finished thread; caller 1 has created one that is at work, and not assigned it. */
  lemma ToJoinWithWorker() returns (r: Trace)
    ensures Built(r) && r.n == 2 && r.h == History(false, true, true, true, true) && !r.s.crashed
    ensures r.s.controllers == [Join, Assign(1)] && r.s.handle == Some(Handle(0, true))
    ensures r.s.threads == [Thread(Done, false, false, 0), Thread(InWork, false, false, 1)]
  {
    r := OneWorking(2);
    hide Built, Initially;
    hide ControlStep, ThreadStep, Step, Enabled;
    r := ReachesJoin(r, 0);
    assert r.s.controllers == [Join, Idle];
    r := StoresStopped(r, 0);
    assert r.s.threads == [Thread(ClearId, false, false, 0)];
    r := Starts(r, 1);
    r := EntersWork(r, 1);
    r := Finishes(r, 0);
  }

  /** Caller 0's join completes next, and leaves a worker inside work(). */
  ghost predicate JoinsBesideWorker(s: System) {
    && Enabled(s, Control(0)) && s.controllers[0] == Join && !Step(s, Control(0)).crashed
    && exists t: nat :: t < |Step(s, Control(0)).threads| && Step(s, Control(0)).threads[t].pc == InWork
  }

  /** A join completes while a worker is inside work(): it is the worker of a start by another caller that won
      as soon as the joined thread stored Stopped, and has not assigned thread_. */
  lemma JoinWithWorkerRunning() returns (run: seq<Action>)
    ensures IsRun(Initially(2), run) && JoinsBesideWorker(After(Initially(2), run))
  {
    var r := ToJoinWithWorker();
    hide Built, IsRun, After, Separated, Unjoined, Alternating, Owned, StopsOneByOne, Step, Enabled, Initially;
    run := r.run;
    Reaches(r);
    var r' := Joins(r, 0);
    assert r'.s.threads[1].pc == InWork;
  }

  /** When both calls of that run have returned nothing has ended the program: the starts were not separated by
      joins, but the assignments were. */
  lemma JoinWithWorkerEndsWell() returns (run: seq<Action>)
    ensures IsRun(Initially(2), run) && After(Initially(2), run).controllers == [Idle, Idle]
    ensures !After(Initially(2), run).crashed && !Separated(Initially(2), run, false)
    ensures StopsOneByOne(Initially(2), run) && Alternating(Initially(2), run, false)
  {
    var r := ToJoinWithWorker();
    hide Built, IsRun, After, Separated, Unjoined, Alternating, Owned, StopsOneByOne, Step, Enabled, Initially;
    r := Joins(r, 0);
    r := Resets(r, 0);
    r := Assigns(r, 1);
    run := r.run;
    Reaches(r);
  }
}
