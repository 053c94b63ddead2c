/** What the calls on the timer daemon do, what they give back, and what a call of
    RestoreTimerResolution does beside a running daemon. */
module TimerLaws {
  import opened Interleaving
  import opened TimerDaemon

  // ---- What the calls do ----------------------------------------------------------------------------

  /** Start on an idle object without a daemon: after its two steps there is one, and the flag is up. */
  lemma StartStarts(trace: seq<Action>, s: State)
    requires ReachesCarefully(trace, s) && s.control == Idle && !s.running
    ensures ControlStep(ControlStep(Apply(s, CallStart))) == s.(running := true, joinable := true, daemon := Launched)
  {
    hide ReachesCarefully, TimerInv;
    ReachableInv(trace, s);
  }

  /** A granted SetHighResolutionTimer leaves the request, the flag and the units it was granted. */
  lemma SetSets(s: State, units: nat, ms: nat)
    requires s.control == Idle
    ensures s.timer.native ==>
      ControlStep(ControlStep(Apply(s, CallSet(Native(units))))).timer
      == Timer(true, true, units, s.timer.calls + [Acquire(units)])
    ensures ControlStep(Apply(s, CallSet(Period(ms)))).timer
         == s.timer.(timerSet := true, calls := s.timer.calls + [Begin(ms)])
    ensures Apply(s, CallSet(Denied)) == s
  {
  }

  /** So does a granted request of the daemon, left alone. */
  lemma DaemonSets(s: State, units: nat, ms: nat, g: Grant)
    requires s.daemon == Launched
    ensures DaemonStep(DaemonStep(DaemonStep(s, Native(units)), g), g).timer
         == Timer(s.timer.native, true, units, s.timer.calls + [Acquire(units)])
    ensures DaemonStep(DaemonStep(s, Period(ms)), g).timer
         == s.timer.(timerSet := true, calls := s.timer.calls + [Begin(ms)])
    ensures DaemonStep(s, Denied).timer == s.timer
  {
  }

  /** RestoreTimerResolution gives up what the flag says was requested, and clears the flag. */
  lemma RestoreRestores(s: State)
    requires s.control == Idle && !s.destroying
    ensures RestoreAlone(s).control == Idle
    ensures RestoreAlone(s).timer ==
      if !s.timer.timerSet then s.timer
      else Timer(s.timer.native, false, s.timer.units,
                 s.timer.calls + (if s.timer.native then [Release(s.timer.units)] else []) + [End(1)])
  {
    assert s.timer.calls + [] == s.timer.calls;
  }

  /** A call of RestoreTimerResolution that no step of the daemon interrupts. */
  function RestoreAlone(s: State): State
    requires s.control == Idle
  {
    var t := ControlStep(Apply(s, CallRestore));
    if t.control == RestoreCall then ControlStep(ControlStep(ControlStep(t))) else t
  }

  /** So does the daemon at its end, left alone. */
  lemma DaemonRestores(s: State, g: Grant)
    requires s.daemon == Restoring
    ensures !s.timer.timerSet ==> DaemonStep(s, g) == s.(daemon := Finished)
    ensures s.timer.timerSet ==>
      DaemonStep(DaemonStep(DaemonStep(DaemonStep(s, g), g), g), g) == s.(daemon := Finished, timer :=
        Timer(s.timer.native, false, s.timer.units,
              s.timer.calls + (if s.timer.native then [Release(s.timer.units)] else []) + [End(1)]))
  {
    assert s.timer.calls + [] == s.timer.calls;
  }

  predicate InDestroy(s: State) {
    Inv(s) && s.destroying && (StopInProgress(s.control) || InRestore(s.control) || s.control == Gone)
  }

  lemma DestroyKeeps(s: State, a: Action)
    requires InDestroy(s) && NextInStop(s, a).At?
    ensures InDestroy(NextInStop(s, a).state)
  {
    StepKeepsInv(s, a);
  }

  /** Destruction never returns to the caller: until it is done there is always a step to take, of
      the destructor or of the daemon, and then no thread and no request is left. */
  lemma DestroyDestroys(trace: seq<Action>, s: State, steps: seq<Action>, t: State)
    requires ReachesCarefully(trace, s) && s.control == Idle
    requires Exec(Apply(s, Destroy), NextInStop, steps) == At(t)
    ensures t.control == Gone || Enabled(t, Control) || Enabled(t, Daemon(Denied))
    ensures t.control != Gone ==> StopInProgress(t.control) || InRestore(t.control)
    ensures t.control == Gone ==> t.daemon == Absent && !t.joinable && !t.timer.timerSet && !Held(t)
  {
    ReachableInv(trace, s);
    StepKeepsInv(s, Destroy);
    assert InDestroy(Apply(s, Destroy));
    forall s, a | InDestroy(s) && NextInStop(s, a).At? ensures InDestroy(NextInStop(s, a).state) { DestroyKeeps(s, a); }
    hide ReachesCarefully, NextInStop, Outstanding;
    Invariant(Apply(s, Destroy), NextInStop, InDestroy, steps);
  }

  /** The steps that can be taken during a call of Stop: those of the call and of the daemon. */
  function NextInStop(s: State, a: Action): Outcome<State> {
    if a == Control || a.Daemon? then Next(s, a) else Stuck
  }

  predicate InStop(s: State) {
    && Inv(s) && !s.destroying
    && (StopInProgress(s.control)
        || (s.control == Idle && !s.running && !s.joinable && s.daemon == Absent && !s.timer.timerSet && !Held(s)))
  }

  lemma StopKeeps(s: State, a: Action)
    requires InStop(s) && NextInStop(s, a).At?
    ensures InStop(NextInStop(s, a).state)
  {
    StepKeepsInv(s, a);
    hide Inv, Outstanding, DaemonStep;
    StopShape(s, a);
  }

  lemma StopShape(s: State, a: Action)
    requires InStop(s) && NextInStop(s, a).At?
    ensures var t := NextInStop(s, a).state;
            && !t.destroying
            && (StopInProgress(t.control)
                || (t.control == Idle && !t.running && !t.joinable && t.daemon == Absent
                    && !t.timer.timerSet && !Held(t)))
  {
    hide Outstanding;
  }

  /** Stop stops a running daemon: the call begins, and once it is back, whatever the daemon did
      meanwhile, the daemon has ended and been joined, the flags are down and no request is
      outstanding. */
  lemma StopStops(trace: seq<Action>, s: State, steps: seq<Action>, t: State)
    requires ReachesCarefully(trace, s) && s.control == Idle && s.running
    requires Exec(Apply(s, CallStop), NextInStop, steps) == At(t)
    ensures Apply(s, CallStop).control == StopStore
    ensures t.control == Idle ==>
      !t.running && !t.joinable && t.daemon == Absent && !t.timer.timerSet && !Held(t)
  {
    ReachableInv(trace, s);
    StepKeepsInv(s, CallStop);
    assert InStop(Apply(s, CallStop));
    forall s, a | InStop(s) && NextInStop(s, a).At? ensures InStop(NextInStop(s, a).state) { StopKeeps(s, a); }
    hide ReachesCarefully, Inv, NextInStop;
    Invariant(Apply(s, CallStop), NextInStop, InStop, steps);
  }

  // ---- What is given back ---------------------------------------------------------------------------

  /** A granted request whose units are not yet recorded. */
  predicate Pending(s: State) {
    s.control == SetFlag || s.control == SetUnits || s.daemon == Acquired || s.daemon == Flagged
  }

  predicate Requests(t: Timer, units: nat) { Acquire(units) in t.calls }

  /** Units about to be recorded were requested; and while a request is outstanding and none
      pending, so were the recorded ones. */
  predicate UnitsInv(s: State) {
    && (s.control == SetFlag || s.control == SetUnits ==> Requests(s.timer, s.granted))
    && (s.daemon == Acquired || s.daemon == Flagged ==> Requests(s.timer, UnitsOf(s.daemonGrant)))
    && (Held(s) && !Pending(s) ==> Requests(s.timer, s.timer.units))
    && (s.timer.units == 0 || Requests(s.timer, s.timer.units))
  }

  predicate FullInv(s: State) { Inv(s) && UnitsInv(s) }

  /** No step forgets a call. */
  lemma CallsGrow(t: Timer, g: Grant, units: nat)
    ensures Requests(t, units) ==> Requests(Requested(t, g), units)
    ensures Requests(t, units) ==> Requests(Restored(t), units) && Requests(Ended(t), units)
    ensures g.Native? ==> Requests(Requested(t, g), g.units)
    ensures Requested(t, g).units == Restored(t).units == Ended(t).units == t.units
  {
    if g.Native? { assert Requested(t, g).calls[|t.calls|] == Acquire(g.units); }
  }

  lemma StepKeepsUnits(s: State, a: Action)
    requires FullInv(s) && Enabled(s, a) && Careful(s, a)
    ensures UnitsInv(Apply(s, a))
  {
    match a
    case Control => ControlKeepsUnits(s);
    case Daemon(g) => DaemonKeepsUnits(s, g);
    case CallSet(g) => RequestKeepsUnits(s, g);
    case _ =>
  }

  lemma RequestKeepsUnits(s: State, g: Grant)
    requires FullInv(s) && Enabled(s, CallSet(g))
    ensures UnitsInv(Apply(s, CallSet(g)))
  {
    hide Outstanding, Requests, Requested, Inv;
    RequestedHeld(s.timer, g);
    CallsGrow(s.timer, g, s.timer.units);
    CallsGrow(s.timer, g, UnitsOf(s.daemonGrant));
  }

  lemma ControlKeepsUnits(s: State)
    requires FullInv(s) && Enabled(s, Control)
    ensures UnitsInv(ControlStep(s))
  {
    hide Outstanding, Requests, Restored, Ended, Requested;
    RestoredHeld(s.timer);
    CallsGrow(s.timer, Denied, s.timer.units);
    CallsGrow(s.timer, Denied, UnitsOf(s.daemonGrant));
    ValuesOnly(s.timer);
  }

  /** Writing the flag or the units makes no call. */
  lemma ValuesOnly(t: Timer)
    ensures forall b, u, v :: Requests(t.(timerSet := b), v) == Requests(t.(units := u), v) == Requests(t, v)
  {
  }

  lemma DaemonKeepsUnits(s: State, g: Grant)
    requires FullInv(s) && Enabled(s, Daemon(g))
    ensures UnitsInv(DaemonStep(s, g))
  {
    hide Outstanding, Requests, Restored, Ended, Requested;
    if Serving(s.daemon) { RequestedHeld(s.timer, g); } else { RestoredHeld(s.timer); }
    CallsGrow(s.timer, g, s.timer.units);
    CallsGrow(s.timer, g, s.granted);
    ValuesOnly(s.timer);
  }

  lemma ReachableUnits(trace: seq<Action>, s: State)
    requires ReachesCarefully(trace, s)
    ensures FullInv(s)
  {
    assert FullInv(Init(s.timer.native)) by { assert !Outstanding([]); }
    forall s, a | FullInv(s) && NextCareful(s, a).At?
      ensures FullInv(NextCareful(s, a).state)
    {
      StepKeepsInv(s, a);
      StepKeepsUnits(s, a);
    }
    hide FullInv, NextCareful;
    Invariant(Init(s.timer.native), NextCareful, FullInv, trace);
  }

  /** The step gives the native request up. */
  predicate GivesUp(s: State, a: Action) {
    Enabled(s, a) && ((s.daemon == Releasing && a.Daemon?) || (s.control == RestoreCall && a == Control))
  }

  /** Nothing is given up before something was requested: on a new object RestoreTimerResolution
      makes no call, and no units are recorded ever but those of a request. */
  lemma NothingRestoredFirst(native: bool, trace: seq<Action>, s: State)
    requires ReachesCarefully(trace, s)
    ensures RestoreAlone(Init(native)) == Init(native)
    ensures s.timer.units == 0 || Acquire(s.timer.units) in s.timer.calls
  {
    hide ReachesCarefully;
    ReachableUnits(trace, s);
  }

  /** An outstanding request is given up with the units of a request that was made. */
  lemma ReleaseCarriesRequest(trace: seq<Action>, s: State, a: Action)
    requires ReachesCarefully(trace, s) && GivesUp(s, a) && Held(s)
    ensures Apply(s, a).timer.calls == s.timer.calls + [Release(s.timer.units)]
    ensures Acquire(s.timer.units) in s.timer.calls
  {
    hide ReachesCarefully, Outstanding;
    ReachableUnits(trace, s);
  }

  /** Without calls of SetHighResolutionTimer by the controlling thread. */
  function NextQuiet(s: State, a: Action): Outcome<State> {
    if a.CallSet? then Stuck else NextCareful(s, a)
  }

  predicate QuietInv(s: State) {
    && Inv(s) && s.control != SetFlag && s.control != SetUnits && s.control != SetPeriod
    && (Holding(s.daemon) && s.daemon != Acquired && s.daemon != Flagged && s.daemonGrant.Native?
        ==> s.timer.units == s.daemonGrant.units)
  }

  lemma StepKeepsQuiet(s: State, a: Action)
    requires QuietInv(s) && NextQuiet(s, a).At?
    ensures QuietInv(NextQuiet(s, a).state)
  {
    StepKeepsInv(s, a);
    hide Inv, Requested;
    InvShape(s);
  }

  lemma InvShape(s: State)
    requires Inv(s)
    ensures s.daemon == Acquired || s.daemon == Flagged ==> s.daemonGrant.Native?
    ensures s.daemon == Begun ==> s.daemonGrant.Period?
    ensures InRestore(s.control) || s.control == StartLaunch ==> s.daemon == Absent
  {
  }

  /** Then the daemon gives up exactly what it was granted. */
  lemma ReleaseIsTheGrant(trace: seq<Action>, s: State, units: nat, g: Grant)
    requires Exec(Init(s.timer.native), NextQuiet, trace) == At(s)
    requires s.daemon == Releasing && s.daemonGrant == Native(units) && Enabled(s, Daemon(g))
    ensures DaemonStep(s, g).timer.calls == s.timer.calls + [Release(units)]
    ensures Held(s)
  {
    assert QuietInv(Init(s.timer.native)) by { assert !Outstanding([]); }
    forall s, a | QuietInv(s) && NextQuiet(s, a).At? ensures QuietInv(NextQuiet(s, a).state) { StepKeepsQuiet(s, a); }
    hide NextQuiet, Outstanding;
    Invariant(Init(s.timer.native), NextQuiet, QuietInv, trace);
  }

  // ---- RestoreTimerResolution while the daemon is running -----------------------------------------

  /** The daemon's request, if it was granted natively and not given up by the daemon, is in force. */
  predicate Locked(s: State) {
    Holding(s.daemon) && s.daemonGrant.Native? ==> Held(s)
  }

  /** Such a call takes the lock away from the daemon exactly when the daemon holds a native
      request and the flag says so. */
  lemma RestoreUnlocksIff(trace: seq<Action>, s: State)
    requires ReachesCarefully(trace, s) && s.control == Idle && !s.destroying
    ensures !Locked(RestoreAlone(s))
       <==> Holding(s.daemon) && s.daemonGrant.Native? && s.timer.timerSet
  {
    hide ReachesCarefully, Outstanding, Restored, Ended;
    ReachableInv(trace, s);
    RestoredHeld(s.timer);
    RestoredHeld(Restored(s.timer));
  }

  lemma Extended(trace: seq<Action>, s: State, a: Action) returns (more: seq<Action>, t: State)
    requires Reaches(trace, s) && Enabled(s, a)
    ensures t == Apply(s, a) && Reaches(more, t)
  {
    ExecMore(Init(s.timer.native), Next, trace, a);
    more, t := trace + [a], Apply(s, a);
    NativeKept(s, a);
  }

  lemma NativeKept(s: State, a: Action)
    requires Enabled(s, a)
    ensures Apply(s, a).timer.native == s.timer.native
  {
  }

  /** The controlling thread sets the resolution and starts the daemon. */
  lemma SetAndStart() returns (trace: seq<Action>, s: State)
    ensures Reaches(trace, s)
    ensures s == State(true, true, Timer(true, true, 5000, [Acquire(5000)]), 5000, Denied, false, false, Idle, Launched)
  {
    hide Reaches;
    trace, s := [], Init(true);
    assert Reaches(trace, s) by { Nowhere(true); }
    trace, s := Extended(trace, s, CallSet(Native(5000)));
    trace, s := Extended(trace, s, Control);
    trace, s := Extended(trace, s, Control);
    trace, s := Extended(trace, s, CallStart);
    trace, s := Extended(trace, s, Control);
    trace, s := Extended(trace, s, Control);
  }

  lemma Nowhere(native: bool)
    ensures Reaches([], Init(native))
  {
  }

  /** It restores; before it clears the flag, the daemon makes its request and sets the flag. */
  lemma RestoreInterrupted() returns (trace: seq<Action>, s: State, calls: seq<Call>)
    ensures Reaches(trace, s)
    ensures s == State(true, true, Timer(true, true, 5000, calls + [Acquire(5000)]), 5000, Native(5000), false, false,
                       RestoreClear, Polling)
  {
    hide Reaches;
    trace, s := SetAndStart();
    trace, s := Extended(trace, s, CallRestore);
    trace, s := Extended(trace, s, Control);
    trace, s := Extended(trace, s, Control);
    trace, s := Extended(trace, s, Control);
    calls := s.timer.calls;
    trace, s := Extended(trace, s, Daemon(Native(5000)));
    trace, s := Extended(trace, s, Daemon(Native(5000)));
    trace, s := Extended(trace, s, Daemon(Native(5000)));
  }

  /** Interrupted by the daemon it can do worse: the flag of the daemon's new request is cleared
      with the old one, and that request outlives the daemon. */
  lemma RestoreCanLeak()
    ensures exists trace, s :: Reaches(trace, s) && s.control == Idle && s.daemon == Absent && Held(s)
  {
    hide Reaches, Outstanding;
    var trace, s, calls := RestoreInterrupted();
    OneMoreCall(calls, Acquire(5000));
    trace, s := Extended(trace, s, Control);
    trace, s := Extended(trace, s, CallStop);
    trace, s := Extended(trace, s, Control);
    trace, s := Extended(trace, s, Daemon(Denied));
    trace, s := Extended(trace, s, Daemon(Denied));
    trace, s := Extended(trace, s, Control);
  }
}
