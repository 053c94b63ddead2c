/** The life of the relay's worker thread: one controlling thread that calls Start and Stop and
    finally destroys the object, and the worker it launches, interleaved step by step. The worker
    may end by itself, when it gets no socket or cannot bind it. */
module RelayLifecycle {
  import opened Interleaving

  datatype WorkerPc =
    | Absent
    | Opening        // socket and bind
    | Failing        // about to clear m_running itself
    | Looping        // about to test m_running
    | Finished       // ended, not yet joined

  datatype ControlPc =
    | Idle
    | StartStore | StartReset | StartLaunch
    | StopStore | StopJoin
    | DestroyThread
    | Gone

  datatype State = State(
    running: bool, joinable: bool,
    crashed: bool,             // a joinable thread object was overwritten or destroyed
    alone: bool,               // a worker has ended by itself while no Stop was waiting for it
    destroying: bool,
    control: ControlPc, worker: WorkerPc)

  const INIT := State(false, false, false, false, false, Idle, Absent)

  datatype Action = CallStart | CallStop | Destroy | Control | Worker(bound: bool)

  predicate StopInProgress(c: ControlPc) { c == StopStore || c == StopJoin }

  predicate Enabled(s: State, a: Action) {
    && !s.crashed
    && match a
       case CallStart => s.control == Idle
       case CallStop => s.control == Idle
       case Destroy => s.control == Idle
       case Control => s.control != Idle && s.control != Gone && (s.control == StopJoin ==> s.worker == Finished)
       case Worker(_) => s.worker != Absent && s.worker != Finished
  }

  /** After Stop: back to the caller, or on with the destruction of the members. */
  function AfterStop(s: State): ControlPc {
    if s.destroying then DestroyThread else Idle
  }

  function Apply(s: State, a: Action): State
    requires Enabled(s, a)
  {
    match a
    case CallStart => if s.running then s else s.(control := StartStore)
    case CallStop => if s.running then s.(control := StopStore) else s
    case Destroy => s.(destroying := true, control := if s.running then StopStore else DestroyThread)
    case Control => ControlStep(s)
    case Worker(bound) => WorkerStep(s, bound)
  }

  function ControlStep(s: State): State {
    match s.control
    case StartStore => s.(running := true, control := StartReset)
    case StartReset => s.(control := StartLaunch)
    case StartLaunch => s.(joinable := true, crashed := s.joinable, worker := Opening, control := Idle)
    case StopStore => var t := s.(running := false); t.(control := if s.joinable then StopJoin else AfterStop(t))
    case StopJoin => s.(joinable := false, worker := Absent, control := AfterStop(s))
    case DestroyThread => s.(crashed := s.joinable, control := Gone)
    case _ => s
  }

  function WorkerStep(s: State, bound: bool): State {
    match s.worker
    case Opening => s.(worker := if bound then Looping else Failing)
    case Failing => s.(running := false, alone := s.alone || !StopInProgress(s.control), worker := Finished)
    case Looping => if s.running then s else s.(worker := Finished)
    case _ => s
  }

  function Next(s: State, a: Action): Outcome<State> {
    if Enabled(s, a) then At(Apply(s, a)) else Stuck
  }

  predicate Reaches(trace: seq<Action>, s: State) { Exec(INIT, Next, trace) == At(s) }

  /** What every step of every interleaving keeps. */
  predicate Inv(s: State) {
    && (s.crashed ==> s.alone)
    && (!s.crashed ==>
          && (s.joinable <==> s.worker != Absent)
          && (s.alone ==> s.joinable && s.worker == Finished && !StopInProgress(s.control) && s.control != Gone)
          && match s.control
             case Idle => s.running <==> s.joinable && !s.alone
             case StartStore => !s.running && (s.joinable <==> s.alone)
             case StartReset => s.running && (s.joinable <==> s.alone)
             case StartLaunch => s.running && (s.joinable <==> s.alone)
             case StopStore => s.joinable
             case StopJoin => s.joinable && !s.running
             case DestroyThread => !s.running && (s.joinable <==> s.alone)
             case Gone => !s.joinable)
  }

  lemma StepKeepsInv(s: State, a: Action)
    requires Inv(s) && Enabled(s, a)
    ensures Inv(Apply(s, a))
  {
  }

  lemma ReachableInv(trace: seq<Action>, s: State)
    requires Reaches(trace, s)
    ensures Inv(s)
  {
    forall s, a | Inv(s) && Next(s, a).At? ensures Inv(Next(s, a).state) { StepKeepsInv(s, a); }
    Invariant(INIT, Next, Inv, trace);
  }

  /** A run that is over, by destruction or by a crash, has crashed exactly if a worker ended by
      itself with no Stop waiting for it. */
  lemma CrashesIff(trace: seq<Action>, s: State)
    requires Reaches(trace, s) && (s.control == Gone || s.crashed)
    ensures s.crashed <==> s.alone
    ensures !s.crashed ==> !s.joinable && s.worker == Absent
  {
    ReachableInv(trace, s);
  }

  /** Between calls this shows from outside: `IsRunning()` is false although a thread was started
      and never joined. Then Stop does nothing, and the next Start or the destruction ends the
      process; if there is no such thread neither does. */
  lemma NextCallCrashesIff(trace: seq<Action>, s: State)
    requires Reaches(trace, s) && s.control == Idle && !s.crashed
    ensures s.alone <==> s.joinable && !s.running
    ensures !s.running ==>
      && Apply(s, CallStop) == s
      && (ControlStep(ControlStep(ControlStep(Apply(s, CallStart)))).crashed <==> s.joinable)
      && (ControlStep(Apply(s, Destroy)).crashed <==> s.joinable)
  {
    ReachableInv(trace, s);
  }

  lemma Extended(trace: seq<Action>, s: State, a: Action) returns (more: seq<Action>, t: State)
    requires Reaches(trace, s) && Enabled(s, a)
    ensures t == Apply(s, a) && Reaches(more, t)
  {
    ExecMore(INIT, Next, trace, a);
    more, t := trace + [a], Apply(s, a);
  }

  /** It does happen: Start, the worker gets no socket, and the object is destroyed. */
  lemma CrashHappens()
    ensures exists trace, s :: Reaches(trace, s) && s.crashed
  {
    var trace: seq<Action>, s := [], INIT;
    assert Reaches(trace, s);
    hide Reaches;
    trace, s := Extended(trace, s, CallStart);
    trace, s := Extended(trace, s, Control);
    trace, s := Extended(trace, s, Control);
    trace, s := Extended(trace, s, Control);
    trace, s := Extended(trace, s, Worker(false));
    trace, s := Extended(trace, s, Worker(false));
    trace, s := Extended(trace, s, Destroy);
    trace, s := Extended(trace, s, Control);
  }

  /** Start on an idle object without a thread: after its three steps, whatever the worker could do
      in between, there is an active worker and the flag is up. */
  lemma StartStarts(trace: seq<Action>, s: State)
    requires Reaches(trace, s) && s.control == Idle && !s.crashed && !s.running && !s.joinable
    ensures var t := ControlStep(ControlStep(ControlStep(Apply(s, CallStart))));
            t == s.(running := true, joinable := true, worker := Opening)
    ensures var t := Apply(s, CallStart);
            t.control != Idle && forall a :: Enabled(t, a) ==> a == Control
  {
    ReachableInv(trace, s);
  }

  /** While it is active Start is refused, and the worker goes on as long as the flag is up. */
  lemma ActiveStays(s: State)
    requires s.control == Idle && !s.crashed && s.running
    ensures Apply(s, CallStart) == s
    ensures s.worker == Looping ==> forall b :: Apply(s, Worker(b)) == s
    ensures s.worker == Opening ==> Apply(s, Worker(true)) == s.(worker := Looping)
  {
  }

  /** The steps that can be taken during a call of Stop: those of the call and of the worker. */
  function NextInStop(s: State, a: Action): Outcome<State> {
    if a == Control || a.Worker? then Next(s, a) else Stuck
  }

  predicate InStop(s: State) {
    && Inv(s) && !s.crashed && !s.alone && !s.destroying
    && (StopInProgress(s.control) || (s.control == Idle && !s.running && !s.joinable && s.worker == Absent))
  }

  /** Stop stops a running relay: the call begins, and once it is back, whatever the worker did
      meanwhile, the flag is down and the worker has ended and been joined. */
  lemma StopStops(trace: seq<Action>, s: State, steps: seq<Action>, t: State)
    requires Reaches(trace, s) && s.control == Idle && !s.crashed && s.running
    requires Exec(Apply(s, CallStop), NextInStop, steps) == At(t)
    ensures Apply(s, CallStop).control == StopStore
    ensures t.control == Idle ==> !t.running && !t.joinable && t.worker == Absent && !t.alone
  {
    ReachableInv(trace, s);
    NotDestroying(trace, s);
    assert InStop(Apply(s, CallStop));
    forall s, a | InStop(s) && NextInStop(s, a).At? ensures InStop(NextInStop(s, a).state) { StepKeepsInv(s, a); }
    Invariant(Apply(s, CallStop), NextInStop, InStop, steps);
  }

  lemma NotDestroying(trace: seq<Action>, s: State)
    requires Reaches(trace, s)
    ensures AliveInv(s)
  {
    forall s, a | AliveInv(s) && Next(s, a).At? ensures AliveInv(Next(s, a).state) { }
    Invariant(INIT, Next, AliveInv, trace);
  }

  predicate InDestroy(s: State) {
    && Inv(s) && s.destroying && (s.crashed ==> s.control == Gone)
    && (StopInProgress(s.control) || s.control == DestroyThread || s.control == Gone)
  }

  lemma DestroyKeeps(s: State, a: Action)
    requires InDestroy(s) && NextInStop(s, a).At?
    ensures InDestroy(NextInStop(s, a).state)
  {
    StepKeepsInv(s, a);
  }

  lemma DestroyBegins(s: State)
    requires Inv(s) && s.control == Idle && !s.crashed
    ensures Enabled(s, Destroy) && InDestroy(Apply(s, Destroy))
  {
  }

  lemma DestroyGoesOn(t: State, bound: bool)
    requires InDestroy(t)
    ensures t.control == Gone || Enabled(t, Control) || Enabled(t, Worker(bound))
    ensures t.control != Gone ==> StopInProgress(t.control) || t.control == DestroyThread
    ensures t.control == Gone ==> (t.crashed <==> t.alone) && (!t.alone ==> !t.joinable && t.worker == Absent)
  {
  }

  /** Destruction never returns to the caller: until it is done there is always a step to take, of
      the destructor or of the worker, and if no worker has ended by itself before, none is left. */
  lemma DestroyDestroys(trace: seq<Action>, s: State, steps: seq<Action>, t: State, bound: bool)
    requires Reaches(trace, s) && s.control == Idle && !s.crashed
    requires Exec(Apply(s, Destroy), NextInStop, steps) == At(t)
    ensures t.control == Gone || Enabled(t, Control) || Enabled(t, Worker(bound))
    ensures t.control != Gone ==> StopInProgress(t.control) || t.control == DestroyThread
    ensures t.control == Gone ==> (t.crashed <==> t.alone) && (!t.alone ==> !t.joinable && t.worker == Absent)
  {
    hide Reaches, NextInStop, InDestroy, Inv, Enabled, Apply;
    ReachableInv(trace, s);
    DestroyBegins(s);
    forall s, a | InDestroy(s) && NextInStop(s, a).At? ensures InDestroy(NextInStop(s, a).state) { DestroyKeeps(s, a); }
    Invariant(Apply(s, Destroy), NextInStop, InDestroy, steps);
    DestroyGoesOn(t, bound);
  }

  /** Once destruction has begun no other call is made. */
  predicate AliveInv(s: State) {
    s.destroying ==> StopInProgress(s.control) || s.control == DestroyThread || s.control == Gone
  }

  /** Worker steps left once the flag is down. */
  function StepsLeft(w: WorkerPc): nat {
    match w
    case Opening => 2
    case Failing => 1
    case Looping => 1
    case Finished => 0
    case Absent => 0
  }

  /** Stop always returns: while it waits only the worker moves, at most twice, and then the join
      goes through. */
  lemma StopTerminates(trace: seq<Action>, s: State, bound: bool)
    requires Reaches(trace, s) && s.control == StopJoin
    ensures Enabled(s, Control) <==> StepsLeft(s.worker) == 0
    ensures Enabled(s, Control) ==> Apply(s, Control).control == if s.destroying then DestroyThread else Idle
    ensures forall a :: Enabled(s, a) ==> a == Control || a.Worker?
    ensures StepsLeft(s.worker) > 0 ==>
      && Enabled(s, Worker(bound))
      && var t := Apply(s, Worker(bound));
         t.control == StopJoin && StepsLeft(t.worker) < StepsLeft(s.worker)
  {
    ReachableInv(trace, s);
  }
}
