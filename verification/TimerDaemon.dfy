/** The timer-resolution daemon: one controlling thread that calls Start, Stop,
    SetHighResolutionTimer and RestoreTimerResolution and finally destroys the object, and the
    daemon thread it launches, interleaved step by step. A request for the resolution is granted
    by the native call, or by the multimedia timer as a fallback, or not at all. */
module TimerDaemon {
  import opened Interleaving

  /** The calls that succeed: the native function to request a resolution or give one up,
      timeBeginPeriod and timeEndPeriod. */
  datatype Call = Acquire(units: nat) | Release(units: nat) | Begin(period: nat) | End(period: nat)

  /** What became of a request. */
  datatype Grant = Native(units: nat) | Period(ms: nat) | Denied

  /** Where the daemon thread is; `Absent` when there is no thread object to join. */
  datatype DaemonPc =
    | Absent
    | Launched       // about to call SetHighResolutionTimer
    | Acquired       // granted natively, m_timerSet not yet written
    | Flagged        // m_timerSet written, m_actualResolutionUnits not yet
    | Begun          // granted by the fallback, m_timerSet not yet written
    | Polling        // about to test m_daemonRunning
    | Sleeping
    | Restoring      // in RestoreTimerResolution, about to test m_timerSet
    | Releasing      // about to make the native call
    | Ending         // about to call timeEndPeriod
    | Clearing       // about to clear m_timerSet
    | Finished       // ended, not yet joined

  /** Where the controlling thread is; `Idle` between calls. */
  datatype ControlPc =
    | Idle
    | StartStore | StartLaunch                                   // StartTimerDaemon
    | SetFlag | SetUnits | SetPeriod                             // SetHighResolutionTimer
    | StopStore | StopJoin                                       // StopTimerDaemon
    | RestoreTest | RestoreCall | RestoreEnd | RestoreClear      // RestoreTimerResolution
    | Gone

  /** What RestoreTimerResolution goes by, and the successful calls so far; `native` says whether
      the native function was found. */
  datatype Timer = Timer(native: bool, timerSet: bool, units: nat, calls: seq<Call>)

  datatype State = State(
    running: bool, joinable: bool, timer: Timer,
    granted: nat,              // units granted to the controlling thread in its call in progress
    daemonGrant: Grant,        // what became of the daemon's request
    destroying: bool,
    crashed: bool,             // a joinable thread object was overwritten or destroyed
    control: ControlPc, daemon: DaemonPc)

  function Init(native: bool): State {
    State(false, false, Timer(native, false, 0, []), 0, Denied, false, false, Idle, Absent)
  }

  function UnitsOf(g: Grant): nat { if g.Native? then g.units else 0 }

  /** Which thread moves, and what becomes of a request where one is made. */
  datatype Action =
    | CallStart | CallStop | CallSet(grant: Grant) | CallRestore | Destroy | Control | Daemon(grant: Grant)

  predicate Possible(s: State, g: Grant) { g.Native? ==> s.timer.native }

  predicate Enabled(s: State, a: Action) {
    match a
    case CallStart => s.control == Idle
    case CallStop => s.control == Idle
    case CallSet(g) => s.control == Idle && Possible(s, g)
    case CallRestore => s.control == Idle
    case Destroy => s.control == Idle
    case Control => s.control != Idle && s.control != Gone && (s.control == StopJoin ==> s.daemon == Finished)
    case Daemon(g) => s.daemon != Absent && s.daemon != Finished && Possible(s, g)
  }

  /** After StopTimerDaemon returns: back to the caller, or on with the destructor. */
  function AfterStop(s: State): ControlPc {
    if s.destroying then RestoreTest else Idle
  }

  /** After a request. */
  function Requested(t: Timer, g: Grant): Timer {
    match g
    case Native(units) => t.(calls := t.calls + [Acquire(units)])
    case Period(ms) => t.(calls := t.calls + [Begin(ms)])
    case Denied => t
  }

  /** After the native call of RestoreTimerResolution, which is made if there is one. */
  function Restored(t: Timer): Timer {
    if t.native then t.(calls := t.calls + [Release(t.units)]) else t
  }

  /** After its second call. */
  function Ended(t: Timer): Timer { t.(calls := t.calls + [End(1)]) }

  function Apply(s: State, a: Action): (t: State)
    requires Enabled(s, a)
    ensures t.timer.native == s.timer.native
  {
    match a
    case CallStart => if s.running then s else s.(control := StartStore)
    case CallStop => if s.running then s.(control := StopStore) else s
    case CallSet(g) =>
      var t := s.(timer := Requested(s.timer, g));
      (match g
       case Native(units) => t.(granted := units, control := SetFlag)
       case Period(_) => t.(control := SetPeriod)
       case Denied => t)
    case CallRestore => s.(control := RestoreTest)
    case Destroy =>
      var t := s.(destroying := true);
      if s.running then t.(control := StopStore) else t.(control := AfterStop(t))
    case Control => ControlStep(s)
    case Daemon(g) => DaemonStep(s, g)
  }

  function ControlStep(s: State): (t: State)
    requires Enabled(s, Control)
    ensures t.timer.native == s.timer.native
  {
    match s.control
    case StartStore => s.(running := true, control := StartLaunch)
    case StartLaunch => s.(joinable := true, crashed := s.crashed || s.joinable, daemon := Launched, control := Idle)
    case SetFlag => s.(timer := s.timer.(timerSet := true), control := SetUnits)
    case SetUnits => s.(timer := s.timer.(units := s.granted), control := Idle)
    case SetPeriod => s.(timer := s.timer.(timerSet := true), control := Idle)
    case StopStore => var t := s.(running := false); t.(control := if s.joinable then StopJoin else AfterStop(t))
    case StopJoin => s.(joinable := false, daemon := Absent, control := AfterStop(s))
    case RestoreTest => if s.timer.timerSet then s.(control := RestoreCall) else AfterRestore(s)
    case RestoreCall => s.(timer := Restored(s.timer), control := RestoreEnd)
    case RestoreEnd => s.(timer := Ended(s.timer), control := RestoreClear)
    case RestoreClear => AfterRestore(s.(timer := s.timer.(timerSet := false)))
    case _ => s
  }

  /** After RestoreTimerResolution returns: back to the caller, or on with the destructor. */
  function AfterRestore(s: State): State {
    if s.destroying then Destroyed(s) else s.(control := Idle)
  }

  /** The thread member is destroyed last; if it were still joinable the process would end. */
  function Destroyed(s: State): State {
    s.(control := Gone, crashed := s.crashed || s.joinable)
  }

  function DaemonStep(s: State, g: Grant): (t: State)
    ensures t.timer.native == s.timer.native
  {
    match s.daemon
    case Launched =>
      s.(timer := Requested(s.timer, g), daemonGrant := g,
         daemon := if g.Native? then Acquired else if g.Period? then Begun else Polling)
    case Acquired => s.(timer := s.timer.(timerSet := true), daemon := Flagged)
    case Flagged => s.(timer := s.timer.(units := UnitsOf(s.daemonGrant)), daemon := Polling)
    case Begun => s.(timer := s.timer.(timerSet := true), daemon := Polling)
    case Polling => s.(daemon := if s.running then Sleeping else Restoring)
    case Sleeping => s.(daemon := Polling)
    case Restoring => s.(daemon := if s.timer.timerSet then Releasing else Finished)
    case Releasing => s.(timer := Restored(s.timer), daemon := Ending)
    case Ending => s.(timer := Ended(s.timer), daemon := Clearing)
    case Clearing => s.(timer := s.timer.(timerSet := false), daemon := Finished)
    case _ => s
  }

  function Next(s: State, a: Action): Outcome<State> {
    if Enabled(s, a) then At(Apply(s, a)) else Stuck
  }

  /** RestoreTimerResolution is not called while the daemon is running. */
  predicate Careful(s: State, a: Action) { a == CallRestore ==> !s.running }

  function NextCareful(s: State, a: Action): Outcome<State> {
    if Careful(s, a) then Next(s, a) else Stuck
  }

  /** By any steps at all. */
  predicate Reaches(trace: seq<Action>, s: State) { Exec(Init(s.timer.native), Next, trace) == At(s) }

  /** By steps of which none calls RestoreTimerResolution while the daemon is running. */
  predicate ReachesCarefully(trace: seq<Action>, s: State) {
    Exec(Init(s.timer.native), NextCareful, trace) == At(s)
  }

  /** The last native call was a request. */
  predicate Outstanding(calls: seq<Call>) {
    calls != []
    && match calls[|calls| - 1]
       case Acquire(_) => true
       case Release(_) => false
       case _ => Outstanding(calls[..|calls| - 1])
  }

  predicate Held(s: State) { Outstanding(s.timer.calls) }

  lemma OneMoreCall(calls: seq<Call>, c: Call)
    ensures Outstanding(calls + [c]) <==> c.Acquire? || (!c.Release? && Outstanding(calls))
  {
    assert (calls + [c])[..|calls|] == calls;
  }

  /** The daemon has not yet begun to restore. */
  predicate Serving(d: DaemonPc) {
    d == Launched || d == Acquired || d == Flagged || d == Begun || d == Polling || d == Sleeping
  }

  /** The daemon has made its request and not yet given it up. */
  predicate Holding(d: DaemonPc) {
    (Serving(d) && d != Launched) || d == Restoring || d == Releasing
  }

  predicate InRestore(c: ControlPc) {
    c == RestoreTest || c == RestoreCall || c == RestoreEnd || c == RestoreClear
  }

  predicate StopInProgress(c: ControlPc) { c == StopStore || c == StopJoin }

  /** What every step of every interleaving keeps: the threads. */
  predicate ThreadsInv(s: State) {
    && !s.crashed
    && (s.joinable <==> s.daemon != Absent)
    && (s.running <==> s.control == StartLaunch || (s.joinable && s.control != StopJoin))
    && (s.daemon == Absent ==> s.control != StopStore && s.control != StopJoin)
    && (s.control == StartStore || s.control == StartLaunch ==> s.daemon == Absent)
    && (InRestore(s.control) ==> s.daemon == Absent)
    && (s.control == Gone ==> s.daemon == Absent && s.destroying)
    && (s.destroying ==> StopInProgress(s.control) || InRestore(s.control) || s.control == Gone)
    // the daemon restores only while Stop waits for it
    && (!Serving(s.daemon) && s.daemon != Absent ==> s.control == StopJoin)
  }

  /** And the timer. */
  predicate TimerInv(s: State) {
    && (Held(s) ==> s.timer.native)
    && (s.daemon == Acquired || s.daemon == Flagged ==> s.daemonGrant.Native?)
    && (s.daemon == Begun ==> s.daemonGrant.Period?)
    // from the daemon's own request until it clears the flag, the flag is set
    && (Holding(s.daemon) && s.daemonGrant.Native? ==> Held(s))
    && (Holding(s.daemon) && !s.daemonGrant.Denied? ==> s.timer.timerSet || s.daemon == Acquired || s.daemon == Begun)
    && (s.daemon == Releasing || s.daemon == Ending || s.daemon == Clearing ==> s.timer.timerSet)
    && (s.daemon == Ending || s.daemon == Clearing || s.daemon == Finished ==> !Held(s))
    && (s.daemon == Finished ==> !s.timer.timerSet)
    // a request is never forgotten: either the flag is set or its owner is about to set it
    && (Held(s) ==> s.timer.timerSet || s.control == SetFlag || s.daemon == Acquired)
    && (s.control == RestoreCall ==> s.timer.timerSet)
    && (s.control == RestoreEnd || s.control == RestoreClear ==> !Held(s) && s.timer.timerSet)
    && (s.control == Gone ==> !s.timer.timerSet && !Held(s))
  }

  predicate Inv(s: State) { ThreadsInv(s) && TimerInv(s) }

  lemma StepKeepsInv(s: State, a: Action)
    requires Inv(s) && Enabled(s, a) && Careful(s, a)
    ensures Inv(Apply(s, a))
  {
    StepKeepsThreads(s, a);
    match a
    case Control => ControlKeepsTimer(s);
    case Daemon(g) => DaemonKeepsTimer(s, g);
    case CallSet(g) => RequestedHeld(s.timer, g);
    case _ =>
  }

  lemma StepKeepsThreads(s: State, a: Action)
    requires ThreadsInv(s) && Enabled(s, a) && Careful(s, a)
    ensures ThreadsInv(Apply(s, a))
  {
    match a
    case Control => ControlKeepsThreads(s);
    case Daemon(g) => DaemonKeepsThreads(s, g);
    case CallSet(g) => hide Requested;
    case _ =>
  }

  lemma ControlKeepsThreads(s: State)
    requires ThreadsInv(s) && Enabled(s, Control)
    ensures ThreadsInv(ControlStep(s))
  {
    hide Restored;
  }

  lemma DaemonKeepsThreads(s: State, g: Grant)
    requires ThreadsInv(s) && Enabled(s, Daemon(g))
    ensures ThreadsInv(DaemonStep(s, g))
  {
    hide Restored, Requested;
  }

  lemma RequestedHeld(t: Timer, g: Grant)
    ensures Outstanding(Requested(t, g).calls) <==> g.Native? || Outstanding(t.calls)
    ensures Requested(t, g).timerSet == t.timerSet && Requested(t, g).native == t.native
  {
    hide Outstanding;
    match g
    case Native(units) => OneMoreCall(t.calls, Acquire(units));
    case Period(ms) => OneMoreCall(t.calls, Begin(ms));
    case Denied =>
  }

  lemma RestoredHeld(t: Timer)
    requires Outstanding(t.calls) ==> t.native
    ensures !Outstanding(Restored(t).calls)
    ensures Restored(t).timerSet == t.timerSet && Restored(t).native == t.native
    ensures Outstanding(Ended(t).calls) <==> Outstanding(t.calls)
  {
    hide Outstanding;
    OneMoreCall(t.calls, Release(t.units));
    OneMoreCall(t.calls, End(1));
  }

  lemma ControlKeepsTimer(s: State)
    requires Inv(s) && Enabled(s, Control)
    ensures TimerInv(ControlStep(s))
  {
    hide TimerInv, ControlStep, Restored;
    if InRestore(s.control) { RestoreKeepsTimer(s); } else { CallsKeepTimer(s); }
  }

  lemma CallsKeepTimer(s: State)
    requires Inv(s) && Enabled(s, Control) && !InRestore(s.control)
    ensures TimerInv(ControlStep(s))
  {
    hide Outstanding, Restored;
  }

  lemma RestoreKeepsTimer(s: State)
    requires Inv(s) && Enabled(s, Control) && InRestore(s.control)
    ensures TimerInv(ControlStep(s))
  {
    hide Outstanding, Restored;
    RestoredHeld(s.timer);
  }

  lemma DaemonKeepsTimer(s: State, g: Grant)
    requires Inv(s) && Enabled(s, Daemon(g))
    ensures TimerInv(DaemonStep(s, g))
  {
    hide Outstanding, Restored, Requested;
    if Serving(s.daemon) {
      RequestedHeld(s.timer, g);
    } else {
      RestoredHeld(s.timer);
    }
  }

  lemma ReachableInv(trace: seq<Action>, s: State)
    requires ReachesCarefully(trace, s)
    ensures Inv(s)
  {
    assert Inv(Init(s.timer.native)) by { assert !Outstanding([]); }
    forall s, a | Inv(s) && NextCareful(s, a).At?
      ensures Inv(NextCareful(s, a).state)
    {
      StepKeepsInv(s, a);
    }
    hide Inv, NextCareful;
    Invariant(Init(s.timer.native), NextCareful, Inv, trace);
  }

  /** Between calls the running flag agrees with the thread being joinable, and no thread object
      was ever overwritten. */
  lemma FlagAgreesBetweenCalls(trace: seq<Action>, s: State)
    requires ReachesCarefully(trace, s)
    ensures !s.crashed
    ensures s.control == Idle ==> (s.running <==> s.joinable)
  {
    hide TimerInv, Reaches;
    ReachableInv(trace, s);
  }

  /** The timer stays locked in the background: once the daemon's request is granted natively, and
      until the daemon gives it up, the last native call is a request whatever the controlling
      thread does; and it gives up only while Stop is waiting. */
  lemma TimerStaysLocked(trace: seq<Action>, s: State)
    requires ReachesCarefully(trace, s) && s.daemonGrant.Native?
    ensures Holding(s.daemon) ==> Held(s)
    ensures s.control == Idle && s.daemon != Absent && s.daemon != Launched ==> Held(s)
  {
    hide ReachesCarefully;
    ReachableInv(trace, s);
  }

  /** However a request was granted, and to whichever thread, it is given up only by the daemon
      while Stop waits for it or by RestoreTimerResolution. */
  lemma HeldUntilStop(trace: seq<Action>, s: State, a: Action)
    requires ReachesCarefully(trace, s) && Enabled(s, a) && Held(s) && !Held(Apply(s, a))
    ensures (s.control == StopJoin && a.Daemon?) || s.control == RestoreCall
  {
    hide ReachesCarefully, Outstanding;
    ReachableInv(trace, s);
    match a
    case CallSet(g) => RequestedHeld(s.timer, g);
    case Daemon(g) => RequestedHeld(s.timer, g); RestoredHeld(s.timer);
    case Control => RestoredHeld(s.timer);
    case _ =>
  }

  /** When Stop returns from a running daemon, at whatever moment it came and whatever became of
      the requests, no request is outstanding and the flag is clear. */
  lemma StopReleases(trace: seq<Action>, s: State)
    requires ReachesCarefully(trace, s) && s.control == StopJoin && Enabled(s, Control)
    ensures var t := Apply(s, Control);
            && !Held(t) && !t.timer.timerSet && !t.running && !t.joinable && t.daemon == Absent
  {
    hide ReachesCarefully;
    ReachableInv(trace, s);
  }

  /** Once the object is gone no thread is left and no request is outstanding. */
  lemma DestructorReleases(trace: seq<Action>, s: State)
    requires ReachesCarefully(trace, s) && s.control == Gone
    ensures s.daemon == Absent && !s.joinable && !s.running && !s.timer.timerSet && !Held(s)
  {
    hide ReachesCarefully;
    ReachableInv(trace, s);
  }

  /** Daemon steps left once the running flag is down. */
  function StepsLeft(d: DaemonPc): nat {
    match d
    case Launched => 9
    case Acquired => 8
    case Flagged => 7
    case Begun => 7
    case Sleeping => 6
    case Polling => 5
    case Restoring => 4
    case Releasing => 3
    case Ending => 2
    case Clearing => 1
    case Finished => 0
    case Absent => 0
  }

  /** Stop always returns: while it waits, the daemon can move, each move of it brings it closer
      to its end, and nothing else moves; after at most nine moves the join goes through. */
  lemma StopTerminates(trace: seq<Action>, s: State, g: Grant)
    requires ReachesCarefully(trace, s) && s.control == StopJoin && Possible(s, g)
    ensures Enabled(s, Control) <==> StepsLeft(s.daemon) == 0
    ensures Enabled(s, Daemon(g)) <==> StepsLeft(s.daemon) > 0
    ensures forall a :: Enabled(s, a) ==> a == Control || a.Daemon?
    ensures Enabled(s, Daemon(g)) ==>
      var t := Apply(s, Daemon(g));
      t.control == StopJoin && StepsLeft(t.daemon) < StepsLeft(s.daemon)
  {
    hide ReachesCarefully, TimerInv;
    ReachableInv(trace, s);
  }
}
