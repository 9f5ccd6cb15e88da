/** The stall watchdog of a recording session (internal/cli/runtime.go): the mutex-guarded
    counters, and the interleaving of the watchdog goroutine with typed-tool handlers,
    SDK callbacks and the send goroutine. */
module Watchdog {

  const MAX_SESSION_STALL_RECOVERIES := 1

  // ------------------------------------------------- the counters as values

  type AgentKey = (string, string)

  datatype Progress = Progress(activeTools: set<string>, activeAgents: map<AgentKey, nat>, callbacks: int,
                               acceptCallbacks: bool, sessionIdle: bool)
  datatype Typed = Typed(active: int, recovering: bool)

  datatype Event =
    | ToolStart(id: string)
    | ToolComplete(id: string)
    | AgentStarted(key: AgentKey)
    | AgentStopped(key: AgentKey)   // completed or failed
    | SessionIdle
    | OtherEvent

  const NEW_PROGRESS := Progress({}, map[], 0, true, false)
  const NEW_TYPED := Typed(0, false)

  function Track(p: Progress, event: Event): Progress {
    match event
    case ToolStart(id) => p.(activeTools := p.activeTools + {id})
    case ToolComplete(id) => p.(activeTools := p.activeTools - {id})
    case AgentStarted(key) =>
      p.(activeAgents := p.activeAgents[key := (if key in p.activeAgents then p.activeAgents[key] else 0) + 1])
    case AgentStopped(key) =>
      if key !in p.activeAgents || p.activeAgents[key] <= 1 then p.(activeAgents := p.activeAgents - {key})
      else p.(activeAgents := p.activeAgents[key := p.activeAgents[key] - 1])
    case SessionIdle => p.(sessionIdle := true)
    case OtherEvent => p
  }

  predicate Inactive(p: Progress) {
    p.callbacks == 0 && p.activeTools == {} && p.activeAgents == map[]
  }

  /** A handler asks to start: refused while a recovery is under way. */
  function HandlerIn(t: Typed): (Typed, bool) {
    if t.recovering then (t, false) else (t.(active := t.active + 1), true)
  }

  function HandlerOut(t: Typed): Typed {
    t.(active := t.active - 1)
  }

  function Recovery(t: Typed, on: bool): Typed {
    t.(recovering := on)
  }

  /** A callback asks to start: refused once admission is closed. */
  function CallbackIn(p: Progress): (Progress, bool) {
    if p.acceptCallbacks then (p.(callbacks := p.callbacks + 1), true) else (p, false)
  }

  function CallbackOut(p: Progress): Progress {
    p.(callbacks := p.callbacks - 1)
  }

  function Closed(p: Progress): Progress {
    p.(acceptCallbacks := false)
  }

  /** Closes admission in the same step that finds nothing active. */
  function TryClosed(p: Progress): (Progress, bool) {
    if Inactive(p) then (Closed(p), true) else (p, false)
  }

  /** A recovery forgets that the session has been idle. */
  function Restarted(p: Progress): Progress {
    p.(sessionIdle := false)
  }

  // -------------------------------------------------------------- the objects

  class TypedToolActivity {
    var active: int
    var recovering: bool

    function Value(): Typed
      reads this
    {
      Typed(active, recovering)
    }

    constructor ()
      ensures Value() == NEW_TYPED
    {
      active, recovering := 0, false;
    }

    /** Admits a handler unless a recovery is under way. */
    method Begin() returns (admitted: bool)
      modifies this
      ensures (Value(), admitted) == HandlerIn(old(Value()))
    {
      if recovering {
        return false;
      }
      active := active + 1;
      return true;
    }

    method Finish()
      modifies this
      ensures Value() == HandlerOut(old(Value()))
    {
      active := active - 1;
    }

    method BeginRecovery()
      modifies this
      ensures Value() == Recovery(old(Value()), true)
    {
      recovering := true;
    }

    method EndRecovery()
      modifies this
      ensures Value() == Recovery(old(Value()), false)
    {
      recovering := false;
    }
  }

  class SessionProgress {
    var activeTools: set<string>
    var activeAgents: map<AgentKey, nat>
    var callbacks: int
    var acceptCallbacks: bool
    var sessionIdle: bool

    function Value(): Progress
      reads this
    {
      Progress(activeTools, activeAgents, callbacks, acceptCallbacks, sessionIdle)
    }

    constructor ()
      ensures Value() == NEW_PROGRESS
    {
      activeTools, activeAgents, callbacks, acceptCallbacks, sessionIdle := {}, map[], 0, true, false;
    }

    method BeginCallback() returns (admitted: bool)
      modifies this
      ensures (Value(), admitted) == CallbackIn(old(Value()))
    {
      if !acceptCallbacks {
        return false;
      }
      callbacks := callbacks + 1;
      return true;
    }

    method FinishCallback()
      modifies this
      ensures Value() == CallbackOut(old(Value()))
    {
      callbacks := callbacks - 1;
    }

    method TrackEvent(event: Event)
      modifies this
      ensures Value() == Track(old(Value()), event)
    {
      match event {
        case ToolStart(id) => activeTools := activeTools + {id};
        case ToolComplete(id) => activeTools := activeTools - {id};
        case AgentStarted(key) =>
          activeAgents := activeAgents[key := (if key in activeAgents then activeAgents[key] else 0) + 1];
        case AgentStopped(key) => CompleteSubagent(key);
        case SessionIdle => sessionIdle := true;
        case OtherEvent =>
      }
    }

    method CompleteSubagent(key: AgentKey)
      modifies this
      ensures Value() == Track(old(Value()), AgentStopped(key))
    {
      var remaining := (if key in activeAgents then activeAgents[key] as int else 0) - 1;
      if remaining <= 0 {
        activeAgents := activeAgents - {key};
      } else {
        activeAgents := activeAgents[key := remaining];
      }
    }

    /** Closes callback admission in the same critical section that finds nothing active. */
    method TryCloseCallbackAdmission() returns (idle: bool, closed: bool)
      modifies this
      ensures idle == old(sessionIdle) && (Value(), closed) == TryClosed(old(Value()))
    {
      var inactive := callbacks == 0 && |activeTools| == 0 && |activeAgents| == 0;
      assert |activeAgents| == 0 <==> activeAgents == map[];
      if !inactive {
        return sessionIdle, false;
      }
      acceptCallbacks := false;
      return sessionIdle, true;
    }

    method BeginRecovery()
      modifies this
      ensures Value() == Restarted(old(Value()))
    {
      sessionIdle := false;
    }

    method CloseCallbackAdmission()
      modifies this
      ensures Value() == Closed(old(Value()))
    {
      acceptCallbacks := false;
    }
  }

  // ------------------------------------------------- the concurrent system

  /** One send of the message: its progress record, the SDK callbacks now running in it,
      whether its send goroutine has delivered a result, what the SDK has reported of it so far
      and how much of that when its abort began. */
  datatype Attempt = Attempt(progress: Progress, running: set<nat>, sendReturned: bool, log: seq<Event>, since: nat)

  /** Where the watchdog goroutine stands. */
  datatype Control =
    | Watching
    | Stopping(allowResume: bool, canceled: bool)       // typed recovery begun, abort still to come
    | Waiting(allowResume: bool, canceled: bool,        // in waitForSessionAttemptStop, with what
              abortFailed: bool, sendStopped: bool,     //   this goroutine has seen so far
              typedInactive: bool)
    | Stopped(allowResume: bool, abortFailed: bool, idle: bool)  // that wait has returned no error
    | Recovered(allowResume: bool)                      // recoverStalledAttempt has returned nil
    | Resuming                                          // endRecovery done, next send not yet started
    | Returned
    | Failed

  /** `handlers` are the typed-tool handler invocations now running. */
  datatype System = System(typed: Typed, handlers: set<nat>, attempts: seq<Attempt>, recoveries: nat, control: Control)

  const INITIAL := System(NEW_TYPED, {}, [NEW_ATTEMPT], 0, Watching)
  const NEW_ATTEMPT := Attempt(NEW_PROGRESS, {}, false, [], 0)

  datatype AbortOutcome = Unsupported | Aborted | AbortError | AbortLogError | AbortTimeout

  datatype Label =
    // the environment; handlers and callbacks may belong to any attempt, however old
    | HandlerBegins(h: nat)
    | HandlerEnds(h: nat)
    | CallbackBegins(attempt: nat, c: nat)
    | CallbackTracks(attempt: nat, c: nat, event: Event)
    | CallbackEnds(attempt: nat, c: nat)
    | SendReturns
    // the watchdog goroutine
    | TakeResult
    | DetectStall
    | ContextDone
    | Abort(outcome: AbortOutcome)
    | SeeSendResult
    | ReadTypedState
    | TryClose
    | WaitTimesOut
    | Resolve(contextError: bool, recoverable: bool, resumed: bool)
    | EndRecovery(contextError: bool)
    | SendAgain(recordError: bool)

  function Last(s: System): (i: int) {
    |s.attempts| - 1
  }

  function WithAttempt(s: System, i: nat, a: Attempt): System
    requires i < |s.attempts|
  {
    s.(attempts := s.attempts[i := a])
  }

  /** `stopObserving`: closes callback admission of the current attempt. */
  function StopObserving(s: System): System
    requires s.attempts != []
  {
    var a := s.attempts[Last(s)];
    WithAttempt(s, Last(s), a.(progress := Closed(a.progress)))
  }

  function Fail(s: System): System
    requires s.attempts != []
  {
    StopObserving(s).(control := Failed)
  }

  /** The effect of one step; a step that is not enabled changes nothing. */
  function Step(s: System, step: Label): System
    requires s.attempts != []
  {
    var current := s.attempts[Last(s)];
    match step
    case HandlerBegins(h) =>
      if h in s.handlers || !HandlerIn(s.typed).1 then s
      else s.(typed := HandlerIn(s.typed).0, handlers := s.handlers + {h})
    case HandlerEnds(h) =>
      if h !in s.handlers then s
      else s.(typed := HandlerOut(s.typed), handlers := s.handlers - {h})
    case CallbackBegins(i, c) =>
      if i >= |s.attempts| || c in s.attempts[i].running || !CallbackIn(s.attempts[i].progress).1 then s
      else
        var a := s.attempts[i];
        WithAttempt(s, i, a.(progress := CallbackIn(a.progress).0, running := a.running + {c}))
    case CallbackTracks(i, c, event) =>
      if i >= |s.attempts| || c !in s.attempts[i].running then s
      else
        var a := s.attempts[i];
        WithAttempt(s, i, a.(progress := Track(a.progress, event), log := a.log + [event]))
    case CallbackEnds(i, c) =>
      if i >= |s.attempts| || c !in s.attempts[i].running then s
      else
        var a := s.attempts[i];
        WithAttempt(s, i, a.(progress := CallbackOut(a.progress), running := a.running - {c}))
    case SendReturns => WithAttempt(s, Last(s), current.(sendReturned := true))
    case TakeResult =>
      if s.control.Watching? && current.sendReturned then StopObserving(s).(control := Returned) else s
    case DetectStall =>
      if !s.control.Watching? then s
      else s.(typed := Recovery(s.typed, true),
              control := Stopping(s.recoveries < MAX_SESSION_STALL_RECOVERIES, false))
    case ContextDone =>
      if !s.control.Watching? then s
      else s.(typed := Recovery(s.typed, true), control := Stopping(false, true))
    case Abort(outcome) =>
      if !s.control.Stopping? then s
      else
        var idleReset := WithAttempt(s, Last(s), current.(progress := Restarted(current.progress),
                                                          since := |current.log|));
        var Stopping(allow, canceled) := s.control;
        (match outcome
         case Unsupported => s.(control := Waiting(allow, canceled, false, false, false))
         case Aborted => idleReset.(control := Waiting(allow, canceled, false, false, false))
         case AbortError => idleReset.(control := Waiting(allow, canceled, true, false, false))
         case AbortLogError => idleReset.(control := Waiting(allow, true, true, false, false))
         case AbortTimeout =>
           if canceled then idleReset.(control := Waiting(allow, true, true, false, false)) else Fail(idleReset))
    case SeeSendResult =>
      if s.control.Waiting? && current.sendReturned
      then s.(control := s.control.(sendStopped := true, typedInactive := false)) else s
    case ReadTypedState =>
      if s.control.Waiting? then s.(control := s.control.(typedInactive := s.typed.active == 0)) else s
    case TryClose =>
      if !(s.control.Waiting? && s.control.sendStopped && s.control.typedInactive) then s
      else if !TryClosed(current.progress).1 then s.(control := s.control.(typedInactive := false))
      else if s.control.canceled then Fail(s)
      else
        StopObserving(s).(control := Stopped(s.control.allowResume, s.control.abortFailed,
                                             current.progress.sessionIdle))
    case WaitTimesOut =>
      if s.control.Waiting? then Fail(s) else s
    case Resolve(contextError, recoverable, resumed) =>
      if !s.control.Stopped? then s
      else
        var Stopped(allow, abortFailed, idle) := s.control;
        if contextError || (abortFailed && !idle) then Fail(s)
        else if !allow then s.(control := Recovered(false))
        else if !recoverable then Fail(s)
        else if idle || resumed then s.(control := Recovered(true))
        else Fail(s)
    case EndRecovery(contextError) =>
      if !s.control.Recovered? then s
      else if !s.control.allowResume || contextError then Fail(s)
      else s.(typed := Recovery(s.typed, false), recoveries := s.recoveries + 1, control := Resuming)
    case SendAgain(recordError) =>
      if !s.control.Resuming? then s
      else if recordError then Fail(s)
      else s.(attempts := s.attempts + [NEW_ATTEMPT], control := Watching)
  }

  /** The system after a whole schedule of steps. */
  function After(steps: seq<Label>): (s: System)
    ensures s.attempts != []
  {
    if steps == [] then INITIAL else Step(After(steps[..|steps| - 1]), steps[|steps| - 1])
  }

  // ------------------------------------------------ what the SDK has reported

  /** An SDK tool has started and not completed since. */
  ghost predicate ToolRuns(log: seq<Event>, id: string) {
    exists i :: 0 <= i < |log| && log[i] == ToolStart(id) && forall j :: i < j < |log| ==> log[j] != ToolComplete(id)
  }

  /** The surplus of subagent starts over stops from report `k` on. */
  ghost function Surplus(log: seq<Event>, key: AgentKey, k: nat): int
    requires k <= |log|
  {
    var reports := multiset(log[k..]);
    reports[AgentStarted(key)] as int - reports[AgentStopped(key)] as int
  }

  /** How many subagents of this key are still to stop: a stop that finds none to stop counts
      for nothing, so it is the greatest surplus that any last part of the log shows. */
  ghost predicate AgentsRun(log: seq<Event>, key: AgentKey, n: nat) {
    && (exists k :: 0 <= k <= |log| && Surplus(log, key, k) == n)
    && forall k :: 0 <= k <= |log| ==> Surplus(log, key, k) <= n
  }

  /** No SDK tool and no subagent runs. */
  ghost predicate Silent(log: seq<Event>) {
    && (forall id :: !ToolRuns(log, id))
    && forall key :: AgentsRun(log, key, 0)
  }

  /** The session has been idle since its abort began. */
  predicate Idled(a: Attempt) {
    a.since <= |a.log| && SessionIdle in a.log[a.since..]
  }

  ghost predicate ToolsTracked(tools: set<string>, log: seq<Event>) {
    forall id :: id in tools <==> ToolRuns(log, id)
  }

  function Count(agents: map<AgentKey, nat>, key: AgentKey): nat {
    if key in agents then agents[key] else 0
  }

  ghost predicate AgentsTracked(agents: map<AgentKey, nat>, log: seq<Event>) {
    forall key :: AgentsRun(log, key, Count(agents, key)) && (key in agents ==> agents[key] > 0)
  }

  /** The progress record tells the truth about the attempt. */
  ghost predicate Tracked(a: Attempt) {
    && a.progress.callbacks == |a.running|
    && ToolsTracked(a.progress.activeTools, a.log) && AgentsTracked(a.progress.activeAgents, a.log)
    && a.since <= |a.log| && (a.progress.sessionIdle <==> Idled(a))
  }

  lemma NothingReported()
    ensures Tracked(NEW_ATTEMPT)
  {
    forall key ensures AgentsRun([], key, 0) {
      assert Surplus([], key, 0) == 0;
    }
  }

  lemma ToolReported(tools: set<string>, log: seq<Event>, event: Event)
    requires ToolsTracked(tools, log)
    ensures ToolsTracked(match event
                         case ToolStart(id) => tools + {id}
                         case ToolComplete(id) => tools - {id}
                         case _ => tools, log + [event])
  {
    var longer, n := log + [event], |log|;
    forall id
      ensures ToolRuns(longer, id) <==>
                event == ToolStart(id) || (ToolRuns(log, id) && event != ToolComplete(id))
    {
      if event == ToolStart(id) {
        assert longer[n] == event;
      }
      if ToolRuns(log, id) && event != ToolComplete(id) {
        var i :| 0 <= i < |log| && log[i] == ToolStart(id) && forall j :: i < j < |log| ==> log[j] != ToolComplete(id);
        assert longer[i] == log[i];
      }
      if ToolRuns(longer, id) && event != ToolStart(id) {
        var i :| 0 <= i <= n && longer[i] == ToolStart(id)
                 && forall j :: i < j <= n ==> longer[j] != ToolComplete(id);
        assert log[i] == longer[i] && longer[n] == event;
        forall j | i < j < n ensures log[j] != ToolComplete(id) {
          assert log[j] == longer[j];
        }
      }
    }
  }

  function Change(event: Event, key: AgentKey): int {
    if event == AgentStarted(key) then 1 else if event == AgentStopped(key) then -1 else 0
  }

  lemma SurplusGrows(log: seq<Event>, event: Event, key: AgentKey, k: nat)
    requires k <= |log|
    ensures Surplus(log + [event], key, k) == Surplus(log, key, k) + Change(event, key)
  {
    assert (log + [event])[k..] == log[k..] + [event];
  }

  /** One more report about subagents, seen from one key. */
  lemma AgentReported(log: seq<Event>, event: Event, key: AgentKey, n: nat)
    requires AgentsRun(log, key, n)
    ensures AgentsRun(log + [event], key, if n + Change(event, key) < 0 then 0 else n + Change(event, key))
  {
    var longer := log + [event];
    forall k | 0 <= k <= |log| ensures Surplus(longer, key, k) == Surplus(log, key, k) + Change(event, key) {
      SurplusGrows(log, event, key, k);
    }
    assert longer[|longer|..] == [] && Surplus(longer, key, |longer|) == 0;
  }

  lemma TrackKeeps(a: Attempt, event: Event)
    requires Tracked(a)
    ensures Tracked(a.(progress := Track(a.progress, event), log := a.log + [event]))
  {
    hide ToolsTracked, AgentsRun;
    ToolReported(a.progress.activeTools, a.log, event);
    forall key ensures AgentsRun(a.log + [event], key, Count(Track(a.progress, event).activeAgents, key)) {
      AgentReported(a.log, event, key, Count(a.progress.activeAgents, key));
    }
    assert (a.log + [event])[a.since..] == a.log[a.since..] + [event];
  }

  /** What the record calls inactive is silent. */
  lemma InactiveIsSilent(a: Attempt)
    requires Tracked(a) && Inactive(a.progress)
    ensures Silent(a.log) && a.running == {}
  {
    hide AgentsRun, ToolRuns;
    forall key ensures AgentsRun(a.log, key, 0) {
      assert Count(a.progress.activeAgents, key) == 0;
    }
  }

  /** As long as no subagent stops that has not started, the running ones are those started
      less those stopped. */
  lemma OrderlyAgents(log: seq<Event>, key: AgentKey, n: nat)
    requires AgentsRun(log, key, n) && forall k :: 0 <= k <= |log| ==> Surplus(log[..k], key, 0) >= 0
    ensures n == Surplus(log, key, 0)
  {
    var k :| 0 <= k <= |log| && Surplus(log, key, k) == n;
    assert log == log[..k] + log[k..] && log[0..] == log && log[..k][0..] == log[..k];
  }

  // -------------------------------------------------------------- invariants

  /** Nothing of this attempt runs and no callback of it can be admitted again. */
  ghost predicate Settled(a: Attempt) {
    a.sendReturned && a.running == {} && Silent(a.log) && !a.progress.acceptCallbacks
  }

  /** The barrier that `recoverStalledAttempt` guarantees on success. */
  ghost predicate Barrier(s: System) {
    s.attempts != [] && Settled(s.attempts[Last(s)]) && s.handlers == {} && s.typed == Typed(0, true)
  }

  ghost predicate Invariant(s: System) {
    && s.attempts != []
    && s.typed.active == |s.handlers|
    && (forall i :: 0 <= i < |s.attempts| ==> Tracked(s.attempts[i]))
    && (forall i :: 0 <= i < Last(s) ==> Settled(s.attempts[i]))
    && s.recoveries <= MAX_SESSION_STALL_RECOVERIES
    && |s.attempts| <= s.recoveries + 1
    && var current := s.attempts[Last(s)];
       match s.control
       case Watching => true
       case Stopping(allow, _) => s.typed.recovering && (allow ==> s.recoveries < MAX_SESSION_STALL_RECOVERIES)
       case Waiting(allow, _, _, sendStopped, typedInactive) =>
         && s.typed.recovering && (allow ==> s.recoveries < MAX_SESSION_STALL_RECOVERIES)
         && (sendStopped ==> current.sendReturned)
         && (typedInactive ==> s.typed.active == 0)
       case Stopped(allow, _, idle) =>
         Barrier(s) && (allow ==> s.recoveries < MAX_SESSION_STALL_RECOVERIES) && (idle <==> Idled(current))
       case Recovered(allow) => Barrier(s) && (allow ==> s.recoveries < MAX_SESSION_STALL_RECOVERIES)
       case Resuming => Settled(current) && |s.attempts| <= s.recoveries
       case Returned => true
       case Failed => true
  }

  lemma HandlersKeepInvariant(s: System, step: Label)
    requires Invariant(s) && (step.HandlerBegins? || step.HandlerEnds? || step.SendReturns?)
    ensures Invariant(Step(s, step))
  {
    if step.SendReturns? {
      SendReturnsKeepsInvariant(s);
    } else {
      hide Settled;
      HandlersAreOfNoBarrier(s, step);
    }
  }

  /** Where the barrier stands no handler runs or starts. */
  lemma HandlersAreOfNoBarrier(s: System, step: Label)
    requires Invariant(s) && (step.HandlerBegins? || step.HandlerEnds?)
    ensures s.control.Stopped? || s.control.Recovered? ==> Step(s, step) == s
  {
    hide Settled;
  }

  lemma SendReturnsKeepsInvariant(s: System)
    requires Invariant(s)
    ensures Invariant(Step(s, SendReturns))
  {
  }

  /** An attempt that is not settled is the current one, and may count further callbacks. */
  lemma UnsettledKeepsInvariant(s: System, i: nat, a: Attempt)
    requires Invariant(s) && i < |s.attempts| && !Settled(s.attempts[i])
    requires Tracked(a) && a.sendReturned == s.attempts[i].sendReturned
    ensures Invariant(WithAttempt(s, i, a))
  {
    hide Settled, Tracked, Idled;
    assert i == Last(s);
  }

  lemma CallbacksKeepInvariant(s: System, step: Label)
    requires Invariant(s) && (step.CallbackBegins? || step.CallbackTracks? || step.CallbackEnds?)
    ensures Invariant(Step(s, step))
  {
    var t := Step(s, step);
    if t != s {
      var i := step.attempt;
      hide Silent, ToolsTracked, AgentsTracked, Idled, Track;
      assert Tracked(s.attempts[i]) && t == WithAttempt(s, i, t.attempts[i]);
      CallbackKeepsTracked(s.attempts[i], t.attempts[i], step);
      UnsettledKeepsInvariant(s, i, t.attempts[i]);
    }
  }

  /** What a callback does to the record of its attempt. */
  lemma CallbackKeepsTracked(a: Attempt, b: Attempt, step: Label)
    requires Tracked(a)
    requires match step
             case CallbackBegins(_, c) =>
               c !in a.running && b == a.(progress := CallbackIn(a.progress).0, running := a.running + {c})
               && CallbackIn(a.progress).1
             case CallbackTracks(_, _, event) =>
               b == a.(progress := Track(a.progress, event), log := a.log + [event])
             case CallbackEnds(_, c) =>
               c in a.running && b == a.(progress := CallbackOut(a.progress), running := a.running - {c})
             case _ => false
    ensures Tracked(b)
  {
    hide ToolsTracked, AgentsTracked;
    if step.CallbackTracks? {
      TrackKeeps(a, step.event);
    }
  }

  /** Closing admission of the current attempt, or forgetting that it was idle, breaks nothing
      where no barrier stands yet. */
  lemma CurrentKeepsInvariant(s: System, t: System)
    requires Invariant(s) && (s.control.Watching? || s.control.Stopping? || s.control.Waiting?)
    requires t == s.(attempts := t.attempts, control := t.control) && |t.attempts| == |s.attempts|
    requires t.attempts[..Last(s)] == s.attempts[..Last(s)]
    requires var a, b := s.attempts[Last(s)], t.attempts[Last(s)];
             b == a.(progress := b.progress, since := b.since) && Tracked(b)
    requires t.control.Returned? || t.control.Failed? ||
             (s.control.Stopping? && t.control.Waiting? && t.control.allowResume == s.control.allowResume
              && !t.control.sendStopped && !t.control.typedInactive)
    ensures Invariant(t)
  {
    hide Settled;
    forall i | 0 <= i < Last(t) ensures t.attempts[i] == s.attempts[i] {
      assert t.attempts[..Last(s)][i] == s.attempts[..Last(s)][i];
    }
  }

  lemma StopKeepsInvariant(s: System, step: Label)
    requires Invariant(s)
    requires step.TakeResult? || step.DetectStall? || step.ContextDone? || step.Abort? || step.WaitTimesOut?
    ensures Invariant(Step(s, step))
  {
    var current, t := s.attempts[Last(s)], Step(s, step);
    assert Tracked(current);
    ClosedIsTracked(current);
    RestartedIsTracked(current);
    hide Invariant, Tracked;
    if step.DetectStall? || step.ContextDone? {
      StallKeepsInvariant(s, step);
    } else if t != s {
      CurrentKeepsInvariant(s, t);
    }
  }

  lemma ClosedIsTracked(a: Attempt)
    requires Tracked(a)
    ensures var closed := a.(progress := Closed(a.progress)); Tracked(closed) && (Idled(closed) <==> Idled(a))
  {
    hide ToolsTracked, AgentsTracked;
  }

  lemma RestartedIsTracked(a: Attempt)
    requires Tracked(a)
    ensures var restarted := a.(progress := Restarted(a.progress), since := |a.log|);
            Tracked(restarted) && Tracked(restarted.(progress := Closed(restarted.progress)))
  {
    hide ToolsTracked, AgentsTracked;
  }

  lemma StallKeepsInvariant(s: System, step: Label)
    requires Invariant(s) && (step.DetectStall? || step.ContextDone?)
    ensures Invariant(Step(s, step))
  {
    hide Settled;
  }

  lemma WaitKeepsInvariant(s: System, step: Label)
    requires Invariant(s) && (step.SeeSendResult? || step.ReadTypedState?)
    ensures Invariant(Step(s, step))
  {
    hide Settled, Tracked, Idled;
  }

  lemma CloseKeepsInvariant(s: System)
    requires Invariant(s)
    ensures Invariant(Step(s, TryClose))
  {
    var current := s.attempts[Last(s)];
    ClosedIsTracked(current);
    if Inactive(current.progress) {
      InactiveIsSilent(current);
    }
    assert Tracked(current) && (current.progress.sessionIdle <==> Idled(current));
    hide Tracked, Idled, Silent;
  }

  lemma ResolveKeepsInvariant(s: System, step: Label)
    requires Invariant(s) && (step.Resolve? || step.EndRecovery?)
    ensures Invariant(Step(s, step))
  {
    ClosedIsTracked(s.attempts[Last(s)]);
    hide Tracked, Idled, Settled;
  }

  lemma SendKeepsInvariant(s: System, recordError: bool)
    requires Invariant(s)
    ensures Invariant(Step(s, SendAgain(recordError)))
  {
    ClosedIsTracked(s.attempts[Last(s)]);
    NothingReported();
    hide Tracked, Idled, Silent;
  }

  lemma StepKeepsInvariant(s: System, step: Label)
    requires Invariant(s)
    ensures Invariant(Step(s, step))
  {
    if step.HandlerBegins? || step.HandlerEnds? || step.SendReturns? {
      HandlersKeepInvariant(s, step);
    } else if step.CallbackBegins? || step.CallbackTracks? || step.CallbackEnds? {
      CallbacksKeepInvariant(s, step);
    } else if step.SeeSendResult? || step.ReadTypedState? {
      WaitKeepsInvariant(s, step);
    } else if step.TryClose? {
      CloseKeepsInvariant(s);
    } else if step.Resolve? || step.EndRecovery? {
      ResolveKeepsInvariant(s, step);
    } else if step.SendAgain? {
      SendKeepsInvariant(s, step.recordError);
    } else {
      StopKeepsInvariant(s, step);
    }
  }

  lemma {:induction false} AlwaysInvariant(steps: seq<Label>)
    ensures Invariant(After(steps))
  {
    NothingReported();
    if steps != [] {
      AlwaysInvariant(steps[..|steps| - 1]);
      StepKeepsInvariant(After(steps[..|steps| - 1]), steps[|steps| - 1]);
    }
  }

  // ------------------------------------------------------------ main results

  /** Under every interleaving: when `recoverStalledAttempt` succeeds, the send has returned, no
      handler or callback of the attempt runs, its reports leave no SDK tool and no subagent
      running, and no handler or callback can start. */
  lemma RecoveryIsABarrier(steps: seq<Label>)
    ensures After(steps).control.Recovered? ==> Barrier(After(steps))
  {
    AlwaysInvariant(steps);
  }

  /** Whatever begins and ends in whatever order, the counters that the barrier reads are the
      numbers of handlers and callbacks now running, and the records it reads are of the SDK
      tools and subagents that the reports leave running. */
  lemma CountersAreExact(steps: seq<Label>)
    ensures var s := After(steps);
            && s.typed.active == |s.handlers|
            && forall i :: 0 <= i < |s.attempts| ==> Tracked(s.attempts[i])
  {
    AlwaysInvariant(steps);
  }

  /** Whether a stopped attempt counts as idle is whether its session reported so after the
      abort had begun. */
  lemma IdleIsReported(steps: seq<Label>)
    ensures var s := After(steps); s.control.Stopped? ==> (s.control.idle <==> Idled(s.attempts[Last(s)]))
  {
    AlwaysInvariant(steps);
  }

  /** A stopped attempt is recovered exactly when nothing was canceled meanwhile, a failed abort
      has at least let the session go idle, and, where another send is still allowed, the
      session can be recovered and is idle or has been resumed. */
  lemma RecoversExactlyWhen(steps: seq<Label>, contextError: bool, recoverable: bool, resumed: bool)
    requires After(steps).control.Stopped?
    ensures var s := After(steps);
            var idle := Idled(s.attempts[Last(s)]);
            After(steps + [Resolve(contextError, recoverable, resumed)]).control.Recovered? <==>
              && !contextError && (s.control.abortFailed ==> idle)
              && (s.control.allowResume ==> recoverable && (idle || resumed))
  {
    IdleIsReported(steps);
    hide Idled, After;
    Unfold(steps, Resolve(contextError, recoverable, resumed));
  }

  /** The barrier stands until `endRecovery`, whatever the environment tries. */
  lemma {:induction false} BarrierStands(steps: seq<Label>, more: seq<Label>)
    requires After(steps).control.Recovered? && forall k :: 0 <= k < |more| ==> !more[k].EndRecovery?
    ensures Barrier(After(steps + more)) && After(steps + more).control == After(steps).control
  {
    if more == [] {
      assert steps + more == steps;
      RecoveryIsABarrier(steps);
    } else {
      var rest := more[..|more| - 1];
      assert (steps + more)[..|steps + more| - 1] == steps + rest;
      BarrierStands(steps, rest);
      BarrierStep(After(steps + rest), more[|more| - 1]);
    }
  }

  lemma BarrierStep(s: System, step: Label)
    requires Barrier(s) && s.control.Recovered? && !step.EndRecovery?
    ensures Barrier(Step(s, step)) && Step(s, step).control == s.control
  {
  }

  /** A stopped attempt stays stopped: no callback of it is ever admitted again. */
  lemma {:induction false} SettledForever(steps: seq<Label>, more: seq<Label>, i: nat)
    requires i < |After(steps).attempts| && Settled(After(steps).attempts[i])
    ensures i < |After(steps + more).attempts| && Settled(After(steps + more).attempts[i])
  {
    if more == [] {
      assert steps + more == steps;
    } else {
      hide Settled, Step;
      var rest := more[..|more| - 1];
      assert (steps + more)[..|steps + more| - 1] == steps + rest;
      SettledForever(steps, rest, i);
      SettledStep(After(steps + rest), more[|more| - 1], i);
    }
  }

  lemma SettledStep(s: System, step: Label, i: nat)
    requires i < |s.attempts| && Settled(s.attempts[i])
    ensures i < |Step(s, step).attempts| && Settled(Step(s, step).attempts[i])
  {
  }

  /** One message is sent at most 1 + maxSessionStallRecoveries times, and every send but the
      last has been stopped for good before the next one starts. */
  lemma SendsAreBounded(steps: seq<Label>)
    ensures |After(steps).attempts| <= 1 + MAX_SESSION_STALL_RECOVERIES
    ensures forall i :: 0 <= i < |After(steps).attempts| - 1 ==> Settled(After(steps).attempts[i])
  {
    AlwaysInvariant(steps);
  }

  /** Handlers are shut out by a recovery only, callbacks by the end of their attempt only. */
  ghost predicate Open(s: System) {
    && s.attempts != []
    && (s.control.Watching? || s.control.Resuming? || s.control.Returned? ==> !s.typed.recovering)
    && (s.control.Watching? || s.control.Stopping? || s.control.Waiting? ==>
          s.attempts[Last(s)].progress.acceptCallbacks)
  }

  lemma OpenStep(s: System, step: Label)
    requires Open(s)
    ensures Open(Step(s, step))
  {
  }

  lemma {:induction false} AlwaysOpen(steps: seq<Label>)
    ensures Open(After(steps))
  {
    hide Open, Step;
    if steps == [] {
      OpenAtFirst();
    } else {
      AlwaysOpen(steps[..|steps| - 1]);
      OpenStep(After(steps[..|steps| - 1]), steps[|steps| - 1]);
    }
  }

  lemma OpenAtFirst()
    ensures Open(INITIAL)
  {
  }

  /** As long as no recovery is under way every handler is admitted, and until its attempt has
      been stopped every callback of it is. */
  lemma WorkIsAdmitted(steps: seq<Label>, h: nat, c: nat)
    ensures var s := After(steps);
            && (s.control.Watching? || s.control.Resuming? || s.control.Returned? ==>
                  h in After(steps + [HandlerBegins(h)]).handlers)
            && (s.control.Watching? || s.control.Stopping? || s.control.Waiting? ==>
                  c in After(steps + [CallbackBegins(|s.attempts| - 1, c)]).attempts[|s.attempts| - 1].running)
  {
    hide *;
    AlwaysOpen(steps);
    Unfold(steps, HandlerBegins(h));
    Unfold(steps, CallbackBegins(|After(steps).attempts| - 1, c));
    OpenAdmits(After(steps), h, c);
  }

  lemma OpenAdmits(s: System, h: nat, c: nat)
    requires Open(s)
    ensures s.control.Watching? || s.control.Resuming? || s.control.Returned? ==>
              h in Step(s, HandlerBegins(h)).handlers
    ensures var t := Step(s, CallbackBegins(|s.attempts| - 1, c));
            && |t.attempts| == |s.attempts|
            && (s.control.Watching? || s.control.Stopping? || s.control.Waiting? ==>
                  c in t.attempts[|s.attempts| - 1].running)
  {
  }

  const STALL_AND_ABORT := [] + [DetectStall] + [Abort(Aborted)]
  const STALL_AND_STOP := STALL_AND_ABORT + [SendReturns] + [SeeSendResult] + [ReadTypedState] + [TryClose]
  const STOPPED_ATTEMPT := Attempt(NEW_PROGRESS.(acceptCallbacks := false), {}, true, [], 0)

  lemma AbortAfterStall(s: System)
    requires s == System(Typed(0, true), {}, [NEW_ATTEMPT], 0, Stopping(true, false))
    ensures Step(s, Abort(Aborted))
            == System(Typed(0, true), {}, [NEW_ATTEMPT], 0, Waiting(true, false, false, false, false))
  {
  }

  lemma StallAndAbort()
    ensures After(STALL_AND_ABORT)
            == System(Typed(0, true), {}, [NEW_ATTEMPT], 0, Waiting(true, false, false, false, false))
  {
    Unfold([], DetectStall);
    Unfold([] + [DetectStall], Abort(Aborted));
    AbortAfterStall(After([] + [DetectStall]));
  }

  lemma StopAfterAbort()
    ensures var returned := NEW_ATTEMPT.(sendReturned := true);
            After(STALL_AND_ABORT + [SendReturns] + [SeeSendResult])
            == System(Typed(0, true), {}, [returned], 0, Waiting(true, false, false, true, false))
  {
    hide After, Step;
    StallAndAbort();
    Unfold(STALL_AND_ABORT, SendReturns);
    Unfold(STALL_AND_ABORT + [SendReturns], SeeSendResult);
    SendStops(After(STALL_AND_ABORT));
  }

  lemma SendStops(s: System)
    requires s == System(Typed(0, true), {}, [NEW_ATTEMPT], 0, Waiting(true, false, false, false, false))
    ensures Step(Step(s, SendReturns), SeeSendResult)
            == s.(attempts := [NEW_ATTEMPT.(sendReturned := true)], control := s.control.(sendStopped := true))
  {
  }

  lemma StallAndStop()
    ensures After(STALL_AND_STOP) == System(Typed(0, true), {}, [STOPPED_ATTEMPT], 0, Stopped(true, false, false))
  {
    StopAfterAbort();
    Unfold(STALL_AND_ABORT + [SendReturns] + [SeeSendResult], ReadTypedState);
    Unfold(STALL_AND_ABORT + [SendReturns] + [SeeSendResult] + [ReadTypedState], TryClose);
  }

  /** The barrier is reached, and it ends with `endRecovery`: a handler call that the stalled
      attempt issued late is admitted before the next send even starts. */
  lemma LateHandlerIsAdmitted()
    ensures var recovered := STALL_AND_STOP + [Resolve(false, true, true)];
            && After(recovered).control == Recovered(true)
            && After(recovered + [HandlerBegins(7)]).handlers == {}
            && After(recovered + [EndRecovery(false)] + [HandlerBegins(7)]).handlers == {7}
            && |After(recovered + [EndRecovery(false)] + [HandlerBegins(7)]).attempts| == 1
  {
    StallAndStop();
    Unfold(STALL_AND_STOP, Resolve(false, true, true));
    var recovered := STALL_AND_STOP + [Resolve(false, true, true)];
    Unfold(recovered, HandlerBegins(7));
    Unfold(recovered, EndRecovery(false));
    Unfold(recovered + [EndRecovery(false)], HandlerBegins(7));
  }

  lemma Unfold(steps: seq<Label>, step: Label)
    ensures After(steps + [step]) == Step(After(steps), step)
  {
    assert (steps + [step])[..|steps + [step]| - 1] == steps;
  }
}
