/** The Collection / Collection-QC loop as a transition system: the tool handlers and
    recorders of internal/collection/runner.go and internal/collectionqc/runner.go, driven by
    the phase loop of internal/coordinator/coordinator.go.  Tool calls of the Collection
    session may arrive in any phase; verdicts only while a review waits for one. */
module Review {
  import opened Options
  import opened Unicode
  import opened Workflow
  import opened Collection

  /** `calls` are the counted tool calls in flight, `checkpoints` and `verdicts` the two
      recorders, `current` what the coordinator hands to Collection QC, `log` every accepted
      checkpoint so far, `known` the artifacts with the evidence purpose; `failed` means that
      the host gave up or a recorder refused an accepted call. */
  datatype System = System(p: Protocol, calls: set<nat>, checkpoints: seq<CheckpointOutput>,
                           verdicts: seq<seq<Assessment>>,
                           current: CheckpointOutput, log: seq<CheckpointOutput>, known: set<string>, failed: bool)

  datatype Label =
    | SetPlan(inputs: seq<NeedInput>)
    | RegisterArtifact(oneSource: bool, id: Option<string>)
    | SubmitCheckpoint(reason: string, dispositions: seq<Disposition>)
    | CallBegins(call: nat)
    | CallEnds(call: nat)
    | CollectionTurnEnds
    | SubmitVerdict(verdict: seq<Assessment>)
    | ReviewTurnEnds

  function Initial(known: set<string>): System {
    System(NEW.(flow := BeginFlow(UNBEGUN)), {}, [], [], CheckpointOutput([], "", []), [], known, false)
  }

  /** `Verdict.Validate`. */
  predicate ValidVerdict(vs: seq<Assessment>) {
    && vs != []
    && (forall i :: 0 <= i < |vs| ==> !Blank(vs[i].needID))
    && forall i, j :: 0 <= i < j < |vs| ==> vs[i].needID != vs[j].needID
  }

  /** The checkpoint tool: submit, then record. */
  function StepCheckpoint(s: System, c: Config, reason: string, ds: seq<Disposition>): System {
    var (p, output) := SubmitOp(s.p, c, reason, ds);
    if output.None? then s.(p := p)
    else s.(p := p, checkpoints := s.checkpoints + [output.value], log := s.log + [output.value],
            failed := s.failed || s.checkpoints != [])
  }

  /** The collection runner drains its recorder and the coordinator advances. */
  function StepCollectionEnd(s: System, c: Config): System {
    if s.p.flow.phase != Collection || s.checkpoints == [] then s
    else match AdvanceFlow(s.p.flow, CollectionCheckpoint, c.maxRounds)
      case Advanced(flow) => s.(p := s.p.(flow := flow), current := s.checkpoints[0], checkpoints := [])
      case _ => s.(failed := true)
  }

  /** The verdict tool: validate against the active needs, then record. */
  function StepVerdict(s: System, vs: seq<Assessment>): System {
    if s.p.flow.phase != CollectionQC then s
    else if !VerdictFits(Active(s.p.needStates), vs, s.p.lastRoundHadArtifacts) then s
    else if !ValidVerdict(vs) || s.verdicts != [] then s
    else s.(verdicts := [vs])
  }

  /** `Runner.Review` after the session's turn. */
  function StepReview(s: System, c: Config): System {
    if s.p.flow.phase != CollectionQC || s.verdicts == [] then s
    else
      var marked := s.p.(reviewed := s.p.reviewed + ToSet(s.current.ids));
      var exhausted := s.p.flow.roundsUsed >= c.maxRounds;
      var (p, ok) := ApplyOp(marked, s.current.dispositions, s.verdicts[0], exhausted, |s.current.ids| > 0);
      if !ok then s.(p := p, verdicts := [], failed := true)
      else
        var event := if AllTerminal(p.needStates) then Sufficient else NeedsMore;
        match AdvanceFlow(p.flow, event, c.maxRounds)
        case Advanced(flow) =>
          s.(p := p.(flow := flow, accepted := if event == NeedsMore then false else p.accepted), verdicts := [])
        case _ => s.(p := p, verdicts := [], failed := true)
  }

  function Step(s: System, c: Config, step: Label): System {
    match step
    case SetPlan(inputs) => s.(p := SetOp(s.p, c, inputs).0)
    case RegisterArtifact(oneSource, id) =>
      var answer := if id.None? then None else Some((id.value, id.value !in s.known));
      var reached := c.Valid() && s.p.needs != [] && !s.p.accepted && oneSource && id.Some?;
      s.(p := RegisterOp(s.p, c, oneSource, answer).0, known := if reached then s.known + {id.value} else s.known)
    case SubmitCheckpoint(reason, ds) => StepCheckpoint(s, c, reason, ds)
    case CallBegins(call) =>
      if call in s.calls || !ToolGateOpen(s.p) then s
      else s.(p := s.p.(active := s.p.active + 1), calls := s.calls + {call})
    case CallEnds(call) =>
      if call !in s.calls then s else s.(p := s.p.(active := s.p.active - 1), calls := s.calls - {call})
    case CollectionTurnEnds => StepCollectionEnd(s, c)
    case SubmitVerdict(vs) => StepVerdict(s, vs)
    case ReviewTurnEnds => StepReview(s, c)
  }

  function After(c: Config, known: set<string>, steps: seq<Label>): System {
    if steps == [] then Initial(known)
    else Step(After(c, known, steps[..|steps| - 1]), c, steps[|steps| - 1])
  }

  // -------------------------------------------------------------- invariant

  function SubmittedIDs(log: seq<CheckpointOutput>): seq<string> {
    if log == [] then [] else SubmittedIDs(log[..|log| - 1]) + log[|log| - 1].ids
  }

  /** The plan never moves under the needs. */
  ghost predicate PlanHolds(p: Protocol) {
    && |p.needStates| == |p.needs| && Canonical(p.needStates)
    && forall i :: 0 <= i < |p.needs| ==>
         p.needStates[i].need == p.needs[i] && p.needs[i].conditions != [] && Tended(p.needStates[i])
  }

  /** The books of submitted evidence. */
  ghost predicate BooksBalance(s: System) {
    var submitted := SubmittedIDs(s.log);
    && Distinct(s.p.evidence) && (forall id :: id in s.p.evidence ==> id in s.known)
    && |submitted| <= |s.p.evidence| && submitted == s.p.evidence[..|submitted|]
    && s.p.checkpointed == ToSet(submitted)
    && s.p.flow.unreviewed == |s.p.evidence| - |submitted|
    && s.p.active == |s.calls|
    && (s.p.accepted ==> |submitted| == |s.p.evidence| && s.p.active == 0 && s.p.needs != [])
  }

  /** The running round: its checkpoint is recorded, waiting for review, or not there yet. */
  ghost predicate RoundHolds(s: System) {
    var open := SubmittedIDs(if s.p.accepted && !s.p.flow.phase.Research? && s.log != [] then s.log[..|s.log| - 1]
                             else s.log);
    && (s.p.accepted && !s.p.flow.phase.Research? ==>
          && s.log != []
          && var last := s.log[|s.log| - 1];
             && DispositionsFit(Active(s.p.needStates), last.dispositions)
             && s.p.lastRoundHadArtifacts == (last.ids != []))
    && s.p.reviewed == ToSet(open)
    && match s.p.flow.phase
       case Collection => s.verdicts == [] && s.checkpoints == if s.p.accepted then [s.log[|s.log| - 1]] else []
       case CollectionQC =>
         && s.p.accepted && s.checkpoints == [] && s.current == s.log[|s.log| - 1] && |s.verdicts| <= 1
         && forall v :: v in s.verdicts ==> VerdictFits(Active(s.p.needStates), v, s.p.lastRoundHadArtifacts)
       case Research => s.p.accepted && s.checkpoints == [] && s.verdicts == [] && AllTerminal(s.p.needStates)
       case _ => false
  }

  ghost predicate Invariant(s: System, c: Config) {
    && !s.failed && s.p.flow.begun && 1 <= s.p.flow.roundsUsed <= c.maxRounds
    && s.p.flow.cursor == (if s.p.flow.phase.Research? then s.p.flow.roundsUsed else s.p.flow.roundsUsed - 1)
    && PlanHolds(s.p) && BooksBalance(s) && RoundHolds(s)
  }

  // ------------------------------------------------------------------ lemmas

  lemma {:induction false} UnsubmittedIsSuffix(evidence: seq<string>, n: nat)
    requires Distinct(evidence) && n <= |evidence|
    ensures Unsubmitted(evidence, ToSet(evidence[..n])) == evidence[n..]
  {
    if n == |evidence| {
      NothingUnsubmitted(evidence, ToSet(evidence[..n]));
    } else {
      var m := |evidence| - 1;
      assert evidence[..m][..n] == evidence[..n];
      UnsubmittedIsSuffix(evidence[..m], n);
      assert evidence[m] !in evidence[..n];
      assert evidence[n..] == evidence[..m][n..] + [evidence[m]];
    }
  }

  lemma {:induction false} NothingUnsubmitted(evidence: seq<string>, checkpointed: set<string>)
    requires forall id :: id in evidence ==> id in checkpointed
    ensures Unsubmitted(evidence, checkpointed) == []
  {
    if evidence != [] {
      assert evidence == evidence[..|evidence| - 1] + [evidence[|evidence| - 1]];
      NothingUnsubmitted(evidence[..|evidence| - 1], checkpointed);
    }
  }

  lemma ToSetConcat(a: seq<string>, b: seq<string>)
    ensures ToSet(a + b) == ToSet(a) + ToSet(b)
  {
  }

  /** `t` is a legitimate successor of `s`: same need, a recorded outcome unchanged, and the
      unsatisfied conditions at most fewer. */
  ghost predicate Succeeds(s: NeedState, t: NeedState) {
    && t.need == s.need
    && (s.outcome.Some? ==> t == s)
    && (s.assessed ==> t.assessed && t.unsatisfied <= s.unsatisfied)
  }

  lemma OpenNeedKeeps(s: NeedState, a: Assessment, d: Disposition, exhausted: bool, hasNewArtifacts: bool)
    requires Tended(s) && s.outcome.None? && EntryFits(s, a, hasNewArtifacts)
    ensures var t := if exhausted then OutOfRounds(NextState(s, a, d)) else NextState(s, a, d);
            Succeeds(s, t) && Tended(t) && (exhausted ==> t.outcome.Some?)
  {
    NextStateKeeps(s, a, d, hasNewArtifacts);
  }

  /** One applied round, seen from one need. */
  lemma RoundKeeps(s: NeedState, ds: seq<Disposition>, vs: seq<Assessment>, exhausted: bool, hasNewArtifacts: bool)
    requires Tended(s)
    requires s.outcome.None? ==> EntryFits(s, FindAssessment(vs, s.need.id), hasNewArtifacts)
    ensures var t := RoundState(s, ds, vs, exhausted);
            Succeeds(s, t) && Tended(t) && (exhausted ==> t.outcome.Some?)
  {
    if s.outcome.None? {
      OpenNeedKeeps(s, FindAssessment(vs, s.need.id), FindDisposition(ds, s.need.id), exhausted, hasNewArtifacts);
    }
  }

  lemma PlanStep(s: System, c: Config, inputs: seq<NeedInput>)
    requires Invariant(s, c)
    ensures Invariant(Step(s, c, SetPlan(inputs)), c)
  {
    FreezeIsCanonical(inputs);
  }

  lemma RegisterStep(s: System, c: Config, oneSource: bool, id: Option<string>)
    requires Invariant(s, c) && c.Valid()
    ensures Invariant(Step(s, c, RegisterArtifact(oneSource, id)), c)
  {
    var t := Step(s, c, RegisterArtifact(oneSource, id));
    var n := |SubmittedIDs(s.log)|;
    assert t.p.evidence[..n] == s.p.evidence[..n];
  }

  lemma CallStep(s: System, c: Config, step: Label)
    requires Invariant(s, c) && (step.CallBegins? || step.CallEnds?)
    ensures Invariant(Step(s, c, step), c)
  {
  }

  /** The state after an accepted checkpoint. */
  ghost predicate Checkpointed(s: System, t: System, output: CheckpointOutput) {
    && !s.p.accepted && s.p.active == 0 && s.p.needs != []
    && DispositionsFit(Active(s.p.needStates), output.dispositions)
    && |SubmittedIDs(s.log)| <= |s.p.evidence| && output.ids == s.p.evidence[|SubmittedIDs(s.log)|..]
    && t == s.(p := t.p, checkpoints := s.checkpoints + [output], log := s.log + [output])
    && t.p.flow == s.p.flow.(unreviewed := 0, checkpointPending := t.p.flow.checkpointPending)
    && t.p == s.p.(flow := t.p.flow, checkpointed := s.p.checkpointed + ToSet(output.ids), accepted := true,
                   lastRoundHadArtifacts := output.ids != [])
  }

  lemma CheckpointBalances(s: System, t: System, output: CheckpointOutput)
    requires BooksBalance(s) && Checkpointed(s, t, output)
    ensures BooksBalance(t)
  {
    var submitted := SubmittedIDs(s.log);
    assert t.log[..|t.log| - 1] == s.log;
    assert SubmittedIDs(t.log) == submitted + output.ids == s.p.evidence;
    assert s.p.evidence[..|s.p.evidence|] == s.p.evidence;
    ToSetConcat(submitted, output.ids);
  }

  lemma CheckpointOpensRound(s: System, c: Config, t: System, output: CheckpointOutput)
    requires Invariant(s, c) && Checkpointed(s, t, output)
    ensures RoundHolds(t)
  {
    assert s.p.flow.phase == Collection;
    assert t.log[..|t.log| - 1] == s.log && t.log[|t.log| - 1] == output;
  }

  /** An accepted checkpoint submits exactly the rest of the evidence. */
  lemma AcceptedCheckpoint(s: System, c: Config, reason: string, ds: seq<Disposition>)
    requires BooksBalance(s) && s.p.flow.begun && c.Valid() && SubmitOp(s.p, c, reason, ds).1.Some?
    requires !s.failed && s.checkpoints == []
    ensures var output := SubmitOp(s.p, c, reason, ds).1.value;
            && Checkpointed(s, StepCheckpoint(s, c, reason, ds), output)
            && output.dispositions == ds && output.emptyReason == reason
            && (if output.ids == [] then !Blank(reason) else reason == "")
  {
    var n := |SubmittedIDs(s.log)|;
    UnsubmittedIsSuffix(s.p.evidence, n);
  }

  /** The recorder never refuses an accepted checkpoint. */
  lemma CheckpointStep(s: System, c: Config, reason: string, ds: seq<Disposition>)
    requires Invariant(s, c) && c.Valid()
    ensures Invariant(Step(s, c, SubmitCheckpoint(reason, ds)), c)
  {
    var output := SubmitOp(s.p, c, reason, ds).1;
    if output.Some? {
      var t := StepCheckpoint(s, c, reason, ds);
      AcceptedCheckpoint(s, c, reason, ds);
      CheckpointBalances(s, t, output.value);
      CheckpointOpensRound(s, c, t, output.value);
    } else {
      assert Step(s, c, SubmitCheckpoint(reason, ds)) == s;
    }
  }

  lemma CollectionEndStep(s: System, c: Config)
    requires Invariant(s, c)
    ensures Invariant(Step(s, c, CollectionTurnEnds), c)
  {
  }

  lemma VerdictStep(s: System, c: Config, vs: seq<Assessment>)
    requires Invariant(s, c)
    ensures Invariant(Step(s, c, SubmitVerdict(vs)), c)
  {
  }

  lemma ReviewKeepsPlan(p: Protocol, ds: seq<Disposition>, vs: seq<Assessment>, exhausted: bool, hasNewArtifacts: bool)
    requires PlanHolds(p) && VerdictFits(Active(p.needStates), vs, hasNewArtifacts)
    ensures PlanHolds(p.(needStates := RoundStates(p.needStates, ds, vs, exhausted)))
    ensures exhausted ==> AllTerminal(RoundStates(p.needStates, ds, vs, exhausted))
  {
    var next := RoundStates(p.needStates, ds, vs, exhausted);
    forall i | 0 <= i < |p.needStates|
      ensures Succeeds(p.needStates[i], next[i]) && Tended(next[i]) && (exhausted ==> next[i].outcome.Some?)
    {
      if p.needStates[i].outcome.None? {
        EntryOfOpenNeed(p.needStates, vs, hasNewArtifacts, i);
      }
      RoundKeeps(p.needStates[i], ds, vs, exhausted, hasNewArtifacts);
    }
  }

  /** Any verdict the tool has recorded is applied, and the phase always advances. */
  lemma ReviewStep(s: System, c: Config)
    requires Invariant(s, c)
    ensures Invariant(Step(s, c, ReviewTurnEnds), c)
  {
    if s.p.flow.phase == CollectionQC && s.verdicts != [] {
      var vs := s.verdicts[0];
      assert vs in s.verdicts;
      var last := s.log[|s.log| - 1];
      var exhausted := s.p.flow.roundsUsed >= c.maxRounds;
      assert VerdictFits(Active(s.p.needStates), vs, |last.ids| > 0);
      ReviewKeepsPlan(s.p, last.dispositions, vs, exhausted, |last.ids| > 0);
      var p := s.p.(reviewed := s.p.reviewed + ToSet(last.ids),
                    needStates := RoundStates(s.p.needStates, last.dispositions, vs, exhausted));
      ToSetConcat(SubmittedIDs(s.log[..|s.log| - 1]), last.ids);
      AppliedRound(s, c, p);
    }
  }

  lemma VerdictAdvances(flow: Flow, maxRounds: int)
    requires flow.phase == CollectionQC
    ensures AdvanceFlow(flow, Sufficient, maxRounds) == Advanced(flow.(phase := Research, cursor := flow.cursor + 1))
    ensures flow.roundsUsed < maxRounds ==>
              AdvanceFlow(flow, NeedsMore, maxRounds)
              == Advanced(flow.(phase := Collection, roundsUsed := flow.roundsUsed + 1, cursor := flow.cursor + 1))
  {
  }

  /** What an applied verdict leaves behind. */
  function Reviewed(s: System, p: Protocol): System {
    var done := AllTerminal(p.needStates);
    var rounds := if done then p.flow.roundsUsed else p.flow.roundsUsed + 1;
    var flow := p.flow.(phase := if done then Research else Collection, roundsUsed := rounds,
                        cursor := p.flow.cursor + 1);
    s.(p := p.(flow := flow, accepted := done), verdicts := [])
  }

  lemma AppliedRound(s: System, c: Config, p: Protocol)
    requires Invariant(s, c) && s.p.flow.phase == CollectionQC && s.verdicts != []
    requires p == s.p.(reviewed := p.reviewed, needStates := p.needStates)
    requires PlanHolds(p) && (s.p.flow.roundsUsed >= c.maxRounds ==> AllTerminal(p.needStates))
    requires p.reviewed == ToSet(SubmittedIDs(s.log))
    requires (p, true)
             == ApplyOp(s.p.(reviewed := s.p.reviewed + ToSet(s.current.ids)), s.current.dispositions, s.verdicts[0],
                                  s.p.flow.roundsUsed >= c.maxRounds, |s.current.ids| > 0)
    ensures Invariant(StepReview(s, c), c)
  {
    ReviewedState(s, c, p);
    ReviewedHolds(s, c, p);
  }

  lemma ReviewedState(s: System, c: Config, p: Protocol)
    requires s.p.flow.phase == CollectionQC && s.verdicts != [] && s.p.accepted
    requires p == s.p.(reviewed := p.reviewed, needStates := p.needStates)
    requires s.p.flow.roundsUsed >= c.maxRounds ==> AllTerminal(p.needStates)
    requires (p, true)
             == ApplyOp(s.p.(reviewed := s.p.reviewed + ToSet(s.current.ids)), s.current.dispositions, s.verdicts[0],
                                  s.p.flow.roundsUsed >= c.maxRounds, |s.current.ids| > 0)
    ensures StepReview(s, c) == Reviewed(s, p)
  {
    VerdictAdvances(p.flow, c.maxRounds);
  }

  lemma ReviewedHolds(s: System, c: Config, p: Protocol)
    requires Invariant(s, c) && s.p.flow.phase == CollectionQC
    requires p == s.p.(reviewed := p.reviewed, needStates := p.needStates)
    requires PlanHolds(p) && (s.p.flow.roundsUsed >= c.maxRounds ==> AllTerminal(p.needStates))
    requires p.reviewed == ToSet(SubmittedIDs(s.log))
    ensures Invariant(Reviewed(s, p), c)
  {
  }

  lemma StepKeepsInvariant(s: System, c: Config, step: Label)
    requires Invariant(s, c) && c.Valid()
    ensures Invariant(Step(s, c, step), c)
  {
    match step
    case SetPlan(inputs) => PlanStep(s, c, inputs);
    case RegisterArtifact(oneSource, id) => RegisterStep(s, c, oneSource, id);
    case SubmitCheckpoint(reason, ds) => CheckpointStep(s, c, reason, ds);
    case CallBegins(_) => CallStep(s, c, step);
    case CallEnds(_) => CallStep(s, c, step);
    case CollectionTurnEnds => CollectionEndStep(s, c);
    case SubmitVerdict(vs) => VerdictStep(s, c, vs);
    case ReviewTurnEnds => ReviewStep(s, c);
  }

  lemma {:induction false} AlwaysInvariant(c: Config, known: set<string>, steps: seq<Label>)
    requires c.Valid()
    ensures Invariant(After(c, known, steps), c)
  {
    if steps != [] {
      AlwaysInvariant(c, known, steps[..|steps| - 1]);
      StepKeepsInvariant(After(c, known, steps[..|steps| - 1]), c, steps[|steps| - 1]);
    }
  }

  // ------------------------------------------------------------ main results

  /** Over every run: no recorder refuses an accepted call, every recorded verdict applies,
      and no phase transition is refused, the round budget included. */
  lemma HostNeverFails(c: Config, known: set<string>, steps: seq<Label>)
    requires c.Valid()
    ensures !After(c, known, steps).failed
  {
    AlwaysInvariant(c, known, steps);
  }

  /** Over every run: the accepted checkpoints, laid end to end, are the registered evidence
      in order and without repeats; an accepted checkpoint leaves nothing unsubmitted and
      stands only while no counted tool call is in flight. */
  lemma EvidenceIsSubmittedOnce(c: Config, known: set<string>, steps: seq<Label>)
    requires c.Valid()
    ensures var s := After(c, known, steps);
            && Distinct(s.p.evidence)
            && SubmittedIDs(s.log) <= s.p.evidence
            && (s.p.accepted ==> SubmittedIDs(s.log) == s.p.evidence && s.calls == {})
  {
    AlwaysInvariant(c, known, steps);
    var s := After(c, known, steps);
    assert s.p.evidence[..|s.p.evidence|] == s.p.evidence;
  }

  /** Over every run: Research starts with every registered artifact reviewed and every need
      terminal, after at most the budgeted number of applied verdicts. */
  lemma ResearchSeesReviewedEvidence(c: Config, known: set<string>, steps: seq<Label>)
    requires c.Valid()
    ensures var s := After(c, known, steps);
            && s.p.flow.cursor <= c.maxRounds
            && (s.p.flow.phase == Research ==> s.p.reviewed == ToSet(s.p.evidence) && AllTerminal(s.p.needStates))
  {
    AlwaysInvariant(c, known, steps);
    var s := After(c, known, steps);
    assert s.p.evidence[..|s.p.evidence|] == s.p.evidence;
  }

  lemma LastReviewEndsCollection(s: System, c: Config)
    requires Invariant(s, c) && s.verdicts != [] && s.p.flow.roundsUsed == c.maxRounds
    ensures StepReview(s, c).p.flow.phase == Research
  {
    var vs := s.verdicts[0];
    assert vs in s.verdicts;
    ReviewKeepsPlan(s.p, s.current.dispositions, vs, true, |s.current.ids| > 0);
    assert VerdictFits(Active(s.p.needStates), vs, |s.current.ids| > 0);
    assert DispositionsFit(Active(s.p.needStates), s.current.dispositions);
  }

  /** In the last budgeted round any recorded verdict ends Collection. */
  lemma LastRoundEndsCollection(c: Config, known: set<string>, steps: seq<Label>)
    requires c.Valid() && After(c, known, steps).verdicts != []
    requires After(c, known, steps).p.flow.roundsUsed == c.maxRounds
    ensures After(c, known, steps + [ReviewTurnEnds]).p.flow.phase == Research
  {
    assert (steps + [ReviewTurnEnds])[..|steps|] == steps;
    AlwaysInvariant(c, known, steps);
    LastReviewEndsCollection(After(c, known, steps), c);
  }

  /** The plan of `s` is still the plan of `t`, and each need state a legitimate successor. */
  ghost predicate PlanSucceeds(s: Protocol, t: Protocol) {
    && t.needs == s.needs && |t.needStates| == |s.needStates|
    && forall i :: 0 <= i < |s.needStates| ==> Succeeds(s.needStates[i], t.needStates[i])
  }

  /** Only an applied verdict touches a frozen plan. */
  lemma OtherStepsKeepPlan(s: System, c: Config, step: Label)
    requires s.p.needs != [] && (step.ReviewTurnEnds? ==> s.p.flow.phase != CollectionQC || s.verdicts == [])
    ensures Step(s, c, step).p.needs == s.p.needs && Step(s, c, step).p.needStates == s.p.needStates
  {
  }

  lemma StepSucceeds(s: System, c: Config, step: Label)
    requires Invariant(s, c) && s.p.needs != []
    ensures PlanSucceeds(s.p, Step(s, c, step).p)
  {
    hide Invariant, PlanSucceeds, StepReview, StepCheckpoint, StepVerdict, StepCollectionEnd, SetOp, RegisterOp;
    if !(step.ReviewTurnEnds? && s.p.flow.phase == CollectionQC && s.verdicts != []) {
      OtherStepsKeepPlan(s, c, step);
      SamePlanSucceeds(s.p, Step(s, c, step).p);
    } else {
      ReviewTurnSucceeds(s, c);
    }
  }

  lemma ReviewTurnSucceeds(s: System, c: Config)
    requires Invariant(s, c) && s.p.flow.phase == CollectionQC && s.verdicts != []
    ensures PlanSucceeds(s.p, StepReview(s, c).p)
  {
    hide Invariant, StepReview, VerdictFits, PlanHolds, PlanSucceeds, Succeeds, RoundStates;
    AppliedNeeds(s, c);
    ReviewSucceeds(s.p, s.current.dispositions, s.verdicts[0], s.p.flow.roundsUsed >= c.maxRounds,
                   |s.current.ids| > 0);
    RoundSucceeds(s.p, StepReview(s, c).p, s.current.dispositions, s.verdicts[0], s.p.flow.roundsUsed >= c.maxRounds);
  }

  lemma SamePlanSucceeds(p: Protocol, t: Protocol)
    requires t.needs == p.needs && t.needStates == p.needStates
    ensures PlanSucceeds(p, t)
  {
  }

  lemma RoundSucceeds(p: Protocol, t: Protocol, ds: seq<Disposition>, vs: seq<Assessment>, exhausted: bool)
    requires t.needs == p.needs && t.needStates == RoundStates(p.needStates, ds, vs, exhausted)
    requires forall i :: 0 <= i < |p.needStates| ==>
               Succeeds(p.needStates[i], RoundStates(p.needStates, ds, vs, exhausted)[i])
    ensures PlanSucceeds(p, t)
  {
    hide Succeeds;
  }

  /** An applied verdict changes the needs as `RoundStates` says, and no plan. */
  lemma AppliedNeeds(s: System, c: Config)
    requires Invariant(s, c) && s.p.flow.phase == CollectionQC && s.verdicts != []
    ensures StepReview(s, c).p.needs == s.p.needs
    ensures StepReview(s, c).p.needStates
            == RoundStates(s.p.needStates, s.current.dispositions, s.verdicts[0], s.p.flow.roundsUsed >= c.maxRounds)
    ensures PlanHolds(s.p) && VerdictFits(Active(s.p.needStates), s.verdicts[0], |s.current.ids| > 0)
  {
    hide PlanHolds, VerdictFits, RoundStates;
    assert s.verdicts[0] in s.verdicts;
  }

  lemma ReviewSucceeds(p: Protocol, ds: seq<Disposition>, vs: seq<Assessment>, exhausted: bool, hasNewArtifacts: bool)
    requires PlanHolds(p) && VerdictFits(Active(p.needStates), vs, hasNewArtifacts)
    ensures forall i :: 0 <= i < |p.needStates| ==>
              Succeeds(p.needStates[i], RoundStates(p.needStates, ds, vs, exhausted)[i])
  {
    forall i | 0 <= i < |p.needStates|
      ensures Succeeds(p.needStates[i], RoundState(p.needStates[i], ds, vs, exhausted))
    {
      if p.needStates[i].outcome.None? {
        EntryOfOpenNeed(p.needStates, vs, hasNewArtifacts, i);
      }
      RoundKeeps(p.needStates[i], ds, vs, exhausted, hasNewArtifacts);
    }
  }

  /** Over every continuation of every run: once frozen the plan never changes, a recorded
      outcome never changes, and unsatisfied conditions only ever disappear. */
  lemma {:induction false} PlanAndOutcomesAreFrozen(c: Config, known: set<string>, steps: seq<Label>, more: seq<Label>)
    requires c.Valid() && After(c, known, steps).p.needs != []
    ensures PlanSucceeds(After(c, known, steps).p, After(c, known, steps + more).p)
  {
    hide Step, Invariant;
    if more == [] {
      assert steps + more == steps;
    } else {
      var rest := more[..|more| - 1];
      assert (steps + more)[..|steps + more| - 1] == steps + rest;
      PlanAndOutcomesAreFrozen(c, known, steps, rest);
      AlwaysInvariant(c, known, steps + rest);
      StepSucceeds(After(c, known, steps + rest), c, more[|more| - 1]);
    }
  }

  // ----------------------------------------------------------- need lifecycle

  /** This step applies a recorded verdict. */
  predicate Applies(s: System, step: Label) {
    step.ReviewTurnEnds? && s.p.flow.phase == CollectionQC && s.verdicts != []
  }

  /** In this state need `i`, if still open, is reported stalled and without progress. */
  predicate Stalls(s: System, i: nat) {
    i < |s.p.needStates| && s.verdicts != [] && s.p.needStates[i].outcome.None? ==>
      var id := s.p.needStates[i].need.id;
      && FindDisposition(s.current.dispositions, id).search.Stalled?
      && FindAssessment(s.verdicts[0], id).progress.NoProgress?
  }

  /** The verdicts applied while `more` runs. */
  function Reviews(c: Config, known: set<string>, steps: seq<Label>, more: seq<Label>): nat {
    if more == [] then 0 else
      var rest := more[..|more| - 1];
      Reviews(c, known, steps, rest) + if Applies(After(c, known, steps + rest), more[|more| - 1]) then 1 else 0
  }

  /** Every verdict applied while `more` runs reports need `i` stalled and without progress. */
  ghost predicate OnlyStallsIn(c: Config, known: set<string>, steps: seq<Label>, more: seq<Label>, i: nat) {
    forall n :: 0 <= n < |more| && Applies(After(c, known, steps + more[..n]), more[n]) ==>
      Stalls(After(c, known, steps + more[..n]), i)
  }

  /** One applied verdict costs an open stalled need patience, or ends it. */
  lemma StalledReview(s: System, c: Config, i: nat)
    requires Invariant(s, c) && Applies(s, ReviewTurnEnds) && i < |s.p.needStates| && Stalls(s, i)
    requires s.p.needStates[i].outcome.None?
    ensures var next := StepReview(s, c).p.needStates;
            i < |next| && (next[i].outcome.Some? || 1 <= Patience(next[i]) < Patience(s.p.needStates[i]))
  {
    hide StepReview, VerdictFits, EntryFits, NextState, Invariant;
    var vs, need := s.verdicts[0], s.p.needStates[i];
    AppliedNeeds(s, c);
    EntryOfOpenNeed(s.p.needStates, vs, |s.current.ids| > 0, i);
    NextStateKeeps(need, FindAssessment(vs, need.need.id), FindDisposition(s.current.dispositions, need.need.id),
                   |s.current.ids| > 0);
  }

  lemma {:induction false} PatienceIsSpent(c: Config, known: set<string>, steps: seq<Label>, more: seq<Label>, i: nat)
    requires c.Valid() && After(c, known, steps).p.needs != [] && i < |After(c, known, steps).p.needStates|
    requires OnlyStallsIn(c, known, steps, more, i)
    ensures |After(c, known, steps + more).p.needStates| == |After(c, known, steps).p.needStates|
    ensures var s, t := After(c, known, steps).p.needStates, After(c, known, steps + more).p.needStates;
            t[i].outcome.Some? || Patience(t[i]) + Reviews(c, known, steps, more) <= Patience(s[i])
  {
    hide Step, Invariant, Patience, Stalls, OnlyStallsIn, Succeeds;
    if more == [] {
      assert steps + more == steps;
    } else {
      var rest := more[..|more| - 1];
      var step := more[|more| - 1];
      var now := After(c, known, steps + rest);
      assert (steps + more)[..|steps + more| - 1] == steps + rest;
      OnlyStallsBefore(c, known, steps, more, i);
      PatienceIsSpent(c, known, steps, rest, i);
      PlanAndOutcomesAreFrozen(c, known, steps, rest);
      AlwaysInvariant(c, known, steps + rest);
      PatienceStep(now, c, step, i);
    }
  }

  lemma OnlyStallsBefore(c: Config, known: set<string>, steps: seq<Label>, more: seq<Label>, i: nat)
    requires more != [] && OnlyStallsIn(c, known, steps, more, i)
    ensures OnlyStallsIn(c, known, steps, more[..|more| - 1], i)
    ensures var now := After(c, known, steps + more[..|more| - 1]);
            Applies(now, more[|more| - 1]) ==> Stalls(now, i)
  {
    hide After, Applies, Stalls;
    var rest := more[..|more| - 1];
    forall n | 0 <= n < |rest| && Applies(After(c, known, steps + rest[..n]), rest[n])
      ensures Stalls(After(c, known, steps + rest[..n]), i)
    {
      assert rest[..n] == more[..n];
    }
  }

  /** One step: an open need spends patience on every verdict that reports it stalled. */
  lemma PatienceStep(s: System, c: Config, step: Label, i: nat)
    requires Invariant(s, c) && s.p.needs != [] && i < |s.p.needStates| && (Applies(s, step) ==> Stalls(s, i))
    ensures var t, cost := Step(s, c, step).p.needStates, if Applies(s, step) then 1 else 0;
            && |t| == |s.p.needStates|
            && (t[i].outcome.Some?
                || (s.p.needStates[i].outcome.None? && Patience(t[i]) + cost <= Patience(s.p.needStates[i])))
  {
    StepSucceeds(s, c, step);
    if Applies(s, step) {
      if s.p.needStates[i].outcome.None? {
        StalledReview(s, c, i);
      }
    } else {
      OtherStepsKeepPlan(s, c, step);
    }
  }

  /** Over every continuation of every run: a need that every applied verdict reports stalled
      and without progress is terminal once there have been two for each of its conditions. */
  lemma StalledNeedIsTerminal(c: Config, known: set<string>, steps: seq<Label>, more: seq<Label>, i: nat)
    requires c.Valid() && After(c, known, steps).p.needs != [] && i < |After(c, known, steps).p.needs|
    requires OnlyStallsIn(c, known, steps, more, i)
    requires Reviews(c, known, steps, more) >= 2 * |After(c, known, steps).p.needs[i].conditions|
    ensures i < |After(c, known, steps + more).p.needStates|
    ensures After(c, known, steps + more).p.needStates[i].outcome.Some?
  {
    hide After, Reviews, OnlyStallsIn, Patience, Tended;
    OpenNeed(c, known, steps, i);
    PatienceIsSpent(c, known, steps, more, i);
    PlanAndOutcomesAreFrozen(c, known, steps, more);
    OpenNeed(c, known, steps + more, i);
    PatienceBounds(After(c, known, steps).p.needStates[i]);
    PatienceBounds(After(c, known, steps + more).p.needStates[i]);
  }

  lemma OpenNeed(c: Config, known: set<string>, steps: seq<Label>, i: nat)
    requires c.Valid() && i < |After(c, known, steps).p.needs|
    ensures var p := After(c, known, steps).p;
            && |p.needStates| == |p.needs| && Tended(p.needStates[i])
            && p.needStates[i].need == p.needs[i] && p.needs[i].conditions != []
  {
    AlwaysInvariant(c, known, steps);
  }

  lemma PatienceBounds(s: NeedState)
    requires Tended(s) && s.need.conditions != []
    ensures s.outcome.None? ==> 1 <= Patience(s) <= 2 * |s.need.conditions|
  {
    if s.outcome.None? {
      ConditionCount(s.need.conditions);
      assert s.need.conditions[0].id in ConditionIDs(s.need);
      if s.assessed {
        SubsetSize(s.unsatisfied, ConditionIDs(s.need));
      }
    }
  }
}
