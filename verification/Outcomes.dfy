/** How information needs end (internal/collection/tools.go, internal/coordinator/coordinator.go):
    the outcome of a need read off the rounds it went through alone, over every run of the
    Collection / Collection-QC loop. */
module Outcomes {
  import opened Options
  import opened Workflow
  import opened Collection
  import opened Review
  import opened Unicode
  import Decimal

  // -------------------------------------------------- the rounds of one need

  predicate Enough(h: seq<Round>, n: nat)
    requires n < |h|
  {
    h[n].assessment.status.SufficientEvidence?
  }

  /** The conditions that round `n` reports unsatisfied. */
  function Reported(h: seq<Round>, n: nat): set<string>
    requires n < |h|
  {
    ToSet(h[n].assessment.unsatisfied)
  }

  /** Round `n` is stalled and without progress, and reports what the round before reported. */
  predicate Stuck(h: seq<Round>, n: nat)
    requires n < |h|
  {
    && h[n].disposition.search.Stalled? && h[n].assessment.progress.NoProgress?
    && (n > 0 ==> Reported(h, n) == Reported(h, n - 1))
  }

  /** The need ends in round `n` because this round and the one before are stuck. */
  predicate GivenUp(h: seq<Round>, n: nat)
    requires n < |h|
  {
    n > 0 && !Enough(h, n) && Stuck(h, n - 1) && Stuck(h, n)
  }

  /** None of the first `n` rounds ends the need. */
  predicate Undecided(h: seq<Round>, n: nat)
    requires n <= |h|
  {
    forall k :: 0 <= k < n ==> !Enough(h, k) && !GivenUp(h, k)
  }

  /** What the rounds so far make of the need; `spent` means that the last budgeted round has
      been applied. */
  ghost predicate Decided(h: seq<Round>, t: NeedState, spent: bool) {
    && (t.outcome == Some(Satisfied) <==> h != [] && Undecided(h, |h| - 1) && Enough(h, |h| - 1))
    && (t.outcome == Some(SearchStalled) <==> h != [] && Undecided(h, |h| - 1) && GivenUp(h, |h| - 1))
    && (t.outcome == Some(OutOfBudget) <==> Undecided(h, |h|) && spent)
    && (t.outcome == None <==> Undecided(h, |h|) && !spent)
  }

  /** What an open need remembers of its rounds: the last report, and whether it was stuck. */
  ghost predicate Remembers(h: seq<Round>, t: NeedState) {
    && (t.assessed <==> h != [])
    && t.unsatisfied == (if h == [] then {} else Reported(h, |h| - 1))
    && t.streak == (if h != [] && Stuck(h, |h| - 1) then 1 else 0)
  }

  lemma EarlierRounds(h: seq<Round>, r: Round, n: nat)
    requires n < |h|
    ensures var longer := h + [r];
            && (Enough(longer, n) <==> Enough(h, n)) && Reported(longer, n) == Reported(h, n)
            && (Stuck(longer, n) <==> Stuck(h, n)) && (GivenUp(longer, n) <==> GivenUp(h, n))
  {
  }

  lemma UndecidedGrows(h: seq<Round>, r: Round)
    ensures Undecided(h + [r], |h|) <==> Undecided(h, |h|)
    ensures Undecided(h + [r], |h| + 1) <==> Undecided(h, |h|) && !Enough(h + [r], |h|) && !GivenUp(h + [r], |h|)
  {
    hide Enough, GivenUp;
    forall k | 0 <= k < |h|
      ensures (Enough(h + [r], k) <==> Enough(h, k)) && (GivenUp(h + [r], k) <==> GivenUp(h, k))
    {
      EarlierRounds(h, r, k);
    }
  }

  /** The last round as the need's own record shows it. */
  lemma LastRound(h: seq<Round>, r: Round, s: NeedState)
    requires Remembers(h, s)
    ensures var longer := h + [r];
            && (Enough(longer, |h|) <==> r.assessment.status.SufficientEvidence?)
            && Reported(longer, |h|) == ToSet(r.assessment.unsatisfied)
            && (Stuck(longer, |h|) <==> Idles(s, r.assessment, r.disposition))
            && (GivenUp(longer, |h|) <==>
                  !r.assessment.status.SufficientEvidence? && Idles(s, r.assessment, r.disposition) && s.streak == 1)
  {
    if h != [] {
      EarlierRounds(h, r, |h| - 1);
    }
  }

  /** One more round, as `Judged` has it. */
  lemma OneMoreRound(h: seq<Round>, s: NeedState, r: Round, exhausted: bool, t: NeedState)
    requires s.outcome.None? && Undecided(h, |h|) && Remembers(h, s)
    requires Judged(s, r.assessment, r.disposition, exhausted, t)
    ensures Decided(h + [r], t, exhausted)
    ensures t.outcome.None? ==> Remembers(h + [r], t)
    ensures t.outcome == Some(SearchStalled) || t.outcome == Some(OutOfBudget) ==>
              t.unsatisfied == Reported(h + [r], |h|)
  {
    LastRound(h, r, s);
    UndecidedGrows(h, r);
    hide Undecided, Enough, GivenUp, Stuck, Reported, Idles;
  }

  // ------------------------------------------------------------- over a run

  /** The round that an applied verdict gives to a need: the entries that name it. */
  ghost function Told(vs: seq<Assessment>, ds: seq<Disposition>, id: string): seq<Round> {
    if (exists a :: a in vs && a.needID == id) && (exists d :: d in ds && d.needID == id) then
      var a :| a in vs && a.needID == id;
      var d :| d in ds && d.needID == id;
      [Round(a, d)]
    else []
  }

  /** The rounds that need `i` goes through in a run. */
  ghost function History(c: Config, known: set<string>, steps: seq<Label>, i: nat): seq<Round> {
    if steps == [] then [] else
      var n := |steps| - 1;
      var now := After(c, known, steps[..n]);
      History(c, known, steps[..n], i)
      + if Applies(now, steps[n]) && i < |now.p.needs|
        then Told(now.verdicts[0], now.current.dispositions, now.p.needs[i].id) else []
  }

  lemma OneAssessment(active: seq<NeedState>, vs: seq<Assessment>, a: Assessment, b: Assessment)
    requires Canonical(active) && ExactlyOnce(AssessmentIDs(vs), active)
    requires a in vs && b in vs && a.needID == b.needID
    ensures a == b
  {
    CountedIsExact(AssessmentIDs(vs), IDs(active));
    var i :| 0 <= i < |vs| && vs[i] == a;
    var j :| 0 <= j < |vs| && vs[j] == b;
    assert AssessmentIDs(vs)[i] == AssessmentIDs(vs)[j];
  }

  lemma OneDisposition(active: seq<NeedState>, ds: seq<Disposition>, a: Disposition, b: Disposition)
    requires Canonical(active) && ExactlyOnce(DispositionIDs(ds), active)
    requires a in ds && b in ds && a.needID == b.needID
    ensures a == b
  {
    CountedIsExact(DispositionIDs(ds), IDs(active));
    var i :| 0 <= i < |ds| && ds[i] == a;
    var j :| 0 <= j < |ds| && ds[j] == b;
    assert DispositionIDs(ds)[i] == DispositionIDs(ds)[j];
  }

  /** A verdict names no need that has its outcome. */
  lemma ClosedIsNotNamed(states: seq<NeedState>, vs: seq<Assessment>, hasNewArtifacts: bool, i: nat)
    requires Canonical(states) && i < |states| && states[i].outcome.Some?
    requires VerdictFits(Active(states), vs, hasNewArtifacts)
    ensures forall a :: a in vs ==> a.needID != states[i].need.id
  {
    var active := Active(states);
    forall a | a in vs ensures a.needID != states[i].need.id {
      var j :| 0 <= j < |vs| && vs[j] == a;
      assert AssessmentIDs(vs)[j] in multiset(AssessmentIDs(vs)) && a.needID in multiset(IDs(active));
      var k :| 0 <= k < |active| && IDs(active)[k] == a.needID;
      assert active[k] in active && active[k] in states;
      var m :| 0 <= m < |states| && states[m] == active[k];
      assert m != i;
    }
  }

  /** An applied round as one need sees it. */
  ghost predicate Sees(s: NeedState, told: seq<Round>, exhausted: bool, t: NeedState) {
    if s.outcome.Some? then told == [] && t == s
    else |told| == 1 && Judged(s, told[0].assessment, told[0].disposition, exhausted, t)
  }

  lemma NeedSees(states: seq<NeedState>, ds: seq<Disposition>, vs: seq<Assessment>, exhausted: bool,
                 hasNewArtifacts: bool, i: nat)
    requires Canonical(states) && AllTended(states) && i < |states|
    requires DispositionsFit(Active(states), ds) && VerdictFits(Active(states), vs, hasNewArtifacts)
    ensures Sees(states[i], Told(vs, ds, states[i].need.id), exhausted, RoundStates(states, ds, vs, exhausted)[i])
  {
    hide Judged, AllTended, NamedEntryFits, RoundStates, Canonical;
    RoundJudged(states, ds, vs, exhausted, hasNewArtifacts);
    var s, t := states[i], RoundStates(states, ds, vs, exhausted)[i];
    if s.outcome.Some? {
      ClosedIsNotNamed(states, vs, hasNewArtifacts, i);
    } else {
      var a, d :| JudgedBy(s, ds, vs, exhausted, t, a, d);
      var told := Told(vs, ds, s.need.id);
      assert |told| == 1;
      ActiveIsCanonical(states);
      OneAssessment(Active(states), vs, a, told[0].assessment);
      OneDisposition(Active(states), ds, d, told[0].disposition);
    }
  }

  /** The rounds account for the state of the need after `rounds` applied verdicts. */
  ghost predicate Accounts(h: seq<Round>, t: NeedState, rounds: int, maxRounds: int) {
    && Decided(h, t, rounds == maxRounds)
    && (t.outcome.None? ==> |h| == rounds && Remembers(h, t))
    && (t.outcome == Some(SearchStalled) || t.outcome == Some(OutOfBudget) ==>
          h != [] && t.unsatisfied == Reported(h, |h| - 1))
  }

  /** What holds of need `i` between two steps. */
  ghost predicate Holds(h: seq<Round>, p: Protocol, maxRounds: int, i: nat) {
    && (i >= |p.needs| ==> h == [])
    && (p.needs == [] ==> p.flow.cursor == 0)
    && (i < |p.needs| ==> i < |p.needStates| && Accounts(h, p.needStates[i], p.flow.cursor, maxRounds))
  }

  lemma AccountsGrow(h: seq<Round>, s: NeedState, told: seq<Round>, t: NeedState, rounds: int, maxRounds: int)
    requires Accounts(h, s, rounds, maxRounds) && rounds < maxRounds
    requires Sees(s, told, rounds + 1 == maxRounds, t)
    ensures Accounts(h + told, t, rounds + 1, maxRounds)
  {
    if s.outcome.None? {
      OneMoreRound(h, s, told[0], rounds + 1 == maxRounds, t);
      assert told == [told[0]];
    } else {
      assert h + told == h;
    }
  }

  /** An applied verdict gives every open need its round. */
  lemma AppliedStep(h: seq<Round>, s: System, c: Config, i: nat)
    requires Invariant(s, c) && Applies(s, ReviewTurnEnds) && Holds(h, s.p, c.maxRounds, i)
    ensures s.p.needs != []
    ensures Holds(h + if i < |s.p.needs| then Told(s.verdicts[0], s.current.dispositions, s.p.needs[i].id) else [],
                  StepReview(s, c).p, c.maxRounds, i)
  {
    hide Accounts, Sees, Told, DispositionsFit, VerdictFits, RoundStates, Tended, Canonical, BooksBalance;
    var ds, vs, exhausted := s.current.dispositions, s.verdicts[0], s.p.flow.roundsUsed >= c.maxRounds;
    AppliedNeeds(s, c);
    AppliedCursor(s, c);
    if i < |s.p.needs| {
      NeedSees(s.p.needStates, ds, vs, exhausted, |s.current.ids| > 0, i);
      AccountsGrow(h, s.p.needStates[i], Told(vs, ds, s.p.needs[i].id), StepReview(s, c).p.needStates[i],
                   s.p.flow.cursor, c.maxRounds);
    }
  }

  lemma AppliedCursor(s: System, c: Config)
    requires Invariant(s, c) && Applies(s, ReviewTurnEnds)
    ensures StepReview(s, c).p.flow.cursor == s.p.flow.cursor + 1 == s.p.flow.roundsUsed
    ensures DispositionsFit(Active(s.p.needStates), s.current.dispositions) && s.p.needs != []
  {
    hide Invariant, StepReview, DispositionsFit;
    ReviewStep(s, c);
    Healthy(s, c);
    Healthy(StepReview(s, c), c);
    InReview(s, c);
    CursorAdvances(s, c);
  }

  lemma Healthy(s: System, c: Config)
    requires Invariant(s, c)
    ensures !s.failed
  {
    hide PlanHolds, BooksBalance, RoundHolds;
  }

  lemma InReview(s: System, c: Config)
    requires Invariant(s, c) && s.p.flow.phase == CollectionQC
    ensures s.p.flow.cursor + 1 == s.p.flow.roundsUsed && s.p.needs != []
    ensures DispositionsFit(Active(s.p.needStates), s.current.dispositions)
  {
    hide PlanHolds, DispositionsFit, VerdictFits;
  }

  lemma CursorAdvances(s: System, c: Config)
    requires Applies(s, ReviewTurnEnds) && !s.failed && !StepReview(s, c).failed
    ensures StepReview(s, c).p.flow.cursor == s.p.flow.cursor + 1
  {
    hide DispositionsFit, VerdictFits, RoundStates, AllTerminal;
  }

  /** No other step applies a verdict or gives a frozen need a new state. */
  lemma OtherStep(h: seq<Round>, s: System, c: Config, step: Label, i: nat)
    requires Invariant(s, c) && c.Valid() && !Applies(s, step) && Holds(h, s.p, c.maxRounds, i)
    ensures Holds(h, Step(s, c, step).p, c.maxRounds, i)
  {
    hide Accounts, Invariant;
    SameCursor(s, c, step);
    if s.p.needs != [] {
      OtherStepsKeepPlan(s, c, step);
    } else if step.SetPlan? && i < |Step(s, c, step).p.needs| {
      FreshAccounts(Step(s, c, step).p.needStates[i].need, c.maxRounds);
    }
  }

  lemma SameCursor(s: System, c: Config, step: Label)
    requires Invariant(s, c) && !Applies(s, step)
    ensures Step(s, c, step).p.flow.cursor == s.p.flow.cursor
    ensures s.p.needs == [] && !step.SetPlan? ==> Step(s, c, step).p.needs == []
  {
  }

  lemma FreshAccounts(need: Need, maxRounds: int)
    requires maxRounds > 0
    ensures Accounts([], FreshState(need), 0, maxRounds)
  {
  }

  lemma {:induction false} AlwaysHolds(c: Config, known: set<string>, steps: seq<Label>, i: nat)
    requires c.Valid()
    ensures Holds(History(c, known, steps, i), After(c, known, steps).p, c.maxRounds, i)
  {
    hide Invariant, Step, StepReview, Told;
    if steps != [] {
      var n := |steps| - 1;
      AlwaysHolds(c, known, steps[..n], i);
      AlwaysInvariant(c, known, steps[..n]);
      OneStep(History(c, known, steps[..n], i), After(c, known, steps[..n]), c, steps[n], i);
    }
  }

  lemma OneStep(h: seq<Round>, s: System, c: Config, step: Label, i: nat)
    requires Invariant(s, c) && c.Valid() && Holds(h, s.p, c.maxRounds, i)
    ensures Holds(h + (if Applies(s, step) && i < |s.p.needs|
                       then Told(s.verdicts[0], s.current.dispositions, s.p.needs[i].id) else []),
                  Step(s, c, step).p, c.maxRounds, i)
  {
    hide Invariant, Holds, Told, StepReview, StepCheckpoint, StepCollectionEnd, StepVerdict;
    if Applies(s, step) {
      AppliedStep(h, s, c, i);
    } else {
      OtherStep(h, s, c, step, i);
      assert h + [] == h;
    }
  }

  // ---------------------------------------------------------- the frozen plan

  /** The needs are what the inputs ask for, trimmed, in order and under canonical IDs. */
  ghost predicate Plans(inputs: seq<NeedInput>, needs: seq<Need>) {
    && |needs| == |inputs|
    && forall i :: 0 <= i < |needs| ==> Asks(inputs[i], i, needs[i])
  }

  ghost predicate Asks(input: NeedInput, i: nat, need: Need) {
    && need.id == "NEED-" + Decimal.Pad3(i + 1) && need.question == Trim(input.question)
    && |need.conditions| == |input.conditions|
    && forall j :: 0 <= j < |need.conditions| ==>
         && need.conditions[j].id == need.id + "-SC-" + Decimal.Pad3(j + 1)
         && need.conditions[j].text == Trim(input.conditions[j])
  }

  lemma FrozenAsks(inputs: seq<NeedInput>)
    ensures Plans(inputs, Freeze(inputs))
  {
  }

  /** Step `k` of the run set this plan, and no earlier one did. */
  ghost predicate SetBy(c: Config, known: set<string>, steps: seq<Label>, k: nat, needs: seq<Need>) {
    && k < |steps| && steps[k].SetPlan? && After(c, known, steps[..k]).p.needs == []
    && ValidPlan(steps[k].inputs) && Plans(steps[k].inputs, needs)
  }

  lemma PlanStepPlans(s: System, c: Config, step: Label)
    requires Invariant(s, c) && s.p.needs == [] && Step(s, c, step).p.needs != []
    ensures step.SetPlan? && ValidPlan(step.inputs) && Plans(step.inputs, Step(s, c, step).p.needs)
  {
    hide Invariant, Plans, ValidPlan, Freeze, FreshStates;
    if step.SetPlan? {
      FrozenAsks(step.inputs);
    } else {
      hide Step;
      SameNeeds(s, c, step);
    }
  }

  lemma SameNeeds(s: System, c: Config, step: Label)
    requires !step.SetPlan?
    ensures Step(s, c, step).p.needs == s.p.needs
  {
  }

  /** Over every run: the plan in force is exactly what the first accepted call asked for, and
      no later call has changed it. */
  lemma {:induction false} PlanIsFirstAccepted(c: Config, known: set<string>, steps: seq<Label>)
    requires c.Valid() && After(c, known, steps).p.needs != []
    ensures exists k: nat :: SetBy(c, known, steps, k, After(c, known, steps).p.needs)
  {
    hide Step, Invariant, Plans, ValidPlan;
    var n := |steps| - 1;
    var before := steps[..n];
    AlwaysInvariant(c, known, before);
    if After(c, known, before).p.needs == [] {
      PlanStepPlans(After(c, known, before), c, steps[n]);
      assert SetBy(c, known, steps, n, After(c, known, steps).p.needs);
    } else {
      PlanIsFirstAccepted(c, known, before);
      var k: nat :| SetBy(c, known, before, k, After(c, known, before).p.needs);
      StepSucceeds(After(c, known, before), c, steps[n]);
      assert steps[..k] == before[..k];
      assert SetBy(c, known, steps, k, After(c, known, steps).p.needs);
    }
  }

  /** Whatever the run so far: a plan is taken exactly when there is none and it is valid. */
  lemma PlanIsTakenExactlyWhen(c: Config, known: set<string>, steps: seq<Label>, inputs: seq<NeedInput>)
    requires c.Valid()
    ensures var s, t := After(c, known, steps), After(c, known, steps + [SetPlan(inputs)]);
            if s.p.needs == [] && ValidPlan(inputs) then Plans(inputs, t.p.needs) else t.p.needs == s.p.needs
  {
    hide Plans, ValidPlan;
    OneMore(c, known, steps, SetPlan(inputs));
    FrozenAsks(inputs);
  }

  lemma OneMore(c: Config, known: set<string>, steps: seq<Label>, step: Label)
    ensures After(c, known, steps + [step]) == Step(After(c, known, steps), c, step)
  {
    assert (steps + [step])[..|steps|] == steps;
  }

  // ------------------------------------------------- evidence and checkpoints

  /** An artifact becomes evidence of the run exactly when it becomes known as evidence, and
      acquisition is gated exactly while a batch waits for its checkpoint. */
  ghost predicate Books(known: set<string>, s: System, c: Config) {
    && s.known == known + ToSet(s.p.evidence)
    && (forall id :: id in s.p.evidence ==> id !in known)
    && (s.p.flow.checkpointPending <==> s.p.flow.unreviewed >= c.batchSize)
  }

  lemma BooksStep(known: set<string>, s: System, c: Config, step: Label)
    requires Invariant(s, c) && c.Valid() && Books(known, s, c)
    ensures Books(known, Step(s, c, step), c)
  {
    assert s.p.flow.begun;
    hide Invariant, Books;
    if step.RegisterArtifact? {
      RegisterBooks(known, s, c, step.oneSource, step.id);
    } else {
      QuietBooks(s, c, step);
      SameBooks(known, s, Step(s, c, step), c);
    }
  }

  /** No evidence comes in; the gate may be lifted. */
  ghost predicate Quiet(s: System, t: System) {
    && t.known == s.known && t.p.evidence == s.p.evidence
    && ((t.p.flow.unreviewed == s.p.flow.unreviewed && t.p.flow.checkpointPending == s.p.flow.checkpointPending)
        || (t.p.flow.unreviewed == 0 && !t.p.flow.checkpointPending))
  }

  lemma SameBooks(known: set<string>, s: System, t: System, c: Config)
    requires Books(known, s, c) && Quiet(s, t) && c.Valid()
    ensures Books(known, t, c)
  {
    hide ToSet;
  }

  lemma QuietBooks(s: System, c: Config, step: Label)
    requires s.p.flow.begun && !step.RegisterArtifact?
    ensures Quiet(s, Step(s, c, step))
  {
    hide DispositionsFit, VerdictFits, RoundStates, AllTerminal, ValidPlan, Freeze, FreshStates, ValidVerdict;
    hide Unsubmitted, Active, ToSet, Blank;
    if step.ReviewTurnEnds? {
      ReviewIsQuiet(s, c);
    } else if step.SubmitCheckpoint? {
      CheckpointIsQuiet(s, c, step.reason, step.dispositions);
    } else {
      hide StepReview, StepCheckpoint;
    }
  }

  lemma ReviewIsQuiet(s: System, c: Config)
    ensures Quiet(s, StepReview(s, c))
  {
    hide DispositionsFit, VerdictFits, RoundStates, AllTerminal, Active, ToSet;
  }

  lemma CheckpointIsQuiet(s: System, c: Config, reason: string, ds: seq<Disposition>)
    requires s.p.flow.begun
    ensures Quiet(s, StepCheckpoint(s, c, reason, ds))
  {
    hide DispositionsFit, Unsubmitted, Active, ToSet, Blank;
  }

  lemma RegisterBooks(known: set<string>, s: System, c: Config, oneSource: bool, id: Option<string>)
    requires c.Valid() && Books(known, s, c) && s.p.flow.begun
    ensures Books(known, Step(s, c, RegisterArtifact(oneSource, id)), c)
  {
    if id.Some? {
      ToSetConcat(s.p.evidence, [id.value]);
      assert ToSet([id.value]) == {id.value};
    }
  }

  lemma {:induction false} AlwaysBooks(c: Config, known: set<string>, steps: seq<Label>)
    requires c.Valid()
    ensures Books(known, After(c, known, steps), c)
  {
    hide Step, Invariant;
    if steps != [] {
      var n := |steps| - 1;
      AlwaysBooks(c, known, steps[..n]);
      AlwaysInvariant(c, known, steps[..n]);
      BooksStep(known, After(c, known, steps[..n]), c, steps[n]);
    }
  }

  /** Over every run: the evidence is what the run has made evidence, and the gate is on exactly
      while a whole batch of it has not been submitted. */
  lemma EvidenceIsWhatWasRegistered(c: Config, known: set<string>, steps: seq<Label>)
    requires c.Valid()
    ensures var s := After(c, known, steps);
            && ToSet(s.p.evidence) == s.known - known && |SubmittedIDs(s.log)| <= |s.p.evidence|
            && (s.p.flow.checkpointPending <==> |s.p.evidence| - |SubmittedIDs(s.log)| >= c.batchSize)
  {
    hide After;
    AlwaysBooks(c, known, steps);
    AlwaysInvariant(c, known, steps);
    hide PlanHolds, RoundHolds;
  }

  /** Whatever the run so far: a checkpoint is accepted exactly when there is a plan, none has
      been accepted since the last review, no counted call is in flight, the dispositions are
      one for each open need, and a reason is given exactly when there is nothing to submit. */
  lemma CheckpointIsAcceptedExactlyWhen(c: Config, known: set<string>, steps: seq<Label>, reason: string,
                                        ds: seq<Disposition>)
    requires c.Valid()
    ensures var s := After(c, known, steps);
            |After(c, known, steps + [SubmitCheckpoint(reason, ds)]).log| == |s.log| + 1 <==>
              && s.p.needs != [] && !s.p.accepted && s.calls == {} && DispositionsFit(Active(s.p.needStates), ds)
              && if SubmittedIDs(s.log) == s.p.evidence then !Blank(reason) else reason == ""
  {
    OneMore(c, known, steps, SubmitCheckpoint(reason, ds));
    AlwaysInvariant(c, known, steps);
    hide After;
    SubmitsExactlyWhen(After(c, known, steps), c, reason, ds);
  }

  lemma SubmitsExactlyWhen(s: System, c: Config, reason: string, ds: seq<Disposition>)
    requires Invariant(s, c) && c.Valid()
    ensures |StepCheckpoint(s, c, reason, ds).log| == |s.log| + 1 <==>
              && s.p.needs != [] && !s.p.accepted && s.calls == {} && DispositionsFit(Active(s.p.needStates), ds)
              && if SubmittedIDs(s.log) == s.p.evidence then !Blank(reason) else reason == ""
  {
    hide PlanHolds, RoundHolds, DispositionsFit, Blank;
    var n := |SubmittedIDs(s.log)|;
    UnsubmittedIsSuffix(s.p.evidence, n);
    assert s.p.evidence[n..] == [] <==> SubmittedIDs(s.log) == s.p.evidence by {
      assert s.p.evidence[..|s.p.evidence|] == s.p.evidence;
    }
    assert s.calls == {} <==> s.p.active == 0;
  }

  // ------------------------------------------------------------ main result

  /** Over every run, what has become of a need is exactly what its rounds say.  It is satisfied
      when the last round found the evidence sufficient; its search has stalled when the last
      two rounds were stalled, without progress and with the same conditions open; it is out of
      budget when no round ended it and the last budgeted one has been applied; and otherwise it
      is open, has gone through every round so far, and waits for what the last one reported. */
  lemma RoundsDecide(c: Config, known: set<string>, steps: seq<Label>, i: nat)
    requires c.Valid() && i < |After(c, known, steps).p.needs|
    ensures i < |After(c, known, steps).p.needStates|
    ensures var h, p := History(c, known, steps, i), After(c, known, steps).p;
            var t, spent := p.needStates[i], p.flow.cursor == c.maxRounds;
            && (t.outcome == Some(Satisfied) <==> h != [] && Undecided(h, |h| - 1) && Enough(h, |h| - 1))
            && (t.outcome == Some(SearchStalled) <==> h != [] && Undecided(h, |h| - 1) && GivenUp(h, |h| - 1))
            && (t.outcome == Some(OutOfBudget) <==> Undecided(h, |h|) && spent)
            && (t.outcome == None <==> Undecided(h, |h|) && !spent)
            && (t.outcome.None? ==> |h| == p.flow.cursor)
            && (t.outcome != Some(Satisfied) ==> t.unsatisfied == if h == [] then {} else Reported(h, |h| - 1))
  {
    hide After, History, Undecided, Enough, GivenUp, Reported;
    AlwaysHolds(c, known, steps, i);
    var p := After(c, known, steps).p;
    if p.needStates[i].outcome != Some(Satisfied) {
      LastReport(History(c, known, steps, i), p.needStates[i], p.flow.cursor, c.maxRounds);
    }
  }

  lemma LastReport(h: seq<Round>, t: NeedState, rounds: int, maxRounds: int)
    requires Accounts(h, t, rounds, maxRounds) && t.outcome != Some(Satisfied)
    ensures t.unsatisfied == if h == [] then {} else Reported(h, |h| - 1)
  {
    hide Reported, Undecided;
    if t.outcome.Some? {
      match t.outcome.value { case Satisfied => case SearchStalled => case OutOfBudget => }
    }
  }
}
