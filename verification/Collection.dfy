/** The Collection protocol tools (internal/collection/tools.go): the frozen plan, evidence
    registration, checkpoints and the per-need lifecycle that Collection QC drives. */
module Collection {
  import opened Options
  import opened Unicode
  import opened Workflow
  import Decimal

  datatype StopCondition = StopCondition(id: string, text: string)
  datatype Need = Need(id: string, question: string, conditions: seq<StopCondition>)
  datatype NeedInput = NeedInput(question: string, conditions: seq<string>)

  datatype Search = Continue | Stalled | OtherSearch(text: string)
  datatype Disposition = Disposition(needID: string, search: Search)

  datatype AssessmentStatus = SufficientEvidence | NeedsMoreEvidence | OtherStatus(text: string)
  datatype EvidenceProgress = Material | NoProgress | OtherProgress(text: string)
  datatype Assessment = Assessment(needID: string, status: AssessmentStatus, unsatisfied: seq<string>,
                                   progress: EvidenceProgress)

  datatype Outcome = Satisfied | SearchStalled | OutOfBudget
  datatype NeedState = NeedState(need: Need, unsatisfied: set<string>, assessed: bool, streak: nat,
                                 outcome: Option<Outcome>)

  datatype CheckpointOutput = CheckpointOutput(ids: seq<string>, emptyReason: string, dispositions: seq<Disposition>)

  /** The fields of `Context`; `active` counts the tool calls in flight. */
  datatype Protocol = Protocol(flow: Flow, evidence: seq<string>, reviewed: set<string>, checkpointed: set<string>,
                               needs: seq<Need>, needStates: seq<NeedState>, active: int,
                               accepted: bool, lastRoundHadArtifacts: bool)

  const NEW := Protocol(UNBEGUN, [], {}, {}, [], [], 0, false, false)

  // ------------------------------------------------------------ the plan

  function NeedID(index: nat): string {
    "NEED-" + Decimal.Pad3(index + 1)
  }

  function ConditionID(needID: string, index: nat): string {
    needID + "-SC-" + Decimal.Pad3(index + 1)
  }

  predicate ValidPlan(inputs: seq<NeedInput>) {
    && 1 <= |inputs| <= 10
    && forall i :: 0 <= i < |inputs| ==>
         && !Blank(inputs[i].question) && 1 <= |inputs[i].conditions| <= 5
         && forall j :: 0 <= j < |inputs[i].conditions| ==> !Blank(inputs[i].conditions[j])
  }

  function FreezeNeed(index: nat, input: NeedInput): Need {
    var id := NeedID(index);
    Need(id, Trim(input.question),
         seq(|input.conditions|, j requires 0 <= j < |input.conditions| =>
           StopCondition(ConditionID(id, j), Trim(input.conditions[j]))))
  }

  function Freeze(inputs: seq<NeedInput>): (needs: seq<Need>)
    ensures |needs| == |inputs|
  {
    seq(|inputs|, i requires 0 <= i < |inputs| => FreezeNeed(i, inputs[i]))
  }

  function FreshState(need: Need): NeedState {
    NeedState(need, {}, false, 0, None)
  }

  function FreshStates(needs: seq<Need>): (states: seq<NeedState>)
    ensures |states| == |needs|
  {
    seq(|needs|, i requires 0 <= i < |needs| => FreshState(needs[i]))
  }

  /** Canonical IDs are pairwise distinct. */
  ghost predicate Canonical(states: seq<NeedState>) {
    forall i, j :: 0 <= i < j < |states| ==> states[i].need.id != states[j].need.id
  }

  lemma FreezeIsCanonical(inputs: seq<NeedInput>)
    ensures Canonical(FreshStates(Freeze(inputs)))
    ensures forall i :: 0 <= i < |inputs| ==> !Blank(FreshStates(Freeze(inputs))[i].need.id)
  {
    forall i, j | 0 <= i < j < |inputs| ensures NeedID(i) != NeedID(j) {
      if NeedID(i) == NeedID(j) {
        assert NeedID(i)[5..] == Decimal.Pad3(i + 1) && NeedID(j)[5..] == Decimal.Pad3(j + 1);
        Decimal.Pad3Injective(i + 1, j + 1);
      }
    }
    forall i | 0 <= i < |inputs| ensures !Blank(NeedID(i)) {
      assert NeedID(i)[0] == 'N' && !IsSpace('N');
    }
  }

  // ------------------------------------------------- what validation accepts

  function Active(states: seq<NeedState>): (active: seq<NeedState>)
    ensures |active| <= |states|
    ensures forall s :: s in active <==> s in states && s.outcome.None?
  {
    if states == [] then [] else
      var n := |states| - 1;
      assert states == states[..n] + [states[n]];
      Active(states[..n]) + (if states[n].outcome.None? then [states[n]] else [])
  }

  function IDs(states: seq<NeedState>): (ids: seq<string>)
    ensures |ids| == |states|
    ensures forall i :: 0 <= i < |states| ==> ids[i] == states[i].need.id
  {
    seq(|states|, i requires 0 <= i < |states| => states[i].need.id)
  }

  function DispositionIDs(ds: seq<Disposition>): (ids: seq<string>)
    ensures |ids| == |ds|
    ensures forall i :: 0 <= i < |ds| ==> ids[i] == ds[i].needID
  {
    seq(|ds|, i requires 0 <= i < |ds| => ds[i].needID)
  }

  function AssessmentIDs(vs: seq<Assessment>): (ids: seq<string>)
    ensures |ids| == |vs|
    ensures forall i :: 0 <= i < |vs| ==> ids[i] == vs[i].needID
  {
    seq(|vs|, i requires 0 <= i < |vs| => vs[i].needID)
  }

  /** Every active need appears exactly once and nothing else appears. */
  predicate ExactlyOnce(ids: seq<string>, active: seq<NeedState>) {
    multiset(ids) == multiset(IDs(active))
  }

  predicate DispositionsFit(active: seq<NeedState>, ds: seq<Disposition>) {
    && ExactlyOnce(DispositionIDs(ds), active)
    && forall i :: 0 <= i < |ds| ==> !ds[i].search.OtherSearch?
  }

  function ConditionIDs(need: Need): set<string> {
    set c | c in need.conditions :: c.id
  }

  function ToSet(ids: seq<string>): set<string> {
    set id | id in ids
  }

  /** One well-formed entry of a verdict, against the state of the need it names. */
  predicate EntryFits(state: NeedState, a: Assessment, hasNewArtifacts: bool) {
    && !a.status.OtherStatus? && !a.progress.OtherProgress?
    && (a.progress.Material? ==> hasNewArtifacts)
    && (a.status.SufficientEvidence? <==> a.unsatisfied == [])
    && |ToSet(a.unsatisfied)| == |a.unsatisfied|
    && ToSet(a.unsatisfied) <= ConditionIDs(state.need)
    && (state.assessed ==> ToSet(a.unsatisfied) <= state.unsatisfied)
  }

  predicate VerdictFits(active: seq<NeedState>, vs: seq<Assessment>, hasNewArtifacts: bool) {
    && ExactlyOnce(AssessmentIDs(vs), active)
    && forall i :: 0 <= i < |vs| ==> NamedEntryFits(active, vs[i], hasNewArtifacts)
  }

  /** The entry fits whichever active need it names. */
  predicate NamedEntryFits(active: seq<NeedState>, a: Assessment, hasNewArtifacts: bool) {
    forall k :: 0 <= k < |active| && active[k].need.id == a.needID ==> EntryFits(active[k], a, hasNewArtifacts)
  }

  // ------------------------------------------------------- need lifecycle

  /** One need after one applied round. */
  function NextState(state: NeedState, a: Assessment, d: Disposition): NeedState {
    if a.status.SufficientEvidence? then state.(outcome := Some(Satisfied))
    else
      var current := ToSet(a.unsatisfied);
      var shrank := state.assessed && |current| < |state.unsatisfied|;
      var streak := if d.search.Stalled? && a.progress.NoProgress? && !shrank then state.streak + 1 else 0;
      NeedState(state.need, current, true, streak, if streak >= 2 then Some(SearchStalled) else None)
  }

  function OutOfRounds(state: NeedState): NeedState {
    if state.outcome.None? then state.(outcome := Some(OutOfBudget)) else state
  }

  function FindAssessment(vs: seq<Assessment>, id: string): Assessment {
    if vs == [] then Assessment("", OtherStatus(""), [], OtherProgress(""))
    else if vs[|vs| - 1].needID == id then vs[|vs| - 1]
    else FindAssessment(vs[..|vs| - 1], id)
  }

  function FindDisposition(ds: seq<Disposition>, id: string): Disposition {
    if ds == [] then Disposition("", OtherSearch(""))
    else if ds[|ds| - 1].needID == id then ds[|ds| - 1]
    else FindDisposition(ds[..|ds| - 1], id)
  }

  function RoundState(state: NeedState, ds: seq<Disposition>, vs: seq<Assessment>, exhausted: bool): NeedState {
    if state.outcome.Some? then state
    else
      var next := NextState(state, FindAssessment(vs, state.need.id), FindDisposition(ds, state.need.id));
      if exhausted then OutOfRounds(next) else next
  }

  /** All needs after one applied round. */
  function RoundStates(states: seq<NeedState>, ds: seq<Disposition>, vs: seq<Assessment>,
                       exhausted: bool): (next: seq<NeedState>)
    ensures |next| == |states|
  {
    seq(|states|, i requires 0 <= i < |states| => RoundState(states[i], ds, vs, exhausted))
  }

  predicate AllTerminal(states: seq<NeedState>) {
    forall i :: 0 <= i < |states| ==> states[i].outcome.Some?
  }

  // ------------------------------------------------------------------ lemmas

  ghost predicate Distinct(ids: seq<string>) {
    forall i, j :: 0 <= i < j < |ids| ==> ids[i] != ids[j]
  }

  lemma {:induction false} DistinctMultiset(ids: seq<string>)
    ensures Distinct(ids) <==> forall id :: id in ids ==> multiset(ids)[id] == 1
  {
    if ids != [] {
      var n := |ids| - 1;
      DistinctMultiset(ids[..n]);
      assert ids == ids[..n] + [ids[n]];
      assert multiset(ids) == multiset(ids[..n]) + multiset{ids[n]};
      if Distinct(ids) {
        assert ids[n] !in ids[..n];
      } else if ids[n] in ids[..n] {
        assert multiset(ids)[ids[n]] >= 2;
      } else {
        var i, j :| 0 <= i < j < |ids| && ids[i] == ids[j];
        assert !Distinct(ids[..n]);
        var id :| id in ids[..n] && multiset(ids[..n])[id] != 1;
        assert multiset(ids)[id] != 1;
      }
    }
  }

  /** The pigeonhole behind both validators: as many distinct known IDs as there are known
      IDs are all of them. */
  lemma {:induction false} CountedIsExact(ids: seq<string>, wanted: seq<string>)
    requires Distinct(wanted)
    ensures multiset(ids) == multiset(wanted) <==>
            |ids| == |wanted| && Distinct(ids) && forall id :: id in ids ==> id in wanted
  {
    DistinctMultiset(ids);
    DistinctMultiset(wanted);
    if multiset(ids) == multiset(wanted) {
      assert |multiset(ids)| == |ids| && |multiset(wanted)| == |wanted|;
      forall id | id in ids ensures id in wanted && multiset(ids)[id] == 1 {
        assert id in multiset(ids) && id in multiset(wanted);
      }
    }
    if |ids| == |wanted| && Distinct(ids) && forall id :: id in ids ==> id in wanted {
      DistinctInside(ids, wanted);
    }
  }

  lemma {:induction false} DistinctInside(ids: seq<string>, wanted: seq<string>)
    requires Distinct(ids) && |ids| == |wanted| && forall id :: id in ids ==> id in wanted
    ensures multiset(ids) == multiset(wanted)
  {
    if ids != [] {
      var n := |ids| - 1;
      assert ids[n] in ids;
      var k :| 0 <= k < |wanted| && wanted[k] == ids[n];
      var rest := wanted[..k] + wanted[k + 1..];
      assert ids == ids[..n] + [ids[n]];
      assert wanted == wanted[..k] + [wanted[k]] + wanted[k + 1..];
      forall id | id in ids[..n] ensures id in rest {
        var j :| 0 <= j < n && ids[j] == id;
        assert id in ids && id != ids[n];
      }
      DistinctInside(ids[..n], rest);
    }
  }

  // ------------------------------------------------------------- validators

  /** The closing sweep of both validators. */
  method AllSeen(active: seq<NeedState>, seen: set<string>) returns (all: bool)
    ensures all <==> forall k :: 0 <= k < |active| ==> active[k].need.id in seen
  {
    for k := 0 to |active|
      invariant forall j :: 0 <= j < k ==> active[j].need.id in seen
    {
      if active[k].need.id !in seen {
        return false;
      }
    }
    return true;
  }

  /** The first `n` dispositions show no defect. */
  ghost predicate DispositionsCleanUpTo(active: seq<NeedState>, ds: seq<Disposition>, n: nat)
    requires n <= |ds|
  {
    && Distinct(DispositionIDs(ds)[..n])
    && forall j :: 0 <= j < n ==> DispositionIDs(ds)[j] in IDs(active) && !ds[j].search.OtherSearch?
  }

  lemma CleanIsFit(active: seq<NeedState>, ds: seq<Disposition>)
    requires Canonical(active)
    ensures DispositionsFit(active, ds) <==> |ds| == |active| && DispositionsCleanUpTo(active, ds, |ds|)
  {
    var ids := DispositionIDs(ds);
    CountedIsExact(ids, IDs(active));
    assert ids[..|ds|] == ids;
    assert (forall id :: id in ids ==> id in IDs(active)) <==> forall j :: 0 <= j < |ids| ==> ids[j] in IDs(active);
  }

  lemma FitSeesAll(active: seq<NeedState>, ds: seq<Disposition>)
    requires DispositionsFit(active, ds)
    ensures forall k :: 0 <= k < |active| ==> active[k].need.id in ToSet(DispositionIDs(ds))
  {
    forall k | 0 <= k < |active| ensures active[k].need.id in ToSet(DispositionIDs(ds)) {
      assert IDs(active)[k] in multiset(DispositionIDs(ds));
    }
  }

  /** `validateNeedDispositions`. */
  method ValidateNeedDispositions(active: seq<NeedState>, ds: seq<Disposition>) returns (accepted: bool)
    requires Canonical(active)
    ensures accepted <==> DispositionsFit(active, ds)
  {
    CleanIsFit(active, ds);
    if |ds| != |active| {
      return false;
    }
    var clean, seen := CheckDispositions(active, ds);
    if !clean {
      return false;
    }
    FitSeesAll(active, ds);
    accepted := AllSeen(active, seen);
  }

  method CheckDispositions(active: seq<NeedState>, ds: seq<Disposition>) returns (clean: bool, seen: set<string>)
    ensures clean <==> DispositionsCleanUpTo(active, ds, |ds|)
    ensures clean ==> seen == ToSet(DispositionIDs(ds))
  {
    ghost var ids := DispositionIDs(ds);
    var expected := set s | s in active :: s.need.id;
    seen, clean := {}, true;
    for i := 0 to |ds|
      invariant clean <==> DispositionsCleanUpTo(active, ds, i)
      invariant clean ==> seen == ToSet(ids[..i])
    {
      assert ids[..i + 1] == ids[..i] + [ids[i]];
      assert ids[i] in expected <==> ids[i] in IDs(active);
      if ds[i].needID !in expected {
        clean := false;
      } else {
        if ds[i].needID in seen {
          clean := false;
        }
        seen := seen + {ds[i].needID};
        if ds[i].search.OtherSearch? {
          clean := false;
        }
      }
    }
    assert ids[..|ds|] == ids;
  }

  /** `validateAssessments`: every defect of every entry is an issue, and any issue rejects. */
  method ValidateAssessments(active: seq<NeedState>, vs: seq<Assessment>,
                             hasNewArtifacts: bool) returns (accepted: bool)
    requires Canonical(active)
    ensures accepted <==> VerdictFits(active, vs, hasNewArtifacts)
  {
    CountedIsExact(AssessmentIDs(vs), IDs(active));
    CleanIsPointwise(active, vs, hasNewArtifacts);
    if |vs| != |active| {
      return false;
    }
    var clean, seen := CheckEntries(active, vs, hasNewArtifacts);
    if !clean {
      return false;
    }
    accepted := AllSeen(active, seen);
    forall k | 0 <= k < |active| ensures active[k].need.id in seen {
      assert IDs(active)[k] in multiset(AssessmentIDs(vs));
    }
  }

  method CheckEntries(active: seq<NeedState>, vs: seq<Assessment>, hasNewArtifacts: bool)
    returns (clean: bool, seen: set<string>)
    requires Canonical(active)
    ensures clean <==> CleanUpTo(active, vs, hasNewArtifacts)
    ensures clean ==> forall id :: id in seen <==> id in AssessmentIDs(vs)
  {
    var stateByID := IndexByID(active);
    seen, clean := {}, true;
    for i := 0 to |vs|
      invariant clean <==> CleanUpTo(active, vs[..i], hasNewArtifacts)
      invariant clean ==> forall id :: id in seen <==> id in AssessmentIDs(vs[..i])
    {
      assert vs[..i + 1][..i] == vs[..i];
      assert AssessmentIDs(vs[..i + 1]) == AssessmentIDs(vs[..i]) + [vs[i].needID];
      if vs[i].needID !in stateByID {
        clean := false;
      } else {
        if vs[i].needID in seen {
          clean := false;
        }
        seen := seen + {vs[i].needID};
        var fits := CheckEntry(stateByID[vs[i].needID], vs[i], hasNewArtifacts);
        assert fits <==> NamedEntryFits(active, vs[i], hasNewArtifacts);
        clean := clean && fits;
      }
    }
    assert vs[..|vs|] == vs;
  }

  /** What the loop over the entries has established so far. */
  predicate CleanUpTo(active: seq<NeedState>, vs: seq<Assessment>, hasNewArtifacts: bool) {
    vs == [] ||
    (var n := |vs| - 1;
     && CleanUpTo(active, vs[..n], hasNewArtifacts)
     && vs[n].needID in IDs(active) && NamedEntryFits(active, vs[n], hasNewArtifacts)
     && vs[n].needID !in AssessmentIDs(vs[..n]))
  }

  lemma {:induction false} CleanIsPointwise(active: seq<NeedState>, vs: seq<Assessment>, hasNewArtifacts: bool)
    ensures CleanUpTo(active, vs, hasNewArtifacts) <==>
            && (forall j :: 0 <= j < |vs| ==>
                 vs[j].needID in IDs(active) && NamedEntryFits(active, vs[j], hasNewArtifacts))
            && Distinct(AssessmentIDs(vs))
  {
    if vs != [] {
      var n := |vs| - 1;
      CleanIsPointwise(active, vs[..n], hasNewArtifacts);
      assert AssessmentIDs(vs) == AssessmentIDs(vs[..n]) + [vs[n].needID];
    }
  }

  method IndexByID(active: seq<NeedState>) returns (stateByID: map<string, NeedState>)
    requires Canonical(active)
    ensures forall id :: id in stateByID <==> id in IDs(active)
    ensures forall k :: 0 <= k < |active| ==>
              active[k].need.id in stateByID && stateByID[active[k].need.id] == active[k]
    ensures forall id :: id in stateByID ==>
              exists k :: 0 <= k < |active| && active[k].need.id == id && stateByID[id] == active[k]
  {
    stateByID := map[];
    for i := 0 to |active|
      invariant forall k :: 0 <= k < i ==> active[k].need.id in stateByID && stateByID[active[k].need.id] == active[k]
      invariant forall id :: id in stateByID ==>
                  exists k :: 0 <= k < i && active[k].need.id == id && stateByID[id] == active[k]
    {
      stateByID := stateByID[active[i].need.id := active[i]];
    }
    forall k | 0 <= k < |active| ensures IDs(active)[k] in stateByID {
    }
  }

  /** The checks that `validateAssessments` makes on one entry. */
  method CheckEntry(state: NeedState, a: Assessment, hasNewArtifacts: bool) returns (fits: bool)
    ensures fits <==> EntryFits(state, a, hasNewArtifacts)
  {
    fits := true;
    if a.status.OtherStatus? || a.progress.OtherProgress? || (!hasNewArtifacts && a.progress.Material?) {
      fits := false;
    }
    if a.status.SufficientEvidence? && |a.unsatisfied| > 0 {
      fits := false;
    }
    if a.status.NeedsMoreEvidence? && |a.unsatisfied| == 0 {
      fits := false;
    }
    var allowed: set<string> := {};
    for k := 0 to |state.need.conditions|
      invariant allowed == set c | c in state.need.conditions[..k] :: c.id
    {
      allowed := allowed + {state.need.conditions[k].id};
      assert state.need.conditions[..k + 1] == state.need.conditions[..k] + [state.need.conditions[k]];
    }
    assert state.need.conditions[..|state.need.conditions|] == state.need.conditions;
    var current := ToSet(a.unsatisfied);
    if |current| != |a.unsatisfied| {
      fits := false;
    }
    if !(current <= allowed) || (state.assessed && !(current <= state.unsatisfied)) {
      fits := false;
    }
  }

  // -------------------------------------------------------- need lifecycle

  /** What every applied round keeps of a need. */
  ghost predicate Tended(s: NeedState) {
    s.outcome.None? ==>
      && s.streak <= 1
      && (if s.assessed then s.unsatisfied != {} && s.unsatisfied <= ConditionIDs(s.need) else s.streak == 0)
  }

  ghost predicate AllTended(states: seq<NeedState>) {
    forall i :: 0 <= i < |states| ==> Tended(states[i])
  }

  /** How many more stalled rounds a need can survive. */
  function Patience(s: NeedState): int {
    if s.assessed then 2 * |s.unsatisfied| - s.streak else 2 * |ConditionIDs(s.need)|
  }

  lemma SubsetSize<T>(a: set<T>, b: set<T>)
    requires a <= b
    ensures |a| <= |b|
    ensures a != b ==> |a| < |b|
  {
    assert b == a + (b - a);
    assert a != b ==> b - a != {};
  }

  /** A fitting assessment keeps the plan, only shrinks the unsatisfied set, and a stalled
      round without progress costs patience or ends the need. */
  lemma NextStateKeeps(s: NeedState, a: Assessment, d: Disposition, hasNewArtifacts: bool)
    requires Tended(s) && s.outcome.None? && EntryFits(s, a, hasNewArtifacts)
    ensures var t := NextState(s, a, d);
            && t.need == s.need && Tended(t)
            && (s.assessed ==> t.unsatisfied <= s.unsatisfied)
            && (d.search.Stalled? && a.progress.NoProgress? ==> t.outcome.Some? || 1 <= Patience(t) < Patience(s))
  {
    var current := ToSet(a.unsatisfied);
    if a.unsatisfied != [] {
      assert a.unsatisfied[0] in current;
    }
    if s.assessed {
      SubsetSize(current, s.unsatisfied);
    } else {
      SubsetSize(current, ConditionIDs(s.need));
    }
  }

  lemma {:induction false} FoundAssessment(vs: seq<Assessment>, id: string)
    requires id in AssessmentIDs(vs)
    ensures FindAssessment(vs, id) in vs && FindAssessment(vs, id).needID == id
  {
    var n := |vs| - 1;
    if vs[n].needID != id {
      assert AssessmentIDs(vs) == AssessmentIDs(vs[..n]) + [vs[n].needID];
      FoundAssessment(vs[..n], id);
    }
  }

  /** The verdict's entry for an open need fits that need. */
  lemma EntryOfOpenNeed(states: seq<NeedState>, vs: seq<Assessment>, hasNewArtifacts: bool, i: nat)
    requires VerdictFits(Active(states), vs, hasNewArtifacts)
    requires i < |states| && states[i].outcome.None?
    ensures EntryFits(states[i], FindAssessment(vs, states[i].need.id), hasNewArtifacts)
    ensures var a := FindAssessment(vs, states[i].need.id); a in vs && a.needID == states[i].need.id
  {
    var active := Active(states);
    assert states[i] in active;
    var k :| 0 <= k < |active| && active[k] == states[i];
    assert IDs(active)[k] == states[i].need.id && IDs(active)[k] in multiset(AssessmentIDs(vs));
    FoundAssessment(vs, states[i].need.id);
    var a := FindAssessment(vs, states[i].need.id);
    var j :| 0 <= j < |vs| && vs[j] == a;
    assert NamedEntryFits(active, vs[j], hasNewArtifacts);
  }

  lemma {:induction false} FoundDisposition(ds: seq<Disposition>, id: string)
    requires id in DispositionIDs(ds)
    ensures FindDisposition(ds, id) in ds && FindDisposition(ds, id).needID == id
  {
    var n := |ds| - 1;
    if ds[n].needID != id {
      assert DispositionIDs(ds) == DispositionIDs(ds[..n]) + [ds[n].needID];
      FoundDisposition(ds[..n], id);
    }
  }

  lemma DispositionOfOpenNeed(states: seq<NeedState>, ds: seq<Disposition>, i: nat)
    requires DispositionsFit(Active(states), ds) && i < |states| && states[i].outcome.None?
    ensures var d := FindDisposition(ds, states[i].need.id); d in ds && d.needID == states[i].need.id
  {
    var active := Active(states);
    assert states[i] in active;
    var k :| 0 <= k < |active| && active[k] == states[i];
    assert IDs(active)[k] == states[i].need.id && IDs(active)[k] in multiset(DispositionIDs(ds));
    FoundDisposition(ds, states[i].need.id);
  }

  // ------------------------------------------------------- what a round decides

  /** The search is stalled, without progress, and the conditions are the ones that were open
      before. */
  predicate Idles(s: NeedState, a: Assessment, d: Disposition) {
    && d.search.Stalled? && a.progress.NoProgress?
    && (s.assessed ==> ToSet(a.unsatisfied) == s.unsatisfied)
  }

  /** What one applied round makes of an open need `s` that `a` assesses and `d` disposes of. */
  ghost predicate Judged(s: NeedState, a: Assessment, d: Disposition, exhausted: bool, t: NeedState) {
    var enough := a.status.SufficientEvidence?;
    var over := Idles(s, a, d) && s.streak == 1;
    && t.need == s.need
    && (t.outcome == Some(Satisfied) <==> enough)
    && (t.outcome == Some(SearchStalled) <==> !enough && over)
    && (t.outcome == Some(OutOfBudget) <==> !enough && !over && exhausted)
    && (t.outcome == None <==> !enough && !over && !exhausted)
    && (enough ==> t.assessed == s.assessed && t.unsatisfied == s.unsatisfied)
    && (!enough ==> t.assessed && t.unsatisfied == ToSet(a.unsatisfied)
                    && t.streak == if Idles(s, a, d) then s.streak + 1 else 0)
  }

  /** Recorded outcomes stay, and every open need is judged by the entries that name it. */
  ghost predicate AllJudged(states: seq<NeedState>, ds: seq<Disposition>, vs: seq<Assessment>, exhausted: bool,
                            next: seq<NeedState>) {
    && |next| == |states|
    && forall i :: 0 <= i < |states| ==>
         if states[i].outcome.Some? then next[i] == states[i]
         else exists a, d :: JudgedBy(states[i], ds, vs, exhausted, next[i], a, d)
  }

  ghost predicate JudgedBy(s: NeedState, ds: seq<Disposition>, vs: seq<Assessment>, exhausted: bool, t: NeedState,
                           a: Assessment, d: Disposition) {
    a in vs && d in ds && a.needID == d.needID == s.need.id && Judged(s, a, d, exhausted, t)
  }

  /** What was left open can only shrink, so as many conditions are the same conditions. */
  lemma NeedJudged(s: NeedState, a: Assessment, d: Disposition, exhausted: bool, hasNewArtifacts: bool)
    requires Tended(s) && s.outcome.None? && EntryFits(s, a, hasNewArtifacts)
    ensures Judged(s, a, d, exhausted, if exhausted then OutOfRounds(NextState(s, a, d)) else NextState(s, a, d))
  {
    if s.assessed && ToSet(a.unsatisfied) <= s.unsatisfied {
      SubsetSize(ToSet(a.unsatisfied), s.unsatisfied);
    }
  }

  lemma RoundJudged(states: seq<NeedState>, ds: seq<Disposition>, vs: seq<Assessment>, exhausted: bool,
                    hasNewArtifacts: bool)
    requires DispositionsFit(Active(states), ds) && VerdictFits(Active(states), vs, hasNewArtifacts)
    requires AllTended(states)
    ensures AllJudged(states, ds, vs, exhausted, RoundStates(states, ds, vs, exhausted))
  {
    hide DispositionsFit, VerdictFits, EntryFits, Judged, NextState;
    var next := RoundStates(states, ds, vs, exhausted);
    forall i | 0 <= i < |states| && states[i].outcome.None?
      ensures JudgedBy(states[i], ds, vs, exhausted, next[i], FindAssessment(vs, states[i].need.id),
                       FindDisposition(ds, states[i].need.id))
    {
      EntryOfOpenNeed(states, vs, hasNewArtifacts, i);
      DispositionOfOpenNeed(states, ds, i);
      NeedJudged(states[i], FindAssessment(vs, states[i].need.id), FindDisposition(ds, states[i].need.id), exhausted,
                 hasNewArtifacts);
    }
  }

  lemma RoundTended(states: seq<NeedState>, ds: seq<Disposition>, vs: seq<Assessment>, exhausted: bool,
                    hasNewArtifacts: bool)
    requires VerdictFits(Active(states), vs, hasNewArtifacts) && AllTended(states)
    ensures AllTended(RoundStates(states, ds, vs, exhausted))
  {
    forall i | 0 <= i < |states| ensures Tended(RoundState(states[i], ds, vs, exhausted)) {
      if states[i].outcome.None? {
        var id := states[i].need.id;
        EntryOfOpenNeed(states, vs, hasNewArtifacts, i);
        NextStateKeeps(states[i], FindAssessment(vs, id), FindDisposition(ds, id), hasNewArtifacts);
      }
    }
  }

  lemma RoundApplies(states: seq<NeedState>, ds: seq<Disposition>, vs: seq<Assessment>, exhausted: bool,
                     hasNewArtifacts: bool)
    requires DispositionsFit(Active(states), ds) && VerdictFits(Active(states), vs, hasNewArtifacts)
    ensures AllTended(states) ==> var next := RoundStates(states, ds, vs, exhausted);
                                  AllTended(next) && AllJudged(states, ds, vs, exhausted, next)
  {
    hide DispositionsFit, VerdictFits, AllTended, AllJudged, RoundStates;
    if AllTended(states) {
      RoundJudged(states, ds, vs, exhausted, hasNewArtifacts);
      RoundTended(states, ds, vs, exhausted, hasNewArtifacts);
    }
  }

  datatype Round = Round(assessment: Assessment, disposition: Disposition)

  function LiveThrough(s: NeedState, rounds: seq<Round>): NeedState
    decreases |rounds|
  {
    if rounds == [] || s.outcome.Some? then s
    else LiveThrough(NextState(s, rounds[0].assessment, rounds[0].disposition), rounds[1..])
  }

  /** Every round, as long as the need is open, carries a fitting assessment without progress
      and a stalled disposition. */
  predicate OnlyStalls(s: NeedState, rounds: seq<Round>)
    decreases |rounds|
  {
    rounds == [] || s.outcome.Some? ||
    (&& EntryFits(s, rounds[0].assessment, false)
     && rounds[0].disposition.search.Stalled? && rounds[0].assessment.progress.NoProgress?
     && OnlyStalls(NextState(s, rounds[0].assessment, rounds[0].disposition), rounds[1..]))
  }

  lemma {:induction false} PatienceRunsOut(s: NeedState, rounds: seq<Round>)
    requires Tended(s) && s.need.conditions != [] && OnlyStalls(s, rounds) && |rounds| >= Patience(s)
    ensures LiveThrough(s, rounds).outcome.Some?
    decreases |rounds|
  {
    if s.outcome.None? {
      SubsetSize({}, s.unsatisfied);
      assert s.need.conditions[0].id in ConditionIDs(s.need);
      SubsetSize({}, ConditionIDs(s.need));
      assert rounds != [];
      NextStateKeeps(s, rounds[0].assessment, rounds[0].disposition, false);
      var next := NextState(s, rounds[0].assessment, rounds[0].disposition);
      if next.outcome.None? {
        PatienceRunsOut(next, rounds[1..]);
      }
    }
  }

  /** A frozen need that is only ever reported stalled without progress is terminal after at
      most two rounds for each of its stop conditions. */
  lemma StalledNeedTerminates(index: nat, input: NeedInput, rounds: seq<Round>)
    requires input.conditions != [] && |rounds| >= 2 * |input.conditions|
    requires OnlyStalls(FreshState(FreezeNeed(index, input)), rounds)
    ensures LiveThrough(FreshState(FreezeNeed(index, input)), rounds).outcome.Some?
  {
    var s := FreshState(FreezeNeed(index, input));
    ConditionCount(s.need.conditions);
    PatienceRunsOut(s, rounds);
  }

  lemma {:induction false} ConditionCount(conditions: seq<StopCondition>)
    ensures |set c | c in conditions :: c.id| <= |conditions|
  {
    if conditions != [] {
      var n := |conditions| - 1;
      ConditionCount(conditions[..n]);
      assert conditions == conditions[..n] + [conditions[n]];
      assert (set c | c in conditions :: c.id) == (set c | c in conditions[..n] :: c.id) + {conditions[n].id};
    }
  }

  // ------------------------------------------------ the tools as functions

  datatype Config = Config(maxRounds: int, batchSize: int) {
    predicate Valid() { maxRounds > 0 && batchSize > 0 }
  }

  /** The registered evidence that no checkpoint has submitted yet, in registration order. */
  function Unsubmitted(evidence: seq<string>, checkpointed: set<string>): seq<string> {
    if evidence == [] then [] else
      var n := |evidence| - 1;
      Unsubmitted(evidence[..n], checkpointed) + (if evidence[n] in checkpointed then [] else [evidence[n]])
  }

  function SetOp(p: Protocol, c: Config, inputs: seq<NeedInput>): (Protocol, bool) {
    if !c.Valid() then (p, false) else
      var begun := p.(flow := BeginFlow(p.flow));
      if p.needs != [] || !ValidPlan(inputs) then (begun, false)
      else (begun.(needs := Freeze(inputs), needStates := FreshStates(Freeze(inputs))), true)
  }

  /** `registered` is the registry's answer: the artifact ID and whether it is new evidence. */
  function RegisterOp(p: Protocol, c: Config, oneSource: bool, registered: Option<(string, bool)>): (Protocol, bool) {
    if !c.Valid() then (p, false) else
      var begun := p.(flow := BeginFlow(p.flow));
      if p.needs == [] || p.accepted || !oneSource || registered.None? then (begun, false)
      else if !registered.value.1 then (begun, true)
      else (begun.(flow := RegisterFlow(begun.flow, c.batchSize), evidence := p.evidence + [registered.value.0]), true)
  }

  function SubmitOp(p: Protocol, c: Config, reason: string, ds: seq<Disposition>): (Protocol,
                    Option<CheckpointOutput>) {
    if !c.Valid() then (p, None) else
      var begun := p.(flow := BeginFlow(p.flow));
      var pending := Unsubmitted(p.evidence, p.checkpointed);
      if p.needs == [] || p.accepted || p.active > 0 || !DispositionsFit(Active(p.needStates), ds) then (begun, None)
      else if pending == [] && Blank(reason) then (begun, None)
      else if pending != [] && reason != "" then (begun, None)
      else if pending != [] && begun.flow.unreviewed == 0 then (begun, None)
      else
        var flow := if pending == [] then begun.flow else begun.flow.(unreviewed := 0, checkpointPending := false);
        (begun.(flow := flow, checkpointed := p.checkpointed + ToSet(pending), accepted := true,
                lastRoundHadArtifacts := pending != []),
         Some(CheckpointOutput(pending, reason, ds)))
  }

  function ApplyOp(p: Protocol, ds: seq<Disposition>, vs: seq<Assessment>, exhausted: bool,
                   hasNewArtifacts: bool): (Protocol, bool) {
    if !DispositionsFit(Active(p.needStates), ds) || !VerdictFits(Active(p.needStates), vs, hasNewArtifacts)
    then (p, false)
    else (p.(needStates := RoundStates(p.needStates, ds, vs, exhausted)), true)
  }

  predicate ToolGateOpen(p: Protocol) {
    p.needs != [] && !p.accepted
  }

  // -------------------------------------------------------------- the object

  class Context {
    const state: State
    var evidence: seq<string>
    var reviewed: set<string>
    var checkpointed: set<string>
    var needs: seq<Need>
    var needStates: seq<NeedState>
    var activeToolCalls: int
    var checkpointAccepted: bool
    var lastRoundHadArtifacts: bool

    ghost function Value(): Protocol
      reads this, state
    {
      Protocol(state.flow, evidence, reviewed, checkpointed, needs, needStates, activeToolCalls,
               checkpointAccepted, lastRoundHadArtifacts)
    }

    ghost function Cfg(): Config {
      Config(state.maxCollectionRounds, state.batchSize)
    }

    constructor (maxRounds: int, batchSize: int)
      ensures Value() == NEW && fresh(state)
      ensures Cfg() == Config(maxRounds, if batchSize == 0 then DEFAULT_BATCH_SIZE else batchSize)
    {
      state := new State(maxRounds, batchSize);
      evidence, reviewed, checkpointed, needs, needStates := [], {}, {}, [], [];
      activeToolCalls, checkpointAccepted, lastRoundHadArtifacts := 0, false, false;
    }

    /** Validates and permanently freezes the initial plan. */
    method SetInformationNeeds(inputs: seq<NeedInput>) returns (ok: bool)
      modifies this, state
      ensures (Value(), ok) == SetOp(old(Value()), Cfg(), inputs)
    {
      ok := state.Begin();
      if !ok {
        return;
      }
      if |needs| > 0 {
        return false;
      }
      ok := ValidateInformationNeeds(inputs);
      if !ok {
        return;
      }
      var frozen := [];
      for i := 0 to |inputs|
        invariant state.flow == BeginFlow(old(state.flow)) && unchanged(this)
        invariant frozen == Freeze(inputs)[..i]
      {
        frozen := frozen + [FreezeNeed(i, inputs[i])];
      }
      var states := [];
      for i := 0 to |frozen|
        invariant state.flow == BeginFlow(old(state.flow)) && unchanged(this)
        invariant states == FreshStates(frozen)[..i]
      {
        states := states + [FreshState(frozen[i])];
      }
      needs, needStates := frozen, states;
      assert Freeze(inputs)[..|inputs|] == Freeze(inputs) && FreshStates(frozen)[..|frozen|] == FreshStates(frozen);
    }

    method ValidateInformationNeeds(inputs: seq<NeedInput>) returns (ok: bool)
      ensures ok <==> ValidPlan(inputs)
    {
      ok := 1 <= |inputs| <= 10;
      for i := 0 to |inputs|
        invariant ok <==> 1 <= |inputs| <= 10 && forall k :: 0 <= k < i ==>
                    && !Blank(inputs[k].question) && 1 <= |inputs[k].conditions| <= 5
                    && forall j :: 0 <= j < |inputs[k].conditions| ==> !Blank(inputs[k].conditions[j])
      {
        var good := !Blank(inputs[i].question) && 1 <= |inputs[i].conditions| <= 5;
        for j := 0 to |inputs[i].conditions|
          invariant good <==> !Blank(inputs[i].question) && 1 <= |inputs[i].conditions| <= 5
                              && forall m :: 0 <= m < j ==> !Blank(inputs[i].conditions[m])
        {
          if Blank(inputs[i].conditions[j]) {
            good := false;
          }
        }
        ok := ok && good;
      }
    }

    /** Registers one evidence artifact, given by exactly one of a path and a tool call. */
    method Register(path: string, toolCallID: string, registered: Option<(string, bool)>) returns (ok: bool)
      modifies this, state
      ensures (Value(), ok) == RegisterOp(old(Value()), Cfg(), (path != "") != (toolCallID != ""), registered)
    {
      ok := state.Begin();
      if !ok {
        return;
      }
      if |needs| == 0 || checkpointAccepted || (path != "") == (toolCallID != "") || registered.None? {
        return false;
      }
      var (id, created) := registered.value;
      if created {
        ok := state.RegisterEvidenceArtifact();
        evidence := evidence + [id];
      }
    }

    /** Submits every evidence artifact not submitted before. */
    method Submit(reason: string, ds: seq<Disposition>) returns (output: Option<CheckpointOutput>)
      requires Canonical(needStates)
      modifies this, state
      ensures (Value(), output) == SubmitOp(old(Value()), Cfg(), reason, ds)
    {
      var ok := state.Begin();
      if !ok {
        return None;
      }
      if |needs| == 0 || checkpointAccepted || activeToolCalls > 0 {
        return None;
      }
      ActiveIsCanonical(needStates);
      ok := ValidateNeedDispositions(Active(needStates), ds);
      if !ok {
        return None;
      }
      var pending := Pending();
      if |pending| == 0 && Blank(reason) {
        return None;
      }
      if |pending| > 0 && reason != "" {
        return None;
      }
      if |pending| > 0 {
        ok := state.Checkpoint();
        if !ok {
          return None;
        }
        checkpointed := checkpointed + ToSet(pending);
      }
      assert pending == [] ==> checkpointed + ToSet(pending) == checkpointed;
      checkpointAccepted := true;
      lastRoundHadArtifacts := |pending| > 0;
      return Some(CheckpointOutput(pending, reason, ds));
    }

    /** The registered evidence that no checkpoint has submitted yet. */
    method Pending() returns (pending: seq<string>)
      ensures pending == Unsubmitted(evidence, checkpointed)
    {
      pending := [];
      for i := 0 to |evidence|
        invariant pending == Unsubmitted(evidence[..i], checkpointed)
      {
        assert evidence[..i + 1][..i] == evidence[..i];
        if evidence[i] !in checkpointed {
          pending := pending + [evidence[i]];
        }
      }
      assert evidence[..|evidence|] == evidence;
    }

    /** Counts one tool call for its whole execution. */
    method BeginCollectionToolCall() returns (ok: bool)
      modifies this
      ensures ok <==> ToolGateOpen(old(Value()))
      ensures Value() == if ok then old(Value()).(active := old(activeToolCalls) + 1) else old(Value())
    {
      if |needs| == 0 || checkpointAccepted {
        return false;
      }
      activeToolCalls := activeToolCalls + 1;
      return true;
    }

    method ReleaseToolCall()
      modifies this
      ensures Value() == old(Value()).(active := old(activeToolCalls) - 1)
    {
      activeToolCalls := activeToolCalls - 1;
    }

    method BeginNextCollectionRound()
      modifies this
      ensures Value() == old(Value()).(accepted := false)
    {
      checkpointAccepted := false;
    }

    method MarkEvidenceReviewed(id: string)
      modifies this
      ensures Value() == old(Value()).(reviewed := old(reviewed) + {id})
    {
      reviewed := reviewed + {id};
    }

    method ValidateQCAssessments(vs: seq<Assessment>, hasNewArtifacts: bool) returns (ok: bool)
      requires Canonical(needStates)
      ensures ok <==> VerdictFits(Active(needStates), vs, hasNewArtifacts)
    {
      ActiveIsCanonical(needStates);
      ok := ValidateAssessments(Active(needStates), vs, hasNewArtifacts);
    }

    /** Applies one complete verdict to every open need. */
    method ApplyQCAssessments(ds: seq<Disposition>, vs: seq<Assessment>, exhausted: bool, hasNewArtifacts: bool)
      returns (ok: bool, allTerminal: bool)
      requires Canonical(needStates)
      modifies this
      ensures (Value(), ok) == ApplyOp(old(Value()), ds, vs, exhausted, hasNewArtifacts)
      ensures ok ==> (allTerminal <==> AllTerminal(needStates))
      ensures ok && old(AllTended(needStates)) ==>
                AllTended(needStates) && AllJudged(old(needStates), ds, vs, exhausted, needStates)
    {
      hide DispositionsFit, VerdictFits, AllTended, AllJudged, NextState;
      allTerminal := false;
      ActiveIsCanonical(needStates);
      ok := ValidateNeedDispositions(Active(needStates), ds);
      if !ok {
        return;
      }
      ok := ValidateAssessments(Active(needStates), vs, hasNewArtifacts);
      if !ok {
        return;
      }
      ghost var before := needStates;
      for i := 0 to |needStates|
        invariant |needStates| == |before| && Value() == old(Value()).(needStates := needStates)
        invariant forall k :: 0 <= k < i ==> needStates[k] == RoundState(before[k], ds, vs, false)
        invariant forall k :: i <= k < |before| ==> needStates[k] == before[k]
      {
        if needStates[i].outcome.None? {
          var a := FindAssessment(vs, needStates[i].need.id);
          var d := FindDisposition(ds, needStates[i].need.id);
          needStates := needStates[i := NextState(needStates[i], a, d)];
        }
      }
      if exhausted {
        ghost var mid := needStates;
        for i := 0 to |needStates|
          invariant |needStates| == |before| && Value() == old(Value()).(needStates := needStates)
          invariant forall k :: 0 <= k < i ==> needStates[k] == OutOfRounds(mid[k])
          invariant forall k :: i <= k < |before| ==> needStates[k] == mid[k]
        {
          needStates := needStates[i := OutOfRounds(needStates[i])];
        }
      }
      assert needStates == RoundStates(before, ds, vs, exhausted);
      RoundApplies(before, ds, vs, exhausted, hasNewArtifacts);
      allTerminal := forall i :: 0 <= i < |needStates| ==> needStates[i].outcome.Some?;
    }
  }

  lemma {:induction false} ActiveIsCanonical(states: seq<NeedState>)
    requires Canonical(states)
    ensures Canonical(Active(states))
  {
    if states != [] {
      var n := |states| - 1;
      assert states == states[..n] + [states[n]];
      ActiveIsCanonical(states[..n]);
      forall s | s in Active(states[..n]) ensures s.need.id != states[n].need.id {
        var k :| 0 <= k < n && states[k] == s;
      }
    }
  }
}
