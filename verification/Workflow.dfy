/** The phase machine of one research workflow (internal/workflow/state.go). */
module Workflow {

  datatype Phase = Collection | CollectionQC | Research | FinalQC | Complete

  datatype Event =
    | CollectionCheckpoint
    | Sufficient
    | NeedsMore
    | ResearchComplete
    | ResearchCompleteWithoutQC
    | ReviseResearch
    | FinalQCRetry
    | Pass

  const DEFAULT_BATCH_SIZE := 10
  const DEFAULT_MAX_COLLECTION_ROUNDS := 10

  /** The mutable part; `phase` means nothing before `begun`. */
  datatype Flow = Flow(begun: bool, phase: Phase, roundsUsed: nat, cursor: nat, unreviewed: nat,
                       checkpointPending: bool)

  const UNBEGUN := Flow(false, Collection, 0, 0, 0, false)

  datatype AdvanceResult = Advanced(flow: Flow) | InvalidTransition | BudgetExhausted

  function BeginFlow(flow: Flow): Flow {
    if flow.begun then flow else flow.(begun := true, phase := Collection, roundsUsed := 1)
  }

  function AdvanceFlow(flow: Flow, event: Event, maxRounds: int): AdvanceResult {
    match (flow.phase, event)
    case (Collection, CollectionCheckpoint) => Advanced(flow.(phase := CollectionQC))
    case (CollectionQC, Sufficient) => Advanced(flow.(phase := Research, cursor := flow.cursor + 1))
    case (CollectionQC, NeedsMore) =>
      if flow.roundsUsed >= maxRounds then BudgetExhausted
      else Advanced(flow.(phase := Collection, roundsUsed := flow.roundsUsed + 1, cursor := flow.cursor + 1))
    case (Research, ResearchComplete) => Advanced(flow.(phase := FinalQC))
    case (Research, ResearchCompleteWithoutQC) => Advanced(flow.(phase := Complete))
    case (FinalQC, Pass) => Advanced(flow.(phase := Complete))
    case (FinalQC, FinalQCRetry) => Advanced(flow)
    case (FinalQC, ReviseResearch) => Advanced(flow.(phase := Research))
    case _ => InvalidTransition
  }

  function RegisterFlow(flow: Flow, batchSize: int): Flow {
    var n := flow.unreviewed + 1;
    flow.(unreviewed := n, checkpointPending := flow.checkpointPending || n >= batchSize)
  }

  /** Drives a list of events; a refused event leaves the state unchanged. */
  function Drive(flow: Flow, events: seq<Event>, maxRounds: int): Flow {
    if events == [] then flow else
      var before := Drive(flow, events[..|events| - 1], maxRounds);
      match AdvanceFlow(before, events[|events| - 1], maxRounds)
      case Advanced(after) => after
      case _ => before
  }

  /** Under any sequence of events the round budget holds, and each round but the running
      one has been closed by exactly one Collection-QC verdict. */
  lemma {:induction false} RoundsStayWithinBudget(events: seq<Event>, maxRounds: int)
    requires maxRounds > 0
    ensures var flow := Drive(BeginFlow(UNBEGUN), events, maxRounds);
            && 1 <= flow.roundsUsed <= maxRounds
            && flow.cursor == if flow.phase.Collection? || flow.phase.CollectionQC? then flow.roundsUsed - 1
                              else flow.roundsUsed
  {
    if events != [] {
      RoundsStayWithinBudget(events[..|events| - 1], maxRounds);
    }
  }

  /** The phase an event belongs to, and the one it leads to. */
  function From(event: Event): Phase {
    match event
    case CollectionCheckpoint => Collection
    case Sufficient | NeedsMore => CollectionQC
    case ResearchComplete | ResearchCompleteWithoutQC => Research
    case ReviseResearch | FinalQCRetry | Pass => FinalQC
  }

  function To(event: Event): Phase {
    match event
    case CollectionCheckpoint => CollectionQC
    case NeedsMore => Collection
    case Sufficient | ReviseResearch => Research
    case ResearchComplete | FinalQCRetry => FinalQC
    case ResearchCompleteWithoutQC | Pass => Complete
  }

  /** The events of a run that are not refused. */
  function Taken(events: seq<Event>, maxRounds: int): seq<Event> {
    if events == [] then [] else
      var n := |events| - 1;
      var flow := Drive(BeginFlow(UNBEGUN), events[..n], maxRounds);
      Taken(events[..n], maxRounds) + if AdvanceFlow(flow, events[n], maxRounds).Advanced? then [events[n]] else []
  }

  function Reached(taken: seq<Event>): Phase {
    if taken == [] then Collection else To(taken[|taken| - 1])
  }

  predicate Collecting(phase: Phase) {
    phase.Collection? || phase.CollectionQC?
  }

  /** The events lead step by step from Collection to where `flow` stands; on the way evidence
      was found sufficient exactly once before Research, and the running round is one more than
      the verdicts that asked for another. */
  ghost predicate Walk(taken: seq<Event>, flow: Flow) {
    && flow.phase == Reached(taken)
    && (forall k :: 0 <= k < |taken| ==> From(taken[k]) == Reached(taken[..k]))
    && flow.roundsUsed == 1 + multiset(taken)[NeedsMore]
    && multiset(taken)[Sufficient] == if Collecting(flow.phase) then 0 else 1
  }

  /** Under any sequence of events the accepted ones are such a walk. */
  lemma {:induction false} TakenIsWalk(events: seq<Event>, maxRounds: int)
    ensures Walk(Taken(events, maxRounds), Drive(BeginFlow(UNBEGUN), events, maxRounds))
  {
    hide Walk, AdvanceFlow;
    if events == [] {
      EmptyWalk();
    } else {
      var n := |events| - 1;
      TakenIsWalk(events[..n], maxRounds);
      var taken, flow := Taken(events[..n], maxRounds), Drive(BeginFlow(UNBEGUN), events[..n], maxRounds);
      AdvanceIs(flow, events[n], maxRounds);
      if AdvanceFlow(flow, events[n], maxRounds).Advanced? {
        WalkOn(taken, flow, events[n], AdvanceFlow(flow, events[n], maxRounds).flow);
      } else {
        assert taken + [] == taken;
      }
    }
  }

  lemma EmptyWalk()
    ensures Walk([], BeginFlow(UNBEGUN))
  {
  }

  /** What one accepted event does. */
  ghost predicate Moves(flow: Flow, event: Event, after: Flow) {
    && From(event) == flow.phase && To(event) == after.phase
    && after.roundsUsed == flow.roundsUsed + (if event == NeedsMore then 1 else 0)
    && (event == Sufficient ==> Collecting(flow.phase))
    && (Collecting(after.phase) <==> Collecting(flow.phase) && event != Sufficient)
  }

  lemma AdvanceIs(flow: Flow, event: Event, maxRounds: int)
    ensures match AdvanceFlow(flow, event, maxRounds)
            case Advanced(after) => Moves(flow, event, after) && (event == NeedsMore ==> flow.roundsUsed < maxRounds)
            case _ => From(event) != flow.phase || (event == NeedsMore && flow.roundsUsed >= maxRounds)
  {
  }

  lemma WalkOn(taken: seq<Event>, flow: Flow, event: Event, after: Flow)
    requires Walk(taken, flow) && Moves(flow, event, after)
    ensures Walk(taken + [event], after)
  {
    hide From, To, Collecting;
    var longer := taken + [event];
    LastTaken(taken, event);
    forall k | 0 <= k < |longer| ensures From(longer[k]) == Reached(longer[..k]) {
      TakenBefore(taken, event, k);
    }
  }

  lemma LastTaken(taken: seq<Event>, event: Event)
    ensures var longer := taken + [event];
            && multiset(longer)[NeedsMore] == multiset(taken)[NeedsMore] + (if event == NeedsMore then 1 else 0)
            && multiset(longer)[Sufficient] == multiset(taken)[Sufficient] + (if event == Sufficient then 1 else 0)
            && Reached(longer) == To(event)
  {
  }

  lemma TakenBefore(taken: seq<Event>, event: Event, k: nat)
    requires k <= |taken|
    ensures var longer := taken + [event];
            && longer[..k] == taken[..k] && taken[..|taken|] == taken
            && longer[k] == if k < |taken| then taken[k] else event
  {
  }

  /** An event is refused exactly when it belongs to another phase, or asks for a round beyond
      the budget. */
  lemma TakenExactlyWhen(events: seq<Event>, event: Event, maxRounds: int)
    ensures AdvanceFlow(Drive(BeginFlow(UNBEGUN), events, maxRounds), event, maxRounds).Advanced? <==>
              && From(event) == Reached(Taken(events, maxRounds))
              && (event == NeedsMore ==> multiset(Taken(events, maxRounds))[NeedsMore] + 1 < maxRounds)
  {
    hide AdvanceFlow, From, To, Drive, Taken;
    TakenIsWalk(events, maxRounds);
    AdvanceIs(Drive(BeginFlow(UNBEGUN), events, maxRounds), event, maxRounds);
  }

  class State {
    const maxCollectionRounds: int
    const batchSize: int
    var flow: Flow

    constructor (maxCollectionRounds: int, batchSize: int)
      ensures flow == UNBEGUN && this.maxCollectionRounds == maxCollectionRounds
      ensures this.batchSize == if batchSize == 0 then DEFAULT_BATCH_SIZE else batchSize
    {
      flow := UNBEGUN;
      this.maxCollectionRounds := maxCollectionRounds;
      this.batchSize := if batchSize == 0 then DEFAULT_BATCH_SIZE else batchSize;
    }

    method Begin() returns (ok: bool)
      modifies this
      ensures ok <==> maxCollectionRounds > 0 && batchSize > 0
      ensures flow == if ok then BeginFlow(old(flow)) else old(flow)
    {
      if maxCollectionRounds <= 0 || batchSize <= 0 {
        return false;
      }
      if !flow.begun {
        flow := flow.(begun := true, phase := Collection, roundsUsed := 1);
      }
      return true;
    }

    /** Reaching the batch size turns the acquisition gate on. */
    method RegisterEvidenceArtifact() returns (ok: bool)
      modifies this
      ensures ok <==> old(flow).begun && batchSize > 0
      ensures flow == if ok then RegisterFlow(old(flow), batchSize) else old(flow)
    {
      if !flow.begun || batchSize <= 0 {
        return false;
      }
      flow := flow.(unreviewed := flow.unreviewed + 1);
      if flow.unreviewed >= batchSize {
        flow := flow.(checkpointPending := true);
      }
      return true;
    }

    method Checkpoint() returns (ok: bool)
      modifies this
      ensures ok <==> old(flow).begun && old(flow).unreviewed > 0
      ensures flow == if ok then old(flow).(unreviewed := 0, checkpointPending := false) else old(flow)
    {
      if !flow.begun || flow.unreviewed == 0 {
        return false;
      }
      flow := flow.(unreviewed := 0, checkpointPending := false);
      return true;
    }

    method Advance(event: Event) returns (ok: bool)
      modifies this
      ensures ok <==> old(flow).begun && AdvanceFlow(old(flow), event, maxCollectionRounds).Advanced?
      ensures flow == if ok then AdvanceFlow(old(flow), event, maxCollectionRounds).flow else old(flow)
    {
      if !flow.begun {
        return false;
      }
      match flow.phase {
        case Collection =>
          if event == CollectionCheckpoint {
            flow := flow.(phase := CollectionQC);
            return true;
          }
        case CollectionQC =>
          if event == Sufficient {
            flow := flow.(phase := Research, cursor := flow.cursor + 1);
            return true;
          }
          if event == NeedsMore && flow.roundsUsed < maxCollectionRounds {
            flow := flow.(phase := Collection, roundsUsed := flow.roundsUsed + 1, cursor := flow.cursor + 1);
            return true;
          }
        case Research =>
          if event == ResearchComplete {
            flow := flow.(phase := FinalQC);
            return true;
          }
          if event == ResearchCompleteWithoutQC {
            flow := flow.(phase := Complete);
            return true;
          }
        case FinalQC =>
          if event == Pass {
            flow := flow.(phase := Complete);
            return true;
          }
          if event == FinalQCRetry {
            return true;
          }
          if event == ReviseResearch {
            flow := flow.(phase := Research);
            return true;
          }
        case Complete =>
      }
      return false;
    }
  }
}
