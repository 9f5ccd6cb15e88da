/** Nested concurrency scopes (internal/concurrency/scope.go): a module's scope holds one
    more semaphore than its parent's, and research work takes a token from every semaphore
    of its scope, outermost first. */
module Scope {
  import opened Options

  const DEFAULT_GLOBAL_PARALLELISM := 10

  /** A semaphore: the buffered channel `id` of the given capacity. */
  datatype Gate = Gate(id: nat, capacity: nat)

  datatype View = View(chain: seq<Gate>, limit: int)

  function Root(parallelism: int, newID: nat): Option<View> {
    if parallelism < 0 then None
    else if parallelism == 0 then Some(View([Gate(newID, DEFAULT_GLOBAL_PARALLELISM)], DEFAULT_GLOBAL_PARALLELISM))
    else Some(View([Gate(newID, parallelism)], parallelism))
  }

  function Child(v: View, parallelism: int, newID: nat): Option<View> {
    if parallelism < 0 then None
    else if parallelism == 0 then Some(v)
    else Some(View(v.chain + [Gate(newID, parallelism)], if v.limit < parallelism then v.limit else parallelism))
  }

  /** `limit` is the least capacity on the chain. */
  ghost predicate Tightest(v: View) {
    && (forall i :: 0 <= i < |v.chain| ==> 0 < v.chain[i].capacity && v.limit <= v.chain[i].capacity)
    && exists i :: 0 <= i < |v.chain| && v.limit == v.chain[i].capacity
  }

  /** The scope object: its own slice of shared semaphores. */
  class ResearchScope {
    var semaphores: seq<Gate>
    var limit: int

    function Value(): View
      reads this
    {
      View(semaphores, limit)
    }

    constructor (semaphores: seq<Gate>, limit: int)
      ensures Value() == View(semaphores, limit)
    {
      this.semaphores, this.limit := semaphores, limit;
    }

    static method NewScope(globalParallelism: int, newID: nat) returns (scope: ResearchScope?)
      ensures scope == null <==> globalParallelism < 0
      ensures scope != null ==>
                fresh(scope) && Some(scope.Value()) == Root(globalParallelism, newID) && Tightest(scope.Value())
    {
      if globalParallelism < 0 {
        return null;
      }
      var parallelism := globalParallelism;
      if parallelism == 0 {
        parallelism := DEFAULT_GLOBAL_PARALLELISM;
      }
      scope := new ResearchScope([Gate(newID, parallelism)], parallelism);
      assert scope.semaphores[0].capacity == scope.limit;
    }

    method Module(parallelism: int, newID: nat) returns (child: ResearchScope?)
      requires Tightest(Value())
      ensures child == null <==> parallelism < 0
      ensures child != null ==>
                fresh(child) && Some(child.Value()) == Child(Value(), parallelism, newID) && Tightest(child.Value())
    {
      if parallelism < 0 {
        return null;
      }
      child := new ResearchScope(semaphores, limit);
      ChildIsTightest(Value(), parallelism, newID);
      if parallelism > 0 {
        child.semaphores := child.semaphores + [Gate(newID, parallelism)];
        child.limit := if child.limit < parallelism then child.limit else parallelism;
      }
    }
  }

  lemma ChildIsTightest(v: View, parallelism: int, newID: nat)
    requires Tightest(v) && parallelism >= 0
    ensures Tightest(Child(v, parallelism, newID).value)
  {
    if parallelism > 0 {
      var child := Child(v, parallelism, newID).value;
      var i :| 0 <= i < |v.chain| && v.limit == v.chain[i].capacity;
      assert child.chain[i] == v.chain[i] && child.chain[|v.chain|] == Gate(newID, parallelism);
    }
  }

  // ------------------------------------------------ workers and semaphores

  /** Where one call of `WithResearch` stands; the number counts the tokens it holds. */
  datatype Phase =
    | Checking(n: nat)    // about to look at ctx.Err()
    | Selecting(n: nat)   // in the select for the next token
    | Running             // inside work
    | Leaving(n: nat)     // in the deferred release loop
    | Done

  /** `taken` and `returned` record the tokens in the order they changed hands. */
  datatype Worker = Worker(scope: nat, chain: seq<Gate>, phase: Phase, cancelled: bool,
                           taken: seq<nat>, returned: seq<nat>)

  /** How semaphore `id` was made: at which position of its scope's chain, with what capacity. */
  datatype Made = Made(depth: nat, capacity: nat)

  /** `tokens[id]` is the number of elements buffered in channel `id`. */
  datatype System = System(tokens: seq<nat>, made: seq<Made>, scopes: seq<View>, workers: seq<Worker>)

  datatype Label =
    | Open(parallelism: int)
    | Split(scope: nat, parallelism: int)
    | Enter(scope: nat)
    | Cancel(worker: nat)
    | Check(worker: nat)
    | Take(worker: nat)
    | Abandon(worker: nat)
    | Finish(worker: nat)
    | Release(worker: nat)

  const START := System([], [], [], [])

  function Held(w: Worker): nat {
    match w.phase
    case Checking(n) => n
    case Selecting(n) => n
    case Running => |w.chain|
    case Leaving(n) => n
    case Done => 0
  }

  /** The steps a worker takes by itself; a blocked channel operation is not enabled. */
  predicate Enabled(s: System, step: Label) {
    match step
    case Check(w) => w < |s.workers| && s.workers[w].phase.Checking?
    case Take(w) =>
      && w < |s.workers| && s.workers[w].phase.Selecting?
      && var n := s.workers[w].phase.n;
         && n < |s.workers[w].chain| && s.workers[w].chain[n].id < |s.tokens|
         && s.tokens[s.workers[w].chain[n].id] < s.workers[w].chain[n].capacity
    case Abandon(w) => w < |s.workers| && s.workers[w].phase.Selecting? && s.workers[w].cancelled
    case Finish(w) => w < |s.workers| && s.workers[w].phase.Running?
    case Release(w) =>
      && w < |s.workers| && s.workers[w].phase.Leaving?
      && var n := s.workers[w].phase.n;
         n > 0 ==>
           && n <= |s.workers[w].chain| && s.workers[w].chain[n - 1].id < |s.tokens|
           && s.tokens[s.workers[w].chain[n - 1].id] > 0
    case _ => false
  }

  function Put(s: System, w: nat, worker: Worker): System
    requires w < |s.workers|
  {
    s.(workers := s.workers[w := worker])
  }

  /** One step of one worker. */
  function Advance(s: System, step: Label): System
    requires Enabled(s, step)
  {
    var worker := s.workers[step.worker];
    match step
    case Check(w) =>
      var n := worker.phase.n;
      Put(s, w, worker.(phase := if worker.cancelled then Leaving(n)
                                 else if n < |worker.chain| then Selecting(n) else Running))
    case Take(w) =>
      var id := worker.chain[worker.phase.n].id;
      Put(s, w, worker.(phase := Checking(worker.phase.n + 1), taken := worker.taken + [id]))
        .(tokens := s.tokens[id := s.tokens[id] + 1])
    case Abandon(w) => Put(s, w, worker.(phase := Leaving(worker.phase.n)))
    case Finish(w) => Put(s, w, worker.(phase := Leaving(|worker.chain|)))
    case Release(w) =>
      if worker.phase.n == 0 then Put(s, w, worker.(phase := Done))
      else
        var id := worker.chain[worker.phase.n - 1].id;
        Put(s, w, worker.(phase := Leaving(worker.phase.n - 1), returned := worker.returned + [id]))
          .(tokens := s.tokens[id := s.tokens[id] - 1])
  }

  /** A new scope whose last semaphore is new. */
  function WithGate(s: System, v: View): System {
    if v.chain == [] then s
    else s.(scopes := s.scopes + [v], tokens := s.tokens + [0],
            made := s.made + [Made(|v.chain| - 1, v.chain[|v.chain| - 1].capacity)])
  }

  function Step(s: System, step: Label): System {
    match step
    case Open(parallelism) =>
      var root := Root(parallelism, |s.tokens|);
      if root.None? then s else WithGate(s, root.value)
    case Split(scope, parallelism) =>
      if scope >= |s.scopes| then s else
        var child := Child(s.scopes[scope], parallelism, |s.tokens|);
        if child.None? then s
        else if parallelism == 0 then s.(scopes := s.scopes + [child.value])
        else WithGate(s, child.value)
    case Enter(scope) =>
      if scope >= |s.scopes| then s
      else s.(workers := s.workers + [Worker(scope, s.scopes[scope].chain, Checking(0), false, [], [])])
    case Cancel(w) => if w >= |s.workers| then s else Put(s, w, s.workers[w].(cancelled := true))
    case _ => if Enabled(s, step) then Advance(s, step) else s
  }

  function After(steps: seq<Label>): System {
    if steps == [] then START else Step(After(steps[..|steps| - 1]), steps[|steps| - 1])
  }

  // -------------------------------------------------------------- invariant

  /** Worker `w` has the token of semaphore `id`. */
  predicate Holds(w: Worker, id: nat) {
    exists i :: 0 <= i < |w.chain| && i < Held(w) && w.chain[i].id == id
  }

  predicate Placed(w: Worker) {
    && Held(w) <= |w.chain|
    && (w.phase.Selecting? ==> w.phase.n < |w.chain|)
  }

  /** How many workers hold semaphore `id`. */
  function Holders(workers: seq<Worker>, id: nat): nat {
    if workers == [] then 0
    else Holders(workers[..|workers| - 1], id) + if Holds(workers[|workers| - 1], id) then 1 else 0
  }

  /** Each semaphore of the chain sits at the depth it was made for: the scopes form a tree. */
  ghost predicate Chained(chain: seq<Gate>, made: seq<Made>) {
    forall i :: 0 <= i < |chain| ==> chain[i].id < |made| && made[chain[i].id] == Made(i, chain[i].capacity)
  }

  ghost predicate LastFirst(taken: seq<nat>, returned: seq<nat>) {
    && |returned| <= |taken|
    && forall i :: 0 <= i < |returned| ==> returned[i] == taken[|taken| - 1 - i]
  }

  /** A worker gives back what it took, last token first. */
  ghost predicate Squared(w: Worker) {
    && |w.taken| <= |w.chain| && (forall i :: 0 <= i < |w.taken| ==> w.taken[i] == w.chain[i].id)
    && LastFirst(w.taken, w.returned)
    && Held(w) == |w.taken| - |w.returned|
    && (!w.phase.Leaving? && !w.phase.Done? ==> w.returned == [])
  }

  ghost predicate WorkerHolds(w: Worker, scopes: seq<View>, made: seq<Made>) {
    && Placed(w) && Squared(w) && Chained(w.chain, made)
    && w.scope < |scopes| && w.chain == scopes[w.scope].chain
  }

  ghost predicate Invariant(s: System) {
    && |s.made| == |s.tokens|
    && (forall a :: 0 <= a < |s.scopes| ==> Tightest(s.scopes[a]) && Chained(s.scopes[a].chain, s.made))
    && (forall w :: 0 <= w < |s.workers| ==> WorkerHolds(s.workers[w], s.scopes, s.made))
    && forall id :: 0 <= id < |s.tokens| ==> s.tokens[id] == Holders(s.workers, id) <= s.made[id].capacity
  }

  // ------------------------------------------------------------------ lemmas

  lemma {:induction false} HoldersPut(workers: seq<Worker>, w: nat, worker: Worker, id: nat)
    requires w < |workers|
    ensures Holders(workers[w := worker], id) + (if Holds(workers[w], id) then 1 else 0)
            == Holders(workers, id) + if Holds(worker, id) then 1 else 0
  {
    var n := |workers| - 1;
    if w == n {
      assert workers[w := worker][..n] == workers[..n];
    } else {
      assert workers[w := worker][..n] == workers[..n][w := worker];
      HoldersPut(workers[..n], w, worker, id);
    }
  }

  lemma {:induction false} NoHolders(workers: seq<Worker>, id: nat)
    requires forall w :: 0 <= w < |workers| ==> !Holds(workers[w], id)
    ensures Holders(workers, id) == 0
  {
    if workers != [] {
      NoHolders(workers[..|workers| - 1], id);
    }
  }

  lemma {:induction false} HolderCounts(workers: seq<Worker>, w: nat, id: nat)
    requires w < |workers| && Holds(workers[w], id)
    ensures Holders(workers, id) > 0
  {
    if w < |workers| - 1 {
      HolderCounts(workers[..|workers| - 1], w, id);
    }
  }

  lemma {:induction false} SomeHolder(workers: seq<Worker>, id: nat) returns (w: nat)
    requires Holders(workers, id) > 0
    ensures w < |workers| && Holds(workers[w], id)
  {
    var n := |workers| - 1;
    if Holds(workers[n], id) {
      w := n;
    } else {
      w := SomeHolder(workers[..n], id);
    }
  }

  lemma OpenStep(s: System, parallelism: int)
    requires Invariant(s) && parallelism >= 0
    ensures Invariant(Step(s, Open(parallelism)))
  {
    var root := Root(parallelism, |s.tokens|).value;
    assert root.chain[0].capacity == root.limit;
    GateStep(s, root);
  }

  /** A chain with one brand-new semaphore at its end, the rest as it was made. */
  lemma GateStep(s: System, v: View)
    requires Invariant(s) && Tightest(v) && v.chain != [] && v.chain[|v.chain| - 1].id == |s.tokens|
    requires Chained(v.chain[..|v.chain| - 1], s.made)
    ensures Invariant(WithGate(s, v))
  {
    var t := WithGate(s, v);
    NoHolders(s.workers, |s.tokens|);
    ChainWithGate(v, s.made, t.made);
    hide Tightest, WorkerHolds, Chained;
    forall a | 0 <= a < |s.scopes| ensures Chained(s.scopes[a].chain, t.made) {
      ChainedLater(s.scopes[a].chain, s.made, t.made);
    }
    forall w | 0 <= w < |s.workers| ensures WorkerHolds(s.workers[w], t.scopes, t.made) {
      WorkerHoldsLater(s.workers[w], s.scopes, s.made, t.scopes, t.made);
    }
  }

  lemma ChainWithGate(v: View, made: seq<Made>, more: seq<Made>)
    requires v.chain != [] && v.chain[|v.chain| - 1].id == |made| && Chained(v.chain[..|v.chain| - 1], made)
    requires more == made + [Made(|v.chain| - 1, v.chain[|v.chain| - 1].capacity)]
    ensures Chained(v.chain, more)
  {
    forall i | 0 <= i < |v.chain|
      ensures v.chain[i].id < |more| && more[v.chain[i].id] == Made(i, v.chain[i].capacity)
    {
      if i < |v.chain| - 1 {
        assert v.chain[i] == v.chain[..|v.chain| - 1][i];
      }
    }
  }

  lemma ChainedLater(chain: seq<Gate>, made: seq<Made>, more: seq<Made>)
    requires Chained(chain, made) && made <= more
    ensures Chained(chain, more)
  {
  }

  lemma WorkerHoldsLater(w: Worker, scopes: seq<View>, made: seq<Made>, moreScopes: seq<View>, more: seq<Made>)
    requires WorkerHolds(w, scopes, made) && scopes <= moreScopes && made <= more
    ensures WorkerHolds(w, moreScopes, more)
  {
    hide Placed, Squared;
  }

  lemma SplitStep(s: System, scope: nat, parallelism: int)
    requires Invariant(s) && scope < |s.scopes| && parallelism >= 0
    ensures Invariant(Step(s, Split(scope, parallelism)))
  {
    if parallelism > 0 {
      ChildIsTightest(s.scopes[scope], parallelism, |s.tokens|);
      var child := Child(s.scopes[scope], parallelism, |s.tokens|).value;
      assert child.chain[..|child.chain| - 1] == s.scopes[scope].chain;
      GateStep(s, child);
    }
  }

  lemma EnterStep(s: System, scope: nat)
    requires Invariant(s)
    ensures Invariant(Step(s, Enter(scope)))
  {
    if scope < |s.scopes| {
      var t := Step(s, Enter(scope));
      assert t.workers[..|t.workers| - 1] == s.workers;
    }
  }

  /** A change of one worker that the tokens account for. */
  lemma WorkerStep(s: System, t: System, w: nat, worker: Worker)
    requires Invariant(s) && w < |s.workers| && t == s.(tokens := t.tokens, workers := s.workers[w := worker])
    requires worker.chain == s.workers[w].chain && worker.scope == s.workers[w].scope
    requires Placed(worker) && Squared(worker) && |t.tokens| == |s.tokens|
    requires forall id :: 0 <= id < |s.tokens| ==>
               && t.tokens[id] <= s.made[id].capacity
               && t.tokens[id] + (if Holds(s.workers[w], id) then 1 else 0)
                  == s.tokens[id] + if Holds(worker, id) then 1 else 0
    ensures Invariant(t)
  {
    forall id | 0 <= id < |t.tokens| ensures t.tokens[id] == Holders(t.workers, id) {
      HoldersPut(s.workers, w, worker, id);
    }
  }

  /** One more token held: the one at the depth of those already held. */
  lemma HoldsOneMore(less: Worker, more: Worker, made: seq<Made>)
    requires less.chain == more.chain && Chained(less.chain, made)
    requires Held(more) == Held(less) + 1 <= |less.chain|
    ensures var id := less.chain[Held(less)].id;
            && !Holds(less, id) && Holds(more, id)
            && forall other: nat :: other != id ==> (Holds(more, other) <==> Holds(less, other))
  {
    var n := Held(less);
    assert more.chain[n].id == less.chain[n].id;
  }

  lemma TakeStep(s: System, w: nat)
    requires Invariant(s) && Enabled(s, Take(w))
    ensures Invariant(Step(s, Take(w)))
  {
    var t := Step(s, Take(w));
    assert WorkerHolds(s.workers[w], s.scopes, s.made);
    HoldsOneMore(s.workers[w], t.workers[w], s.made);
    WorkerStep(s, t, w, t.workers[w]);
  }

  /** A worker on its way out, with one token less. */
  function GaveBack(w: Worker): Worker
    requires w.phase.Leaving? && 0 < w.phase.n <= |w.chain|
  {
    w.(phase := Leaving(w.phase.n - 1), returned := w.returned + [w.chain[w.phase.n - 1].id])
  }

  lemma GivesBackLast(w: Worker)
    requires w.phase.Leaving? && 0 < w.phase.n <= |w.chain| && Squared(w)
    ensures Placed(GaveBack(w)) && Squared(GaveBack(w)) && Held(GaveBack(w)) == Held(w) - 1
  {
    var last := |w.returned|;
    assert w.taken[|w.taken| - 1 - last] == w.chain[w.phase.n - 1].id;
  }

  lemma ReleaseStep(s: System, w: nat)
    requires Invariant(s) && Enabled(s, Release(w)) && s.workers[w].phase.n > 0
    ensures Invariant(Step(s, Release(w)))
  {
    assert WorkerHolds(s.workers[w], s.scopes, s.made);
    hide Tightest, Chained, Placed;
    var before, after := s.workers[w], GaveBack(s.workers[w]);
    GivesBackLast(before);
    HoldsOneMore(after, before, s.made);
    WorkerStep(s, Step(s, Release(w)), w, after);
  }

  /** Steps that move no token. */
  lemma QuietStep(s: System, step: Label, w: nat)
    requires Invariant(s) && w < |s.workers|
    requires step == Cancel(w) || (Enabled(s, step) && (step == Check(w) || step == Abandon(w) || step == Finish(w)
                                                        || (step == Release(w) && s.workers[w].phase.n == 0)))
    ensures Invariant(Step(s, step))
  {
    var t := Step(s, step);
    assert WorkerHolds(s.workers[w], s.scopes, s.made);
    assert Held(t.workers[w]) == Held(s.workers[w]);
    assert forall id: nat :: Holds(t.workers[w], id) <==> Holds(s.workers[w], id);
    WorkerStep(s, t, w, t.workers[w]);
  }

  lemma StepKeepsInvariant(s: System, step: Label)
    requires Invariant(s)
    ensures Invariant(Step(s, step))
  {
    match step
    case Open(parallelism) => if parallelism >= 0 { OpenStep(s, parallelism); }
    case Split(scope, parallelism) => if scope < |s.scopes| && parallelism >= 0 { SplitStep(s, scope, parallelism); }
    case Enter(scope) => EnterStep(s, scope);
    case Cancel(w) => if w < |s.workers| { QuietStep(s, step, w); }
    case Take(w) => if Enabled(s, step) { TakeStep(s, w); }
    case Release(w) =>
      if Enabled(s, step) {
        if s.workers[w].phase.n > 0 {
          ReleaseStep(s, w);
        } else {
          QuietStep(s, step, w);
        }
      }
    case Check(w) => if Enabled(s, step) { QuietStep(s, step, w); }
    case Abandon(w) => if Enabled(s, step) { QuietStep(s, step, w); }
    case Finish(w) => if Enabled(s, step) { QuietStep(s, step, w); }
  }

  lemma {:induction false} AlwaysInvariant(steps: seq<Label>)
    ensures Invariant(After(steps))
  {
    if steps != [] {
      AlwaysInvariant(steps[..|steps| - 1]);
      StepKeepsInvariant(After(steps[..|steps| - 1]), steps[|steps| - 1]);
    }
  }

  // ------------------------------------------------------------ main results

  /** How many workers run inside the scope with this chain, directly or below it. */
  function RunningUnder(workers: seq<Worker>, chain: seq<Gate>): nat {
    if workers == [] then 0 else
      var last := workers[|workers| - 1];
      RunningUnder(workers[..|workers| - 1], chain) + if last.phase.Running? && chain <= last.chain then 1 else 0
  }

  lemma {:induction false} RunnersHold(workers: seq<Worker>, chain: seq<Gate>, i: nat)
    requires i < |chain|
    ensures RunningUnder(workers, chain) <= Holders(workers, chain[i].id)
  {
    if workers != [] {
      var last := workers[|workers| - 1];
      RunnersHold(workers[..|workers| - 1], chain, i);
      if last.phase.Running? && chain <= last.chain {
        assert last.chain[i] == chain[i] && i < Held(last);
      }
    }
  }

  /** Over every run: no semaphore ever holds more tokens than its capacity, its tokens are
      exactly its holders, and never more than `Limit()` bodies run inside a scope. */
  lemma WithinLimit(steps: seq<Label>)
    ensures var s := After(steps);
            && |s.made| == |s.tokens|
            && (forall id :: 0 <= id < |s.tokens| ==> s.tokens[id] == Holders(s.workers, id) <= s.made[id].capacity)
            && forall a :: 0 <= a < |s.scopes| ==>
                 Tightest(s.scopes[a]) && RunningUnder(s.workers, s.scopes[a].chain) <= s.scopes[a].limit
  {
    AlwaysInvariant(steps);
    var s := After(steps);
    forall a | 0 <= a < |s.scopes| ensures RunningUnder(s.workers, s.scopes[a].chain) <= s.scopes[a].limit {
      var v := s.scopes[a];
      var i :| 0 <= i < |v.chain| && v.limit == v.chain[i].capacity;
      RunnersHold(s.workers, v.chain, i);
    }
  }

  /** Scopes are only ever added. */
  lemma {:induction false} ScopesStay(steps: seq<Label>, more: seq<Label>)
    ensures After(steps).scopes <= After(steps + more).scopes
  {
    if more == [] {
      assert steps + more == steps;
    } else {
      var rest := more[..|more| - 1];
      assert (steps + more)[..|steps + more| - 1] == steps + rest;
      ScopesStay(steps, rest);
      ScopesStayOnce(After(steps + rest), more[|more| - 1]);
    }
  }

  lemma ScopesStayOnce(s: System, step: Label)
    ensures s.scopes <= Step(s, step).scopes
  {
  }

  /** Whatever happens later: under a module scope never more calls run at once than were asked
      for it, and all of them count for the scope it was split from; asking for none shares the
      semaphores of that scope, and asking for less than none makes no scope. */
  lemma AskedLimitHolds(steps: seq<Label>, scope: nat, parallelism: int, more: seq<Label>)
    requires scope < |After(steps).scopes|
    ensures var parent, a := After(steps).scopes[scope], |After(steps).scopes|;
            var s := After(steps + [Split(scope, parallelism)] + more);
            && (parallelism < 0 ==> After(steps + [Split(scope, parallelism)]) == After(steps))
            && (parallelism == 0 ==> a < |s.scopes| && s.scopes[a].chain == parent.chain)
            && (parallelism > 0 ==>
                  && a < |s.scopes| && parent.chain < s.scopes[a].chain
                  && RunningUnder(s.workers, s.scopes[a].chain) <= parallelism)
  {
    var split := steps + [Split(scope, parallelism)];
    assert split[..|split| - 1] == steps;
    ScopesStay(split, more);
    WithinLimit(split + more);
  }

  /** And under a root scope never more than were asked for it, or than the default. */
  lemma AskedRootHolds(steps: seq<Label>, parallelism: int, more: seq<Label>)
    ensures var a, s := |After(steps).scopes|, After(steps + [Open(parallelism)] + more);
            && (parallelism < 0 ==> After(steps + [Open(parallelism)]) == After(steps))
            && (parallelism >= 0 ==>
                  a < |s.scopes| && RunningUnder(s.workers, s.scopes[a].chain)
                                    <= if parallelism == 0 then DEFAULT_GLOBAL_PARALLELISM else parallelism)
  {
    var begun := steps + [Open(parallelism)];
    assert begun[..|begun| - 1] == steps;
    ScopesStay(begun, more);
    WithinLimit(begun + more);
  }

  /** Over every run: a call that is over has given back exactly what it took, innermost
      first, and a release never blocks. */
  lemma ExitReturnsTokens(steps: seq<Label>, w: nat)
    requires w < |After(steps).workers|
    ensures var s := After(steps);
            var worker := s.workers[w];
            && (worker.phase.Done? ==> |worker.returned| == |worker.taken|)
            && LastFirst(worker.taken, worker.returned)
            && (worker.phase.Leaving? ==> Enabled(s, Release(w)))
  {
    AlwaysInvariant(steps);
    WorkerReturns(After(steps), w);
  }

  lemma WorkerReturns(s: System, w: nat)
    requires Invariant(s) && w < |s.workers|
    ensures var worker := s.workers[w];
            && (worker.phase.Done? ==> |worker.returned| == |worker.taken|)
            && LastFirst(worker.taken, worker.returned)
            && (worker.phase.Leaving? ==> Enabled(s, Release(w)))
  {
    assert WorkerHolds(s.workers[w], s.scopes, s.made);
    LeavingIsEnabled(s, w);
    SquaredReturns(s.workers[w]);
  }

  lemma SquaredReturns(w: Worker)
    requires Placed(w) && Squared(w)
    ensures w.phase.Done? ==> |w.returned| == |w.taken|
    ensures LastFirst(w.taken, w.returned)
  {
  }

  lemma LeavingIsEnabled(s: System, w: nat)
    requires Invariant(s) && w < |s.workers| && WorkerHolds(s.workers[w], s.scopes, s.made)
    ensures s.workers[w].phase.Leaving? ==> Enabled(s, Release(w))
  {
    var worker := s.workers[w];
    if worker.phase.Leaving? && worker.phase.n > 0 {
      HolderCounts(s.workers, w, worker.chain[worker.phase.n - 1].id);
    }
  }

  function Longest(workers: seq<Worker>): (n: nat)
    ensures forall w :: 0 <= w < |workers| ==> |workers[w].chain| <= n
  {
    if workers == [] then 0 else
      var n, m := Longest(workers[..|workers| - 1]), |workers[|workers| - 1].chain|;
      if m > n then m else n
  }

  /** Whoever blocks the semaphore a worker waits for sits deeper in the tree: following the
      blockers ends at a worker that can move. */
  lemma {:induction false} FollowBlockers(s: System, w: nat) returns (step: Label)
    requires Invariant(s) && w < |s.workers| && !s.workers[w].phase.Done?
    ensures Enabled(s, step)
    decreases Longest(s.workers) - Held(s.workers[w])
  {
    var worker := s.workers[w];
    assert WorkerHolds(worker, s.scopes, s.made);
    match worker.phase
    case Checking(_) => step := Check(w);
    case Running => step := Finish(w);
    case Leaving(_) =>
      LeavingIsEnabled(s, w);
      step := Release(w);
    case Selecting(n) =>
      if Enabled(s, Take(w)) {
        step := Take(w);
      } else {
        var v := BlockedBy(s, w);
        step := FollowBlockers(s, v);
      }
  }

  lemma BlockedBy(s: System, w: nat) returns (v: nat)
    requires Invariant(s) && w < |s.workers| && s.workers[w].phase.Selecting? && !Enabled(s, Take(w))
    ensures v < |s.workers| && !s.workers[v].phase.Done?
            && Held(s.workers[w]) < Held(s.workers[v]) <= Longest(s.workers)
  {
    var worker := s.workers[w];
    assert WorkerHolds(worker, s.scopes, s.made);
    var gate := worker.chain[worker.phase.n];
    assert Tightest(s.scopes[worker.scope]);
    v := SomeHolder(s.workers, gate.id);
    assert WorkerHolds(s.workers[v], s.scopes, s.made);
  }

  /** Over every run: while any call is unfinished, some call can take a step of its own;
      no cancellation and no newcomer is needed. */
  lemma NoDeadlock(steps: seq<Label>, w: nat) returns (step: Label)
    requires w < |After(steps).workers| && !After(steps).workers[w].phase.Done?
    ensures Enabled(After(steps), step)
  {
    AlwaysInvariant(steps);
    step := FollowBlockers(After(steps), w);
  }

  /** An upper bound on the steps a worker still takes. */
  function StepsLeft(w: Worker): nat {
    var all := |w.chain|;
    match w.phase
    case Checking(n) => 2 * (if n < all then all - n else 0) + all + 3
    case Selecting(n) => 2 * (if n < all then all - n else 0) + all + 2
    case Running => all + 2
    case Leaving(n) => n + 1
    case Done => 0
  }

  function Remaining(workers: seq<Worker>): nat {
    if workers == [] then 0 else Remaining(workers[..|workers| - 1]) + StepsLeft(workers[|workers| - 1])
  }

  lemma {:induction false} RemainingPut(workers: seq<Worker>, w: nat, worker: Worker)
    requires w < |workers|
    ensures Remaining(workers[w := worker]) == Remaining(workers) - StepsLeft(workers[w]) + StepsLeft(worker)
  {
    var n := |workers| - 1;
    if w == n {
      assert workers[w := worker][..n] == workers[..n];
    } else {
      assert workers[w := worker][..n] == workers[..n][w := worker];
      RemainingPut(workers[..n], w, worker);
    }
  }

  lemma OneWorkerMoves(s: System, step: Label)
    requires Enabled(s, step) && Placed(s.workers[step.worker])
    ensures var t := Advance(s, step);
            && |t.workers| == |s.workers| && t.workers == s.workers[step.worker := t.workers[step.worker]]
            && StepsLeft(t.workers[step.worker]) < StepsLeft(s.workers[step.worker])
  {
  }

  lemma StepUsesUp(s: System, step: Label)
    requires Invariant(s) && Enabled(s, step)
    ensures Invariant(Step(s, step)) && |Step(s, step).workers| == |s.workers|
    ensures Remaining(Step(s, step).workers) < Remaining(s.workers)
  {
    var t := Step(s, step);
    var w := step.worker;
    StepKeepsInvariant(s, step);
    assert WorkerHolds(s.workers[w], s.scopes, s.made);
    assert t == Advance(s, step);
    OneWorkerMoves(s, step);
    RemainingPut(s.workers, w, t.workers[w]);
  }

  predicate AllEnabled(s: System, steps: seq<Label>)
    decreases |steps|
  {
    steps != [] ==> Enabled(s, steps[0]) && AllEnabled(Step(s, steps[0]), steps[1..])
  }

  function Run(s: System, steps: seq<Label>): System
    decreases |steps|
  {
    if steps == [] then s else Run(Step(s, steps[0]), steps[1..])
  }

  /** From any reachable state the calls under way take a bounded number of steps, and a run
      that cannot be continued has finished them all and emptied every semaphore. */
  lemma MaximalRunsFinish(before: seq<Label>, steps: seq<Label>)
    requires AllEnabled(After(before), steps)
    requires forall step :: !Enabled(Run(After(before), steps), step)
    ensures var s := Run(After(before), steps);
            && |steps| <= Remaining(After(before).workers) && |s.workers| == |After(before).workers|
            && (forall w :: 0 <= w < |s.workers| ==> s.workers[w].phase.Done?)
            && forall id :: 0 <= id < |s.tokens| ==> s.tokens[id] == 0
  {
    AlwaysInvariant(before);
    RunUsesUp(After(before), steps);
    var s := Run(After(before), steps);
    forall w | 0 <= w < |s.workers| ensures s.workers[w].phase.Done? {
      if !s.workers[w].phase.Done? {
        var step := FollowBlockers(s, w);
      }
    }
    forall id | 0 <= id < |s.tokens| ensures s.tokens[id] == 0 {
      NoHolders(s.workers, id);
    }
  }

  lemma {:induction false} RunUsesUp(s: System, steps: seq<Label>)
    requires Invariant(s) && AllEnabled(s, steps)
    ensures Invariant(Run(s, steps)) && |Run(s, steps).workers| == |s.workers|
    ensures |steps| <= Remaining(s.workers)
    decreases |steps|
  {
    if steps != [] {
      StepUsesUp(s, steps[0]);
      RunUsesUp(Step(s, steps[0]), steps[1..]);
    }
  }
}
