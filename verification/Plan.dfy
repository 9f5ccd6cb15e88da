/** Validation of a plan's nodes (internal/plan/model.go): unique addresses, child plans,
    known dependencies, and the three-colour depth-first search for dependency cycles. */
module Plan {
  import opened Options

  datatype Node = Node(address: string, isModule: bool, hasChildPlan: bool, dependencies: seq<string>)

  type Graph = map<string, seq<string>>

  datatype Cycle = Cycle(stack: seq<string>, address: string)

  datatype Defect =
    | Duplicate(address: string)
    | MissingChildPlan(address: string)
    | UnknownDependency(address: string, dependency: string)
    | DependencyCycle(cycle: Cycle)

  datatype Mark = Visiting | Visited

  function Next(g: Graph, a: string): seq<string> {
    if a in g then g[a] else []
  }

  function Universe(g: Graph): set<string> {
    g.Keys + set a, d | a in g && d in g[a] :: d
  }

  /** Each address depends directly on the one after it. */
  predicate Walk(g: Graph, path: seq<string>) {
    forall i :: 0 <= i < |path| - 1 ==> path[i + 1] in Next(g, path[i])
  }

  /** No address reaches itself. */
  ghost predicate Acyclic(g: Graph) {
    forall path :: Walk(g, path) && |path| >= 2 ==> path[0] != path[|path| - 1]
  }

  /** Every address comes after all it depends on, and comes once. */
  ghost predicate Topological(g: Graph, order: seq<string>) {
    forall i :: 0 <= i < |order| ==>
      order[i] !in order[..i] && forall d :: d in Next(g, order[i]) ==> d in order[..i]
  }

  /** A walk that closes on itself: the search was visiting `address` when it met it again. */
  ghost predicate Closes(g: Graph, c: Cycle) {
    c.stack != [] && Walk(g, c.stack) && c.address in c.stack && c.address in Next(g, c.stack[|c.stack| - 1])
  }

  // ------------------------------------------------------------------ lemmas

  lemma ClosedWalkIsCycle(g: Graph, c: Cycle)
    requires Closes(g, c)
    ensures !Acyclic(g)
  {
    var k :| 0 <= k < |c.stack| && c.stack[k] == c.address;
    var path := c.stack[k..] + [c.address];
    forall i | 0 <= i < |path| - 1 ensures path[i + 1] in Next(g, path[i]) {
      assert path[i] == c.stack[k + i];
      if i < |path| - 2 {
        assert path[i + 1] == c.stack[k + i + 1];
      }
    }
    assert Walk(g, path) && path[0] == path[|path| - 1];
  }

  function Position(order: seq<string>, a: string): (i: nat)
    requires a in order
    ensures i < |order| && order[i] == a && forall k :: 0 <= k < i ==> order[k] != a
  {
    if order[0] == a then 0 else Position(order[1..], a) + 1
  }

  lemma PositionIsFirst(order: seq<string>, a: string, i: nat)
    requires i <= |order| && a in order[..i]
    ensures a in order && Position(order, a) < i
  {
    var k :| 0 <= k < i && order[..i][k] == a;
    assert order[k] == a;
  }

  /** Along a walk the positions in a topological order go down. */
  lemma {:induction false} WalkDescends(g: Graph, order: seq<string>, path: seq<string>)
    requires Topological(g, order) && Walk(g, path) && |path| >= 2 && path[0] in order
    ensures path[|path| - 1] in order && Position(order, path[|path| - 1]) < Position(order, path[0])
  {
    var i := Position(order, path[0]);
    assert path[0 + 1] in Next(g, order[i]);
    assert path[1] in order[..i];
    PositionIsFirst(order, path[1], i);
    if |path| > 2 {
      forall j | 0 <= j < |path| - 2 ensures path[1..][j + 1] in Next(g, path[1..][j]) {
        assert path[j + 1 + 1] in Next(g, path[j + 1]);
      }
      WalkDescends(g, order, path[1..]);
    }
  }

  lemma OrderIsAcyclic(g: Graph, order: seq<string>)
    requires Topological(g, order) && forall a :: a in g ==> a in order
    ensures Acyclic(g)
  {
    forall path | Walk(g, path) && |path| >= 2 ensures path[0] != path[|path| - 1] {
      assert path[0 + 1] in Next(g, path[0]);
      WalkDescends(g, order, path);
    }
  }

  // ------------------------------------------------------------- the search

  class Visitor {
    const dependencies: Graph
    var state: map<string, Mark>
    var stack: seq<string>
    ghost var finished: seq<string>

    ghost predicate Valid()
      reads this
    {
      && state.Keys <= Universe(dependencies)
      && (forall i, j :: 0 <= i < j < |stack| ==> stack[i] != stack[j])
      && (forall a :: a in stack <==> a in state && state[a] == Visiting)
      && (forall a :: a in finished <==> a in state && state[a] == Visited)
      && Walk(dependencies, stack) && Topological(dependencies, finished)
    }

    constructor (dependencies: Graph)
      ensures this.dependencies == dependencies && state == map[] && stack == [] && finished == []
    {
      this.dependencies, state, stack, finished := dependencies, map[], [], [];
    }

    /** Finishes `address` and all it reaches, or stops at a walk that closes on itself; each
        address is entered once. */
    method Visit(address: string) returns (cycle: Option<Cycle>)
      requires Valid() && address in Universe(dependencies)
      requires stack == [] || address in Next(dependencies, stack[|stack| - 1])
      modifies this
      ensures Valid() && old(state).Keys <= state.Keys && old(finished) <= finished
      ensures cycle.None? ==> stack == old(stack) && address in finished
      ensures cycle.Some? ==> Closes(dependencies, cycle.value)
      decreases Universe(dependencies) - state.Keys, 0
    {
      if address in state {
        match state[address]
        case Visiting => return Some(Cycle(stack, address));
        case Visited => return None;
      }
      Enter(address);
      cycle := VisitDependencies(address, if address in dependencies then dependencies[address] else []);
      if cycle.None? {
        Leave(address);
        assert stack == old(stack);
      }
    }

    method VisitDependencies(address: string, next: seq<string>) returns (cycle: Option<Cycle>)
      requires Valid() && stack != [] && stack[|stack| - 1] == address && next == Next(dependencies, address)
      modifies this
      ensures Valid() && old(state).Keys <= state.Keys && old(finished) <= finished
      ensures cycle.None? ==> stack == old(stack) && forall k :: 0 <= k < |next| ==> next[k] in finished
      ensures cycle.Some? ==> Closes(dependencies, cycle.value)
      decreases Universe(dependencies) - state.Keys, 1
    {
      hide Closes, Walk, Topological, Valid;
      for i := 0 to |next|
        invariant Valid() && stack == old(stack) && old(finished) <= finished && old(state).Keys <= state.Keys
        invariant forall k :: 0 <= k < i ==> next[k] in finished
      {
        assert address in dependencies && next[i] in dependencies[address];
        cycle := Visit(next[i]);
        if cycle.Some? {
          return;
        }
      }
      return None;
    }

    /** Visits every node in turn. */
    method VisitAll(nodes: seq<Node>) returns (cycle: Option<Cycle>)
      requires Valid() && stack == [] && forall i :: 0 <= i < |nodes| ==> nodes[i].address in dependencies
      modifies this
      ensures Valid()
      ensures cycle.None? ==> forall i :: 0 <= i < |nodes| ==> nodes[i].address in finished
      ensures cycle.Some? ==> Closes(dependencies, cycle.value)
    {
      for i := 0 to |nodes|
        invariant Valid() && stack == []
        invariant forall k :: 0 <= k < i ==> nodes[k].address in finished
      {
        cycle := Visit(nodes[i].address);
        if cycle.Some? {
          return;
        }
      }
      return None;
    }

    method Enter(address: string)
      requires Valid() && address in Universe(dependencies) && address !in state
      requires stack == [] || address in Next(dependencies, stack[|stack| - 1])
      modifies this
      ensures Valid() && stack == old(stack) + [address] && state == old(state)[address := Visiting]
      ensures finished == old(finished)
    {
      state := state[address := Visiting];
      stack := stack + [address];
    }

    method Leave(address: string)
      requires Valid() && stack != [] && stack[|stack| - 1] == address
      requires forall d :: d in Next(dependencies, address) ==> d in finished
      modifies this
      ensures Valid() && stack == old(stack)[..|old(stack)| - 1] && state == old(state)[address := Visited]
      ensures finished == old(finished) + [address]
    {
      assert stack == stack[..|stack| - 1] + [address];
      stack := stack[..|stack| - 1];
      state := state[address := Visited];
      finished := finished + [address];
      assert forall i :: 0 <= i < |old(finished)| ==> finished[..i] == old(finished)[..i];
    }
  }

  /** Builds the dependency map; a repeated address keeps its last list. */
  function GraphOf(nodes: seq<Node>): Graph {
    if nodes == [] then map[]
    else GraphOf(nodes[..|nodes| - 1])[nodes[|nodes| - 1].address := nodes[|nodes| - 1].dependencies]
  }

  lemma {:induction false} GraphKeys(nodes: seq<Node>)
    ensures forall a :: a in GraphOf(nodes) <==> exists i :: 0 <= i < |nodes| && nodes[i].address == a
  {
    if nodes != [] {
      GraphKeys(nodes[..|nodes| - 1]);
      forall a | a in GraphOf(nodes) ensures exists i :: 0 <= i < |nodes| && nodes[i].address == a {
        assert a != nodes[|nodes| - 1].address ==> a in GraphOf(nodes[..|nodes| - 1]);
      }
    }
  }

  method DependencyMap(nodes: seq<Node>) returns (dependencies: Graph)
    ensures dependencies == GraphOf(nodes)
  {
    dependencies := map[];
    for i := 0 to |nodes|
      invariant dependencies == GraphOf(nodes[..i])
    {
      assert nodes[..i + 1][..i] == nodes[..i];
      dependencies := dependencies[nodes[i].address := nodes[i].dependencies];
    }
    assert nodes[..|nodes|] == nodes;
  }

  /** `validateAcyclic` returns nil exactly when no node reaches itself; then it has finished
      the nodes in dependency order, and otherwise it shows a cycle. */
  method ValidateAcyclic(nodes: seq<Node>) returns (cycle: Option<Cycle>, ghost order: seq<string>)
    ensures cycle.None? <==> Acyclic(GraphOf(nodes))
    ensures cycle.None? ==> Topological(GraphOf(nodes), order) && forall a :: a in GraphOf(nodes) ==> a in order
    ensures cycle.Some? ==> Closes(GraphOf(nodes), cycle.value)
  {
    var dependencies := DependencyMap(nodes);
    GraphKeys(nodes);
    var visitor := new Visitor(dependencies);
    cycle := visitor.VisitAll(nodes);
    order := visitor.finished;
    if cycle.Some? {
      ClosedWalkIsCycle(dependencies, cycle.value);
    } else {
      OrderIsAcyclic(dependencies, order);
    }
  }

  // -------------------------------------------------------------- all checks

  predicate Declares(nodes: seq<Node>, a: string) {
    exists i :: 0 <= i < |nodes| && nodes[i].address == a
  }

  /** The defect is really there. */
  ghost predicate Found(nodes: seq<Node>, d: Defect) {
    match d
    case Duplicate(a) => exists i, j :: 0 <= i < j < |nodes| && nodes[i].address == a == nodes[j].address
    case MissingChildPlan(a) =>
      exists i :: 0 <= i < |nodes| && nodes[i].address == a && nodes[i].isModule && !nodes[i].hasChildPlan
    case UnknownDependency(a, d) =>
      !Declares(nodes, d) && exists i :: 0 <= i < |nodes| && nodes[i].address == a && d in nodes[i].dependencies
    case DependencyCycle(cycle) => Closes(GraphOf(nodes), cycle)
  }

  /** What `validateNodes` promises about the plans it accepts. */
  ghost predicate Sound(nodes: seq<Node>) {
    && (forall i, j :: 0 <= i < j < |nodes| ==> nodes[i].address != nodes[j].address)
    && (forall i :: 0 <= i < |nodes| ==> nodes[i].isModule ==> nodes[i].hasChildPlan)
    && (forall i, d :: 0 <= i < |nodes| && d in nodes[i].dependencies ==> Declares(nodes, d))
    && Acyclic(GraphOf(nodes))
  }

  method ValidateNodes(nodes: seq<Node>) returns (defect: Option<Defect>)
    ensures defect.None? <==> Sound(nodes)
    ensures defect.Some? ==> Found(nodes, defect.value)
  {
    var addresses: set<string> := {};
    for i := 0 to |nodes|
      invariant forall a :: a in addresses <==> Declares(nodes[..i], a)
      invariant forall k, l :: 0 <= k < l < i ==> nodes[k].address != nodes[l].address
      invariant forall k :: 0 <= k < i ==> nodes[k].isModule ==> nodes[k].hasChildPlan
    {
      if nodes[i].address in addresses {
        var k :| 0 <= k < i && nodes[..i][k].address == nodes[i].address;
        assert nodes[k].address == nodes[i].address;
        return Some(Duplicate(nodes[i].address));
      }
      DeclaresOneMore(nodes, i);
      addresses := addresses + {nodes[i].address};
      if nodes[i].isModule && !nodes[i].hasChildPlan {
        return Some(MissingChildPlan(nodes[i].address));
      }
    }
    assert nodes[..|nodes|] == nodes;
    for i := 0 to |nodes|
      invariant forall k, d :: 0 <= k < i && d in nodes[k].dependencies ==> Declares(nodes, d)
    {
      for j := 0 to |nodes[i].dependencies|
        invariant forall d :: d in nodes[i].dependencies[..j] ==> Declares(nodes, d)
      {
        if nodes[i].dependencies[j] !in addresses {
          return Some(UnknownDependency(nodes[i].address, nodes[i].dependencies[j]));
        }
      }
      assert nodes[i].dependencies[..|nodes[i].dependencies|] == nodes[i].dependencies;
    }
    var cycle, order := ValidateAcyclic(nodes);
    if cycle.Some? {
      ClosedWalkIsCycle(GraphOf(nodes), cycle.value);
      return Some(DependencyCycle(cycle.value));
    }
    return None;
  }

  lemma DeclaresOneMore(nodes: seq<Node>, i: nat)
    requires i < |nodes|
    ensures forall a :: Declares(nodes[..i + 1], a) <==> Declares(nodes[..i], a) || a == nodes[i].address
  {
    assert nodes[..i + 1] == nodes[..i] + [nodes[i]];
    forall a | Declares(nodes[..i], a) || a == nodes[i].address ensures Declares(nodes[..i + 1], a) {
      if a == nodes[i].address {
        assert nodes[..i + 1][i].address == a;
      } else {
        var k :| 0 <= k < i && nodes[..i][k].address == a;
        assert nodes[..i + 1][k].address == a;
      }
    }
  }
}
