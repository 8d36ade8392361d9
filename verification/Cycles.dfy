/** Capability implication cycles: the three-colour depth-first search (src/validation.cpp). */
module Cycles {
  import opened Rules

  datatype Node = Node(side: Side, capability: string)

  /** An active rule says that on this side the first capability requires the second. */
  ghost predicate Implies(rules: seq<Rule>, a: Node, b: Node) {
    exists r, imp :: r in rules && r.state == Active && imp in r.implications && Links(imp, a, b)
  }

  predicate Links(imp: Implication, a: Node, b: Node) {
    a == Node(imp.side, imp.ifPresent) && b == Node(imp.side, imp.thenRequired)
  }

  type Adjacency = map<Node, seq<string>>

  predicate HasEdge(adjacency: Adjacency, a: Node, b: Node) {
    a in adjacency && a.side == b.side && b.capability in adjacency[a]
  }

  /** A walk along edges that ends where it starts. */
  ghost predicate IsCycle(adjacency: Adjacency, path: seq<Node>) {
    && |path| >= 2
    && path[0] == path[|path| - 1]
    && IsWalk(adjacency, path)
  }

  ghost predicate IsWalk(adjacency: Adjacency, path: seq<Node>) {
    forall i :: 0 <= i < |path| - 1 ==> HasEdge(adjacency, path[i], path[i + 1])
  }

  ghost predicate HasCycle(adjacency: Adjacency) {
    exists path :: IsCycle(adjacency, path)
  }

  lemma ClosedWalkIsCycle(adjacency: Adjacency, path: seq<Node>)
    requires |path| >= 2 && path[0] == path[|path| - 1]
    requires forall i :: 0 <= i < |path| - 1 ==> HasEdge(adjacency, path[i], path[i + 1])
    ensures IsCycle(adjacency, path)
  {
  }

  function NodesOf(adjacency: Adjacency): set<Node> {
    adjacency.Keys + set a, c | a in adjacency && c in adjacency[a] :: Node(a.side, c)
  }

  // ----- Building the graph -----

  function With(adjacency: Adjacency, imp: Implication): Adjacency {
    var node := Node(imp.side, imp.ifPresent);
    adjacency[node := (if node in adjacency then adjacency[node] else []) + [imp.thenRequired]]
  }

  lemma WithAddsOneEdge(adjacency: Adjacency, imp: Implication, a: Node, b: Node)
    ensures HasEdge(With(adjacency, imp), a, b) <==> HasEdge(adjacency, a, b) || Links(imp, a, b)
  {
    var node := Node(imp.side, imp.ifPresent);
    if a == node {
      var was := if node in adjacency then adjacency[node] else [];
      assert b.capability in was + [imp.thenRequired] <==> b.capability in was || b.capability == imp.thenRequired;
    }
  }

  ghost predicate SomeLinks(imps: seq<Implication>, a: Node, b: Node) {
    exists imp :: imp in imps && Links(imp, a, b)
  }

  ghost predicate NoEmptyLists(adjacency: Adjacency) {
    forall a :: a in adjacency ==> adjacency[a] != []
  }

  method AddImplications(adjacency: Adjacency, imps: seq<Implication>) returns (grown: Adjacency)
    requires NoEmptyLists(adjacency)
    ensures NoEmptyLists(grown)
    ensures forall a, b :: HasEdge(grown, a, b) <==> HasEdge(adjacency, a, b) || SomeLinks(imps, a, b)
  {
    grown := adjacency;
    for i := 0 to |imps|
      invariant NoEmptyLists(grown)
      invariant forall a, b :: HasEdge(grown, a, b) <==> HasEdge(adjacency, a, b) || SomeLinks(imps[..i], a, b)
    {
      var next := With(grown, imps[i]);
      assert imps[..i + 1] == imps[..i] + [imps[i]];
      forall a, b
        ensures HasEdge(next, a, b) <==> HasEdge(adjacency, a, b) || SomeLinks(imps[..i + 1], a, b)
      {
        WithAddsOneEdge(grown, imps[i], a, b);
        assert SomeLinks(imps[..i + 1], a, b) <==> SomeLinks(imps[..i], a, b) || Links(imps[i], a, b);
      }
      grown := next;
    }
    assert imps[..|imps|] == imps;
  }

  /** The graph has exactly the edges that active rules declare. */
  method BuildAdjacency(rules: seq<Rule>) returns (adjacency: Adjacency)
    ensures NoEmptyLists(adjacency)
    ensures forall a, b :: HasEdge(adjacency, a, b) <==> Implies(rules, a, b)
  {
    adjacency := map[];
    for i := 0 to |rules|
      invariant NoEmptyLists(adjacency)
      invariant forall a, b :: HasEdge(adjacency, a, b) <==> Implies(rules[..i], a, b)
    {
      var r := rules[i];
      assert rules[..i + 1] == rules[..i] + [r];
      ghost var before := adjacency;
      if r.state == Active {
        adjacency := AddImplications(adjacency, r.implications);
      }
      forall a, b ensures HasEdge(adjacency, a, b) <==> Implies(rules[..i + 1], a, b) {
        assert Implies(rules[..i + 1], a, b)
          <==> Implies(rules[..i], a, b) || (r.state == Active && SomeLinks(r.implications, a, b));
      }
    }
    assert rules[..|rules|] == rules;
  }

  // ----- The search -----

  datatype Color = OnStack | Done

  const MAX_IMPLICATION_DEPTH: nat := 256

  ghost predicate Distinct<T(!new)>(s: seq<T>) {
    forall i, j :: 0 <= i < j < |s| ==> s[i] != s[j]
  }

  lemma {:induction false} DistinctFits<T(!new)>(s: seq<T>, universe: set<T>)
    requires Distinct(s)
    requires forall x :: x in s ==> x in universe
    ensures |s| <= |universe|
  {
    if s != [] {
      var last := s[|s| - 1];
      assert s == s[..|s| - 1] + [last];
      assert last !in s[..|s| - 1];
      DistinctFits(s[..|s| - 1], universe - {last});
    }
  }

  /** Every edge out of a listed node leads to a node listed earlier. */
  ghost predicate BackwardOnly(adjacency: Adjacency, order: seq<Node>) {
    forall i, b :: 0 <= i < |order| && HasEdge(adjacency, order[i], b) ==> b in order[..i]
  }

  lemma FirstOccurrence(order: seq<Node>, n: Node) returns (k: nat)
    requires n in order
    ensures k < |order| && order[k] == n && n !in order[..k]
  {
    var i :| 0 <= i < |order| && order[i] == n;
    k := i;
    while n in order[..k]
      invariant k < |order| && order[k] == n
      decreases k
    {
      var j :| 0 <= j < k && order[..k][j] == n;
      k := j;
    }
  }

  /** Along a walk the first occurrences in such an order go strictly down. */
  lemma {:induction false} WalkGoesBack(adjacency: Adjacency, order: seq<Node>, path: seq<Node>, at: nat)
    requires BackwardOnly(adjacency, order)
    requires |path| >= 2 && IsWalk(adjacency, path)
    requires at < |order| && order[at] == path[0]
    ensures path[|path| - 1] in order[..at]
  {
    assert HasEdge(adjacency, path[0], path[1]);
    assert path[1] in order[..at];
    if |path| > 2 {
      var next :| 0 <= next < at && order[..at][next] == path[1];
      WalkGoesBack(adjacency, order, path[1..], next);
      assert path[|path| - 1] in order[..next];
      assert order[..next] <= order[..at];
    }
  }

  /** An order that lists every node with edges, edges going back only, leaves no cycle. */
  lemma OrderedIsAcyclic(adjacency: Adjacency, order: seq<Node>)
    requires BackwardOnly(adjacency, order)
    requires forall n :: n in adjacency ==> n in order
    ensures !HasCycle(adjacency)
  {
    forall path | IsCycle(adjacency, path) ensures false {
      assert HasEdge(adjacency, path[0], path[1]);
      var at := FirstOccurrence(order, path[0]);
      WalkGoesBack(adjacency, order, path, at);
    }
  }

  lemma Smaller<T>(a: set<T>, b: set<T>)
    requires a < b
    ensures |a| < |b|
  {
    assert b == a + (b - a);
    assert b - a != {};
  }

  lemma NotLarger<T>(a: set<T>, b: set<T>)
    requires a <= b
    ensures |a| <= |b|
  {
    assert b == a + (b - a);
  }

  class Search {
    const adjacency: Adjacency
    const maxReported: nat
    var color: map<Node, Color>
    var stack: seq<Node>
    var cycles: seq<seq<Node>>
    ghost const nodes: set<Node>
    ghost var finished: seq<Node>

    constructor (adjacency: Adjacency, maxReported: nat)
      ensures this.adjacency == adjacency && this.maxReported == maxReported && nodes == NodesOf(adjacency)
      ensures Valid() && stack == [] && cycles == [] && finished == []
    {
      this.adjacency, this.maxReported, nodes := adjacency, maxReported, NodesOf(adjacency);
      color, stack, cycles, finished := map[], [], [], [];
    }

    /** The depth limit is out of reach and there is room to report. */
    ghost predicate Exhaustive() {
      |nodes| <= MAX_IMPLICATION_DEPTH + 1 && maxReported > 0
    }

    ghost predicate Coloured()
      reads this
    {
      && (forall n :: n in color && color[n] == OnStack <==> n in stack)
      && (forall n :: n in color && color[n] == Done <==> n in finished)
      && color.Keys <= nodes
      && (forall a, b :: HasEdge(adjacency, a, b) ==> a in nodes && b in nodes)
    }

    /** The stack is a walk of distinct nodes, every report is a cycle, and finished nodes only point back. */
    ghost predicate Valid()
      reads this
    {
      && Coloured()
      && Distinct(stack)
      && IsWalk(adjacency, stack)
      && |cycles| <= maxReported
      && (forall i :: 0 <= i < |cycles| ==> IsCycle(adjacency, cycles[i]))
      && (Exhaustive() && cycles == [] ==> BackwardOnly(adjacency, finished))
    }

    /** The tail of the stack from the repeated node, closed by that node. */
    method ClosedPath(target: Node) returns (path: seq<Node>)
      requires Valid() && target in stack
      requires HasEdge(adjacency, stack[|stack| - 1], target)
      ensures IsCycle(adjacency, path)
    {
      hide Coloured, IsCycle;
      path := [];
      var inCycle := false;
      for i := 0 to |stack|
        invariant |path| <= i
        invariant inCycle <==> target in stack[..i]
        invariant inCycle <==> path != []
        invariant path != [] ==> path[0] == target
        invariant path == stack[i - |path|..i]
      {
        if stack[i] == target { inCycle := true; }
        if inCycle { path := path + [stack[i]]; }
        assert stack[..i + 1] == stack[..i] + [stack[i]];
      }
      assert stack[..|stack|] == stack;
      ghost var from := |stack| - |path|;
      path := path + [target];
      forall i | 0 <= i < |path| - 1 ensures HasEdge(adjacency, path[i], path[i + 1]) {
        assert path[i] == stack[from + i];
      }
      ClosedWalkIsCycle(adjacency, path);
    }

    method Report(target: Node)
      requires Valid() && target in stack
      requires HasEdge(adjacency, stack[|stack| - 1], target)
      modifies `cycles
      ensures Valid()
      ensures |old(cycles)| <= |cycles|
      ensures Exhaustive() ==> cycles != []
    {
      if |cycles| < maxReported {
        var path := ClosedPath(target);
        cycles := cycles + [path];
      }
    }

    method Push(node: Node)
      requires Valid()
      requires node in nodes && node !in color
      requires stack != [] ==> HasEdge(adjacency, stack[|stack| - 1], node)
      modifies `color, `stack
      ensures Valid()
      ensures stack == old(stack) + [node] && color == old(color)[node := OnStack]
    {
      color := color[node := OnStack];
      stack := stack + [node];
    }

    method Pop(node: Node)
      requires Valid()
      requires stack != [] && stack[|stack| - 1] == node
      requires Exhaustive() && cycles == [] && node in adjacency ==> SuccessorsFinished(node, |adjacency[node]|)
      modifies `color, `stack, `finished
      ensures Valid()
      ensures stack == old(stack)[..|old(stack)| - 1]
      ensures color == old(color)[node := Done]
    {
      assert stack == stack[..|stack| - 1] + [node];
      assert node !in stack[..|stack| - 1];
      color := color[node := Done];
      stack := stack[..|stack| - 1];
      assert forall i :: 0 <= i < |finished| ==> (finished + [node])[..i] == finished[..i];
      assert (finished + [node])[..|finished|] == finished;
      finished := finished + [node];
    }

    /** Reports are kept and finished nodes stay finished. */
    ghost predicate Extends(reports: nat, before: map<Node, Color>)
      reads this
    {
      && reports <= |cycles|
      && before.Keys <= color.Keys
      && forall n :: n in before && before[n] == Done ==> color[n] == Done
    }

    ghost predicate Finished(n: Node)
      reads this
    {
      n in color && color[n] == Done
    }

    ghost predicate SuccessorsFinished(node: Node, n: nat)
      requires node in adjacency && n <= |adjacency[node]|
      reads this
    {
      forall k :: 0 <= k < n ==> Finished(Node(node.side, adjacency[node][k]))
    }

    ghost function Unseen(): nat
      reads this
    {
      |nodes - color.Keys|
    }

    lemma UnseenShrinks(before: set<Node>, node: Node)
      requires before + {node} <= color.Keys
      requires node in nodes && node !in before
      ensures Unseen() < |nodes - before|
    {
      assert node in nodes - before;
      assert nodes - color.Keys <= nodes - before - {node};
      Smaller(nodes - before - {node}, nodes - before);
      NotLarger(nodes - color.Keys, nodes - before - {node});
    }

    lemma DepthInReach(node: Node)
      requires Valid() && node in nodes && node !in color
      ensures |stack| < |nodes|
    {
      assert forall n :: n in stack ==> n in nodes - {node};
      DistinctFits(stack, nodes - {node});
    }

    /** Explores an unseen node; everything it starts it finishes. */
    method Visit(node: Node, depth: nat)
      requires Valid() && depth == |stack|
      requires node in nodes && node !in color
      requires stack != [] ==> HasEdge(adjacency, stack[|stack| - 1], node)
      modifies this
      ensures Valid()
      ensures stack == old(stack)
      ensures Extends(old(|cycles|), old(color))
      ensures Exhaustive() ==> Finished(node)
      decreases Unseen(), 1
    {
      DepthInReach(node);
      if depth > MAX_IMPLICATION_DEPTH { return; }
      Push(node);
      UnseenShrinks(old(color.Keys), node);
      if node in adjacency {
        FollowAll(node, depth);
      }
      ghost var reached := color;
      assert node in reached && old(color.Keys) <= reached.Keys;
      assert stack[..depth] == old(stack);
      Pop(node);
      assert color.Keys == reached.Keys;
    }

    lemma UnseenOnlyShrinks(before: set<Node>)
      requires before <= color.Keys
      ensures Unseen() <= |nodes - before|
    {
      NotLarger(nodes - color.Keys, nodes - before);
    }

    method FollowAll(node: Node, depth: nat)
      requires Valid() && depth + 1 == |stack| && stack[depth] == node
      requires node in adjacency
      modifies this
      ensures Valid()
      ensures stack == old(stack)
      ensures Extends(old(|cycles|), old(color))
      ensures Exhaustive() && cycles == [] ==> SuccessorsFinished(node, |adjacency[node]|)
      decreases Unseen(), 3
    {
      for i := 0 to |adjacency[node]|
        invariant Valid()
        invariant stack == old(stack)
        invariant Extends(old(|cycles|), old(color))
        invariant Exhaustive() && cycles == [] ==> SuccessorsFinished(node, i)
      {
        UnseenOnlyShrinks(old(color.Keys));
        Follow(node, i, depth);
      }
    }

    /** The i-th edge out of the node on top of the stack. */
    method Follow(node: Node, i: nat, depth: nat)
      requires Valid() && depth + 1 == |stack| && stack[depth] == node
      requires node in adjacency && i < |adjacency[node]|
      requires Exhaustive() && cycles == [] ==> SuccessorsFinished(node, i)
      modifies this
      ensures Valid()
      ensures stack == old(stack)
      ensures Extends(old(|cycles|), old(color))
      ensures Exhaustive() && cycles == [] ==> SuccessorsFinished(node, i + 1)
      decreases Unseen(), 2
    {
      var target := Node(node.side, adjacency[node][i]);
      assert HasEdge(adjacency, node, target);
      if target in color && color[target] == OnStack {
        Report(target);
      } else if target !in color {
        Visit(target, depth + 1);
      }
    }

    /** Starts from every node with edges that is still unseen. */
    method Run(roots: seq<Node>)
      requires Valid() && stack == []
      requires forall n :: n in adjacency <==> n in roots
      requires adjacency.Keys <= nodes
      modifies this
      ensures Valid()
      ensures cycles != [] ==> HasCycle(adjacency)
      ensures Exhaustive() ==> (cycles != [] <==> HasCycle(adjacency))
    {
      for i := 0 to |roots|
        invariant Valid() && stack == []
        invariant Exhaustive() ==> forall k :: 0 <= k < i ==> Finished(roots[k])
      {
        assert roots[i] in adjacency;
        if roots[i] !in color {
          Visit(roots[i], 0);
        }
      }
      if cycles != [] {
        assert IsCycle(adjacency, cycles[0]);
      } else if Exhaustive() {
        OrderedIsAcyclic(adjacency, finished);
      }
    }
  }

  // ----- The pass over a rule set -----

  /** Capabilities that require one another in a ring, over the active rules. */
  ghost predicate ImplicationCycle(rules: seq<Rule>, path: seq<Node>) {
    && |path| >= 2
    && path[0] == path[|path| - 1]
    && forall i :: 0 <= i < |path| - 1 ==> Implies(rules, path[i], path[i + 1])
  }

  ghost predicate HasImplicationCycle(rules: seq<Rule>) {
    exists path :: ImplicationCycle(rules, path)
  }

  ghost function ImplicationNodes(rules: seq<Rule>): set<Node> {
    (set r, imp | r in rules && r.state == Active && imp in r.implications :: Node(imp.side, imp.ifPresent))
    + (set r, imp | r in rules && r.state == Active && imp in r.implications :: Node(imp.side, imp.thenRequired))
  }

  lemma GraphNodesAreDeclared(rules: seq<Rule>, adjacency: Adjacency)
    requires NoEmptyLists(adjacency)
    requires forall a, b :: HasEdge(adjacency, a, b) <==> Implies(rules, a, b)
    ensures NodesOf(adjacency) <= ImplicationNodes(rules)
  {
    forall n | n in NodesOf(adjacency) ensures n in ImplicationNodes(rules) {
      if n in adjacency {
        assert HasEdge(adjacency, n, Node(n.side, adjacency[n][0]));
        assert Implies(rules, n, Node(n.side, adjacency[n][0]));
      } else {
        var a, c :| a in adjacency && c in adjacency[a] && n == Node(a.side, c);
        assert HasEdge(adjacency, a, n);
        assert Implies(rules, a, n);
      }
    }
  }

  method KeysOf(adjacency: Adjacency) returns (keys: seq<Node>)
    ensures forall n :: n in adjacency <==> n in keys
  {
    keys := [];
    var left := adjacency.Keys;
    while left != {}
      invariant left <= adjacency.Keys
      invariant forall n :: n in adjacency <==> n in left || n in keys
      decreases |left|
    {
      var n :| n in left;
      left := left - {n};
      keys := keys + [n];
    }
  }

  /** Whatever it reports is a cycle; with at most 257 nodes and room to report, none goes unnoticed. */
  method CyclePass(rules: seq<Rule>, maxReported: nat) returns (cycles: seq<seq<Node>>, capped: bool)
    ensures forall i :: 0 <= i < |cycles| ==> ImplicationCycle(rules, cycles[i])
    ensures |cycles| <= maxReported && (capped <==> |cycles| == maxReported)
    ensures |ImplicationNodes(rules)| <= 257 && maxReported > 0
      ==> (cycles != [] <==> HasImplicationCycle(rules))
  {
    var adjacency := BuildAdjacency(rules);
    GraphNodesAreDeclared(rules, adjacency);
    NotLarger(NodesOf(adjacency), ImplicationNodes(rules));
    var keys := KeysOf(adjacency);
    var search := new Search(adjacency, maxReported);
    search.Run(keys);
    cycles := search.cycles;
    capped := |cycles| >= maxReported;
    assert forall path :: IsCycle(adjacency, path) <==> ImplicationCycle(rules, path);
    assert HasCycle(adjacency) <==> HasImplicationCycle(rules);
  }
}
