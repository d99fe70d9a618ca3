/** The `wait_dep` cycle search of `check-dep-cycles.py`: a three-colour depth-first search
    that reports one node list for every edge back into the current stack. */
module DepCycles {
  import opened Graphs

  datatype Color = White | Gray | Black

  /** Services and, for each, its dependencies in script order. */
  type Dependencies = map<string, seq<string>>

  ghost function Adjacency(graph: Dependencies): (g: Graph)
    ensures g.Keys == graph.Keys
    ensures forall a, b :: Edge(g, a, b) <==> a in graph && b in graph && b in graph[a]
  {
    map a | a in graph :: set b | b in graph[a]
  }

  /** A reported list is a cycle: it ends where it starts, every step is a dependency, and
      no other node repeats. */
  ghost predicate IsCycle(graph: Dependencies, c: seq<string>) {
    ClosedWalk(Adjacency(graph), c) && forall i, j | 0 <= i < j < |c| - 1 :: c[i] != c[j]
  }

  /** Some reported list ends with the edge from `a` to `b`. */
  ghost predicate ClosedBy(cycles: seq<seq<string>>, a: string, b: string) {
    exists c :: c in cycles && |c| >= 2 && c[|c| - 2] == a && c[|c| - 1] == b
  }

  /** The graph without the closing edges of the report. */
  ghost function Without(graph: Dependencies, cycles: seq<seq<string>>): Graph {
    map a | a in graph :: set b | b in graph[a] && !ClosedBy(cycles, a, b)
  }

  /** `done` lists nodes so that every dependency of a listed node is listed before it or
      closes a reported cycle. */
  ghost predicate Finished(graph: Dependencies, done: seq<string>, cycles: seq<seq<string>>) {
    forall i, b | 0 <= i < |done| && done[i] in graph && b in graph[done[i]] && b in graph ::
      b in done[..i] || ClosedBy(cycles, done[i], b)
  }

  ghost function Position(done: seq<string>, a: string): (i: nat)
    requires a in done
    ensures i < |done| && done[i] == a && forall k | 0 <= k < i :: done[k] != a
  {
    if done[0] == a then 0 else 1 + Position(done[1..], a)
  }

  lemma FinishedIsAcyclic(graph: Dependencies, done: seq<string>, cycles: seq<seq<string>>)
    requires Finished(graph, done, cycles) && forall a | a in graph :: a in done
    ensures Acyclic(Without(graph, cycles))
  {
    var h := Without(graph, cycles);
    var rank: map<string, nat> := map a | a in graph :: Position(done, a);
    forall a, b | Edge(h, a, b) ensures rank[b] < rank[a] {
      var i := Position(done, a);
      assert done[i] in graph && b in graph[done[i]];
      var j :| 0 <= j < i && done[..i][j] == b;
      assert Position(done, b) <= j;
    }
    assert Ranks(h, rank);
    RankedIsAcyclic(h, rank);
  }

  lemma WithoutNothing(graph: Dependencies)
    ensures Without(graph, []) == Adjacency(graph)
  {
    var g, h := Adjacency(graph), Without(graph, []);
    forall a | a in graph ensures g[a] == h[a] {
      assert forall b :: !ClosedBy([], a, b);
    }
  }

  /** Every cycle of the graph, reported itself or not, runs over the closing edge of some
      reported one. */
  lemma EveryCycleIsHit(graph: Dependencies, cycles: seq<seq<string>>, w: seq<string>) returns (i: nat)
    requires Acyclic(Without(graph, cycles)) && ClosedWalk(Adjacency(graph), w)
    ensures i + 1 < |w| && ClosedBy(cycles, w[i], w[i + 1])
  {
    var g, h := Adjacency(graph), Without(graph, cycles);
    if k :| 0 <= k < |w| - 1 && !Edge(h, w[k], w[k + 1]) {
      assert Edge(g, w[k], w[k + 1]);
      i := k;
    } else {
      assert ClosedWalk(h, w);
      assert false;
    }
  }

  lemma ClosedByGrows(before: seq<seq<string>>, after: seq<seq<string>>)
    requires before <= after
    ensures forall a, b | ClosedBy(before, a, b) :: ClosedBy(after, a, b)
  {
    forall a, b | ClosedBy(before, a, b) ensures ClosedBy(after, a, b) {
      var c :| c in before && |c| >= 2 && c[|c| - 2] == a && c[|c| - 1] == b;
      assert c in after;
    }
  }

  lemma FinishedAfter(graph: Dependencies, done: seq<string>, cycles: seq<seq<string>>, cycle: seq<string>)
    requires Finished(graph, done, cycles)
    ensures Finished(graph, done, cycles + [cycle])
  {
    ClosedByGrows(cycles, cycles + [cycle]);
  }

  lemma FinishedSnoc(graph: Dependencies, done: seq<string>, cycles: seq<seq<string>>, a: string)
    requires Finished(graph, done, cycles) && a in graph
    requires forall b | b in graph[a] && b in graph :: b in done || ClosedBy(cycles, a, b)
    ensures Finished(graph, done + [a], cycles)
  {
    var more := done + [a];
    forall i, b | 0 <= i < |more| && more[i] in graph && b in graph[more[i]] && b in graph
      ensures b in more[..i] || ClosedBy(cycles, more[i], b)
    {
      assert i < |done| ==> more[..i] == done[..i];
      assert more[..|done|] == done;
    }
  }

  /** The stack from the first visit of `b`, then `b` again. */
  lemma BackEdgeIsCycle(graph: Dependencies, stack: seq<string>, at: nat, b: string)
    requires at < |stack| && stack[at] == b && Walk(Adjacency(graph), stack)
    requires forall i, j | 0 <= i < j < |stack| :: stack[i] != stack[j]
    requires Edge(Adjacency(graph), stack[|stack| - 1], b)
    ensures IsCycle(graph, stack[at..] + [b])
  {
    SegmentIsWalk(Adjacency(graph), stack, at, |stack|);
    WalkSnoc(Adjacency(graph), stack[at..], b);
  }

  class CycleSearch {
    const graph: Dependencies
    var color: map<string, Color>
    var stack: seq<string>
    var cycles: seq<seq<string>>
    ghost var done: seq<string>

    /** Gray nodes are the stack, black nodes are finished. */
    ghost predicate Painted()
      reads this
    {
      color.Keys == graph.Keys &&
      (forall a | a in graph :: color[a] == Gray <==> a in stack) &&
      (forall a | a in graph :: color[a] == Black <==> a in done)
    }

    ghost predicate Traced()
      reads this
    {
      (forall a | a in stack :: a in graph) &&
      (forall i, j | 0 <= i < j < |stack| :: stack[i] != stack[j]) &&
      (stack != [] ==> Walk(Adjacency(graph), stack)) &&
      (forall c | c in cycles :: IsCycle(graph, c)) &&
      Finished(graph, done, cycles)
    }

    ghost predicate Valid()
      reads this
    {
      Painted() && Traced()
    }

    ghost function Whites(): set<string>
      reads this
      requires color.Keys == graph.Keys
    {
      set a | a in graph && color[a] == White
    }

    constructor (graph: Dependencies)
      ensures this.graph == graph && Valid() && cycles == [] && stack == [] && done == []
    {
      this.graph := graph;
      color := map a | a in graph :: White;
      stack, cycles, done := [], [], [];
    }

    /** When every node is black the search is over. */
    lemma AllVisited()
      requires Valid() && stack == [] && forall a | a in graph :: color[a] == Black
      ensures Finished(graph, done, cycles)
      ensures (forall a | a in graph :: a in done) && forall c | c in cycles :: IsCycle(graph, c)
    {
      hide Walk, Finished, IsCycle;
    }

    /** Gray, and on the stack. */
    method Enter(node: string)
      requires Valid() && node in graph && color[node] == White
      requires stack != [] ==> node in graph[stack[|stack| - 1]]
      modifies this
      ensures Valid() && stack == old(stack) + [node] && color == old(color)[node := Gray]
      ensures done == old(done) && cycles == old(cycles)
    {
      if stack != [] { WalkSnoc(Adjacency(graph), stack, node); }
      color := color[node := Gray];
      stack := stack + [node];
    }

    /** The cycle closed by an edge back into the stack. */
    method Report(node: string, neighbour: string)
      requires Valid() && neighbour in graph && color[neighbour] == Gray
      requires stack != [] && stack[|stack| - 1] == node && neighbour in graph[node]
      modifies this`cycles
      ensures Valid() && old(cycles) <= cycles && ClosedBy(cycles, node, neighbour)
    {
      hide Walk, Finished, IsCycle;
      var at :| 0 <= at < |stack| && stack[at] == neighbour;
      var cycle := stack[at..] + [neighbour];
      BackEdgeIsCycle(graph, stack, at, neighbour);
      FinishedAfter(graph, done, cycles, cycle);
      cycles := cycles + [cycle];
      assert cycle in cycles && cycle[|cycle| - 2] == node;
    }

    /** Black, and off the stack. */
    method Leave(node: string)
      requires Valid() && stack != [] && stack[|stack| - 1] == node
      requires forall b | b in graph[node] && b in graph :: b in done || ClosedBy(cycles, node, b)
      modifies this
      ensures Valid() && stack == old(stack)[..|old(stack)| - 1] && color == old(color)[node := Black]
      ensures done == old(done) + [node] && cycles == old(cycles)
    {
      FinishedSnoc(graph, done, cycles, node);
      if |stack| > 1 { SegmentIsWalk(Adjacency(graph), stack, 0, |stack| - 1); }
      hide Walk, Finished, IsCycle, ClosedBy, Edge;
      color := color[node := Black];
      stack := stack[..|stack| - 1];
      done := done + [node];
    }

    method Visit(node: string)
      requires Valid() && node in graph && color[node] == White
      requires stack != [] ==> node in graph[stack[|stack| - 1]]
      modifies this
      ensures Valid() && stack == old(stack) && color[node] == Black
      ensures forall a | a in graph && old(color[a]) != White :: color[a] == old(color[a])
      ensures old(done) <= done && old(cycles) <= cycles
      decreases Whites(), 0
    {
      hide Traced, ClosedBy;
      ghost var whites := Whites();
      Enter(node);
      var neighbours := graph[node];
      for i := 0 to |neighbours|
        invariant Valid() && stack == old(stack) + [node] && color[node] == Gray
        invariant Whites() <= whites - {node}
        invariant forall a | a in graph && a != node && old(color[a]) != White :: color[a] == old(color[a])
        invariant old(done) <= done && old(cycles) <= cycles
        invariant forall k | 0 <= k < i && neighbours[k] in graph ::
                    neighbours[k] in done || ClosedBy(cycles, node, neighbours[k])
      {
        if neighbours[i] in graph {
          ghost var before := cycles;
          Look(node, neighbours[i]);
          ClosedByGrows(before, cycles);
        }
      }
      Leave(node);
    }

    /** One neighbour of the node on top of the stack. */
    method Look(node: string, neighbour: string)
      requires Valid() && stack != [] && stack[|stack| - 1] == node
      requires neighbour in graph && neighbour in graph[node]
      modifies this
      ensures Valid() && stack == old(stack)
      ensures forall a | a in graph && old(color[a]) != White :: color[a] == old(color[a])
      ensures old(done) <= done && old(cycles) <= cycles
      ensures neighbour in done || ClosedBy(cycles, node, neighbour)
      decreases Whites(), 1
    {
      hide Traced, ClosedBy;
      if color[neighbour] == Gray {
        Report(node, neighbour);
      } else if color[neighbour] == White {
        Visit(neighbour);
      }
    }
  }

  lemma NothingReported(graph: Dependencies, cycles: seq<seq<string>>)
    requires (forall c | c in cycles :: IsCycle(graph, c)) && Acyclic(Without(graph, cycles))
    ensures cycles == [] <==> Acyclic(Adjacency(graph))
  {
    if cycles == [] {
      WithoutNothing(graph);
    } else {
      assert IsCycle(graph, cycles[0]);
    }
  }

  /** `find_cycles`, over the graph's nodes in any iteration order. */
  method FindCycles(graph: Dependencies, nodes: seq<string>) returns (cycles: seq<seq<string>>)
    requires forall a | a in graph :: a in nodes
    requires forall a | a in nodes :: a in graph
    ensures forall c | c in cycles :: IsCycle(graph, c)
    ensures Acyclic(Without(graph, cycles))
    ensures cycles == [] <==> Acyclic(Adjacency(graph))
  {
    hide Without, Adjacency, Acyclic, IsCycle, Finished;
    var search := new CycleSearch(graph);
    for i := 0 to |nodes|
      invariant search.Valid() && search.stack == []
      invariant forall k | 0 <= k < i :: search.color[nodes[k]] == Black
    {
      if search.color[nodes[i]] == White {
        search.Visit(nodes[i]);
      }
    }
    cycles := search.cycles;
    forall a | a in graph ensures search.color[a] == Black {
      var k :| 0 <= k < |nodes| && nodes[k] == a;
    }
    search.AllVisited();
    FinishedIsAcyclic(graph, search.done, cycles);
    NothingReported(graph, cycles);
  }
}
