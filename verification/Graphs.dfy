/** Finite directed graphs: "no closed walk" and "ranks fall along every edge" are the same
    thing. `wait_dep` trees and `$ref` definitions are both read as such graphs. */
module Graphs {
  /** Node to neighbours; neighbours that are no nodes of the graph are ignored. */
  type Graph = map<string, set<string>>

  ghost predicate Edge(g: Graph, a: string, b: string) {
    a in g && b in g && b in g[a]
  }

  ghost predicate Walk(g: Graph, w: seq<string>) {
    w != [] && (forall x | x in w :: x in g) && forall i | 0 <= i < |w| - 1 :: Edge(g, w[i], w[i + 1])
  }

  ghost predicate ClosedWalk(g: Graph, w: seq<string>) {
    |w| >= 2 && Walk(g, w) && w[0] == w[|w| - 1]
  }

  ghost predicate Acyclic(g: Graph) {
    forall w :: !ClosedWalk(g, w)
  }

  ghost predicate Ranks(g: Graph, rank: map<string, nat>) {
    rank.Keys == g.Keys && forall a, b | Edge(g, a, b) :: rank[b] < rank[a]
  }

  lemma SegmentIsWalk(g: Graph, w: seq<string>, i: nat, j: nat)
    requires Walk(g, w) && i < j <= |w|
    ensures Walk(g, w[i..j])
  {
    var c := w[i..j];
    forall k | 0 <= k < |c| - 1 ensures Edge(g, c[k], c[k + 1]) {
      assert Edge(g, w[i + k], w[i + k + 1]);
    }
  }

  lemma WalkSnoc(g: Graph, w: seq<string>, b: string)
    requires Walk(g, w) && Edge(g, w[|w| - 1], b)
    ensures Walk(g, w + [b])
  {
    var v := w + [b];
    forall i | 0 <= i < |v| - 1 ensures Edge(g, v[i], v[i + 1]) {
      if i < |w| - 1 { assert Edge(g, w[i], w[i + 1]); }
    }
  }

  lemma {:induction false} RankFalls(g: Graph, rank: map<string, nat>, w: seq<string>)
    requires Ranks(g, rank) && Walk(g, w) && |w| >= 2
    ensures rank[w[|w| - 1]] < rank[w[0]]
  {
    assert Edge(g, w[0], w[1]);
    if |w| > 2 {
      SegmentIsWalk(g, w, 1, |w|);
      RankFalls(g, rank, w[1..]);
    }
  }

  lemma RankedIsAcyclic(g: Graph, rank: map<string, nat>)
    requires Ranks(g, rank)
    ensures Acyclic(g)
  {
    forall w ensures !ClosedWalk(g, w) {
      if ClosedWalk(g, w) {
        RankFalls(g, rank, w);
        assert false;
      }
    }
  }

  lemma {:induction false} DistinctFits<T>(w: seq<T>, s: set<T>)
    requires forall x | x in w :: x in s
    requires forall i, j | 0 <= i < j < |w| :: w[i] != w[j]
    ensures |w| <= |s|
  {
    if w != [] {
      var t := w[1..];
      forall x | x in t ensures x in s - {w[0]} {
        var i :| 0 <= i < |t| && t[i] == x;
        assert w[i + 1] == x && x in w;
      }
      DistinctFits(t, s - {w[0]});
    }
  }

  lemma WalkCons(g: Graph, a: string, t: seq<string>)
    requires Walk(g, t) && Edge(g, a, t[0])
    ensures Walk(g, [a] + t)
  {
    var w := [a] + t;
    forall i | 0 <= i < |w| - 1 ensures Edge(g, w[i], w[i + 1]) {
      if i > 0 { assert Edge(g, t[i - 1], t[i]); }
    }
  }

  ghost predicate HasSuccessor(g: Graph, x: string) {
    exists y :: Edge(g, x, y)
  }

  ghost predicate NoSink(g: Graph) {
    forall x {:trigger HasSuccessor(g, x)} | x in g :: HasSuccessor(g, x)
  }

  lemma {:induction false} LongWalk(g: Graph, a: string, n: nat) returns (w: seq<string>)
    requires a in g && NoSink(g)
    ensures Walk(g, w) && |w| == n + 1 && w[0] == a
    decreases n
  {
    if n == 0 {
      w := [a];
    } else {
      assert HasSuccessor(g, a);
      var b :| Edge(g, a, b);
      var t := LongWalk(g, b, n - 1);
      WalkCons(g, a, t);
      w := [a] + t;
    }
  }

  /** A walk longer than the graph closes on itself. */
  lemma LongWalkCloses(g: Graph, w: seq<string>)
    requires Walk(g, w) && |w| > |g|
    ensures !Acyclic(g)
  {
    if forall i, j | 0 <= i < j < |w| :: w[i] != w[j] {
      DistinctFits(w, g.Keys);
      assert false;
    } else {
      var i, j :| 0 <= i < j < |w| && w[i] == w[j];
      SegmentIsWalk(g, w, i, j + 1);
      assert ClosedWalk(g, w[i..j + 1]);
    }
  }

  lemma SinkExists(g: Graph) returns (a: string)
    requires Acyclic(g) && |g| > 0
    ensures a in g && forall b :: !Edge(g, a, b)
  {
    if NoSink(g) {
      a :| a in g;
      var w := LongWalk(g, a, |g|);
      LongWalkCloses(g, w);
      assert false;
    } else {
      a :| a in g && !HasSuccessor(g, a);
    }
  }

  lemma {:induction false} AcyclicIsRanked(g: Graph)
    requires Acyclic(g)
    ensures exists rank :: Ranks(g, rank)
    decreases |g|
  {
    if |g| == 0 {
      assert Ranks(g, map[]);
    } else {
      var a := SinkExists(g);
      var h := g - {a};
      forall w ensures !ClosedWalk(h, w) {
        if ClosedWalk(h, w) {
          assert forall i | 0 <= i < |w| - 1 :: Edge(h, w[i], w[i + 1]) && Edge(g, w[i], w[i + 1]);
          assert ClosedWalk(g, w);
          assert false;
        }
      }
      AcyclicIsRanked(h);
      var r :| Ranks(h, r);
      var rank: map<string, nat> := map x | x in g :: if x == a then 0 else r[x] + 1;
      forall x, y | Edge(g, x, y) ensures rank[y] < rank[x] {
        if y != a { assert Edge(h, x, y); }
      }
      assert Ranks(g, rank);
    }
  }

  lemma AcyclicIffRanked(g: Graph)
    ensures Acyclic(g) <==> exists rank :: Ranks(g, rank)
  {
    if Acyclic(g) { AcyclicIsRanked(g); }
    if rank :| Ranks(g, rank) { RankedIsAcyclic(g, rank); }
  }
}
