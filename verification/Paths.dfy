/** Finite directed graphs, given by their sets of edges: paths, cycles and rankings.
    Foreign-key graphs and wait-for relations are both of this kind. */
module Paths {
  import opened Collections

  ghost predicate IsPath<V>(edges: set<(V, V)>, p: seq<V>) {
    |p| > 0 && forall i :: 0 < i < |p| ==> (p[i - 1], p[i]) in edges
  }

  ghost predicate IsPathFromTo<V>(edges: set<(V, V)>, p: seq<V>, a: V, b: V) {
    IsPath(edges, p) && p[0] == a && p[|p| - 1] == b
  }

  /** There is a path of at least one edge from a to b. */
  ghost predicate Reaches<V(!new)>(edges: set<(V, V)>, a: V, b: V) {
    exists p :: |p| >= 2 && IsPathFromTo(edges, p, a, b)
  }

  ghost predicate Acyclic<V(!new)>(edges: set<(V, V)>) {
    forall v: V :: !Reaches(edges, v, v)
  }

  /** A ranking of the nodes that strictly decreases along every edge. */
  ghost predicate Ranks<V>(edges: set<(V, V)>, rank: map<V, nat>) {
    forall e :: e in edges ==> e.0 in rank && e.1 in rank && rank[e.1] < rank[e.0]
  }

  ghost function Nodes<V>(edges: set<(V, V)>): (r: set<V>)
    ensures forall e :: e in edges ==> e.0 in r && e.1 in r
    ensures forall v :: v in r ==> exists e :: e in edges && (v == e.0 || v == e.1)
  {
    (set e | e in edges :: e.0) + (set e | e in edges :: e.1)
  }

  lemma JoinPaths<V>(edges: set<(V, V)>, p: seq<V>, q: seq<V>)
    requires IsPath(edges, p) && IsPath(edges, q) && p[|p| - 1] == q[0]
    ensures IsPathFromTo(edges, p + q[1..], p[0], q[|q| - 1])
  {
    var r := p + q[1..];
    forall i | 0 < i < |r| ensures (r[i - 1], r[i]) in edges {
      if i > |p| {
        assert r[i - 1] == q[i - |p|] && r[i] == q[i - |p| + 1];
      } else if i == |p| {
        assert r[i - 1] == q[0] && r[i] == q[1];
      }
    }
  }

  lemma ExtendPath<V>(edges: set<(V, V)>, p: seq<V>, v: V)
    requires IsPath(edges, p) && (p[|p| - 1], v) in edges
    ensures IsPath(edges, p + [v])
  {
  }

  lemma SubPath<V>(edges: set<(V, V)>, p: seq<V>, i: nat, j: nat)
    requires IsPath(edges, p) && i < j <= |p|
    ensures IsPathFromTo(edges, p[i..j], p[i], p[j - 1])
  {
    var r := p[i..j];
    forall k | 0 < k < |r| ensures (r[k - 1], r[k]) in edges {
      assert r[k - 1] == p[i + k - 1] && r[k] == p[i + k];
    }
  }

  lemma EdgeReaches<V(!new)>(edges: set<(V, V)>, a: V, b: V)
    requires (a, b) in edges
    ensures Reaches(edges, a, b)
  {
    assert IsPathFromTo(edges, [a, b], a, b);
  }

  lemma ReachesTransitive<V(!new)>(edges: set<(V, V)>, a: V, b: V, c: V)
    requires Reaches(edges, a, b) && Reaches(edges, b, c)
    ensures Reaches(edges, a, c)
  {
    var p :| |p| >= 2 && IsPathFromTo(edges, p, a, b);
    var q :| |q| >= 2 && IsPathFromTo(edges, q, b, c);
    JoinPaths(edges, p, q);
  }

  lemma ReachesNodes<V(!new)>(edges: set<(V, V)>, a: V, b: V)
    requires Reaches(edges, a, b)
    ensures a in Nodes(edges) && b in Nodes(edges)
  {
    var p :| |p| >= 2 && IsPathFromTo(edges, p, a, b);
    assert (p[0], p[1]) in edges && (p[|p| - 2], p[|p| - 1]) in edges;
  }

  lemma ReachesEnters<V(!new)>(edges: set<(V, V)>, a: V, b: V)
    requires Reaches(edges, a, b)
    ensures exists e :: e in edges && e.1 == b
  {
    var p :| |p| >= 2 && IsPathFromTo(edges, p, a, b);
    assert (p[|p| - 2], p[|p| - 1]) in edges;
  }

  /** Everything on a closed path lies on a cycle itself. */
  lemma CycleMembers<V(!new)>(edges: set<(V, V)>, p: seq<V>, i: nat)
    requires |p| >= 2 && IsPath(edges, p) && p[0] == p[|p| - 1] && i < |p|
    ensures Reaches(edges, p[i], p[i])
  {
    SubPath(edges, p, i, |p|);
    SubPath(edges, p, 0, i + 1);
    JoinPaths(edges, p[i..], p[..i + 1]);
    assert |p[i..] + p[..i + 1][1..]| >= 2;
  }

  /** A finite graph has no cycle exactly when it can be ranked. */
  lemma AcyclicIffRanked<V(!new)>(edges: set<(V, V)>)
    ensures Acyclic(edges) <==> exists rank :: Ranks(edges, rank)
  {
    if Acyclic(edges) {
      AcyclicIsRanked(edges);
    }
    if rank :| Ranks(edges, rank) {
      forall v: V ensures !Reaches(edges, v, v) {
        if Reaches(edges, v, v) {
          var p :| |p| >= 2 && IsPathFromTo(edges, p, v, v);
          RankFalls(edges, rank, p);
        }
      }
    }
  }

  /** Three different nodes in a row. */
  lemma ChainIsAcyclic<V(!new)>(a: V, b: V, c: V)
    requires a != b && b != c && a != c
    ensures Acyclic({(a, b), (b, c)})
  {
    var edges := {(a, b), (b, c)};
    var rank: map<V, nat> := map[a := 2, b := 1, c := 0];
    assert Ranks(edges, rank);
    AcyclicIffRanked(edges);
  }

  lemma {:induction false} RankFalls<V>(edges: set<(V, V)>, rank: map<V, nat>, p: seq<V>)
    requires Ranks(edges, rank) && IsPath(edges, p) && |p| >= 2
    ensures p[0] in rank && p[|p| - 1] in rank && rank[p[|p| - 1]] < rank[p[0]]
  {
    assert (p[|p| - 2], p[|p| - 1]) in edges;
    if |p| > 2 {
      SubPath(edges, p, 0, |p| - 1);
      RankFalls(edges, rank, p[..|p| - 1]);
    }
  }

  ghost function ReachSet<V(!new)>(edges: set<(V, V)>, a: V): set<V> {
    set v | v in Nodes(edges) && Reaches(edges, a, v)
  }

  /** Ranking by the number of nodes that can be reached. */
  lemma AcyclicIsRanked<V(!new)>(edges: set<(V, V)>)
    requires Acyclic(edges)
    ensures exists rank :: Ranks(edges, rank)
  {
    var rank: map<V, nat> := map v | v in Nodes(edges) :: |ReachSet(edges, v)|;
    forall e | e in edges ensures e.0 in rank && e.1 in rank && rank[e.1] < rank[e.0] {
      EdgeReaches(edges, e.0, e.1);
      var x, y := ReachSet(edges, e.0), ReachSet(edges, e.1);
      forall v | v in y ensures v in x {
        ReachesTransitive(edges, e.0, e.1, v);
      }
      assert e.1 in x && e.1 !in y;
      SubsetSize(y + {e.1}, x);
    }
    assert Ranks(edges, rank);
  }

  /** In an acyclic graph every node leads to one without outgoing edges. */
  lemma LeadsToEnd<V(!new)>(edges: set<(V, V)>, rank: map<V, nat>, a: V) returns (p: seq<V>)
    requires Ranks(edges, rank) && a in rank
    ensures IsPath(edges, p) && p[0] == a
    ensures forall e :: e in edges ==> e.0 != p[|p| - 1]
    decreases rank[a]
  {
    if e :| e in edges && e.0 == a {
      var q := LeadsToEnd(edges, rank, e.1);
      p := [a] + q;
      assert forall i :: 0 < i < |p| ==> p[i] == q[i - 1];
    } else {
      p := [a];
    }
  }
}
