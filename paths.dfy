/** Walks, reachability and directed cycles over adjacency lists. */
module Paths {
  import opened Adjacency

  /** `p` follows edges of the graph from its first to its last vertex. */
  predicate IsWalk(s: seq<seq<int>>, p: seq<int>) {
    |p| >= 1 && forall i :: 0 <= i < |p| - 1 ==> Edge(s, p[i], p[i + 1])
  }

  /** `b` can be reached from `a` by a path of at least one edge. */
  ghost predicate Reaches(s: seq<seq<int>>, a: int, b: int) {
    exists p :: |p| >= 2 && IsWalk(s, p) && p[0] == a && p[|p| - 1] == b
  }

  /** `b` is `a` itself or reachable from it. */
  ghost predicate ReachesOrSame(s: seq<seq<int>>, a: int, b: int) {
    b == a || Reaches(s, a, b)
  }

  /** Extending a path by one edge. */
  lemma ReachesStep(s: seq<seq<int>>, a: int, x: int, y: int)
    requires ReachesOrSame(s, a, x) && Edge(s, x, y)
    ensures Reaches(s, a, y)
  {
    if x == a {
      assert IsWalk(s, [a, y]);
    } else {
      var p :| |p| >= 2 && IsWalk(s, p) && p[0] == a && p[|p| - 1] == x;
      var q := p + [y];
      assert forall i :: 0 <= i < |q| - 1 ==> Edge(s, q[i], q[i + 1]) by {
        forall i | 0 <= i < |q| - 1 ensures Edge(s, q[i], q[i + 1]) {
          if i < |p| - 1 { assert q[i] == p[i] && q[i + 1] == p[i + 1]; }
        }
      }
      assert IsWalk(s, q);
    }
  }

  /** Every vertex reached from `a` lies in the graph. */
  lemma ReachesInRange(s: seq<seq<int>>, a: int, b: int)
    requires WellFormed(s) && Reaches(s, a, b)
    ensures 0 <= b < |s|
  {
    var p :| |p| >= 2 && IsWalk(s, p) && p[0] == a && p[|p| - 1] == b;
    assert Edge(s, p[|p| - 2], p[|p| - 1]);
  }

  /** A directed cycle as DirectedCycle.java's cycle stack holds it, in push order:
      it starts and ends with the same vertex and each vertex is entered
      from the one pushed after it (c[i+1] -> c[i] is an edge). */
  predicate IsCycleTrace(s: seq<seq<int>>, c: seq<int>) {
    && |c| >= 2
    && c[0] == c[|c| - 1]
    && forall i :: 0 <= i < |c| - 1 ==> Edge(s, c[i + 1], c[i])
  }

  /** A cycle trace through distinct vertices: only the closing vertex repeats. */
  predicate IsSimpleCycle(s: seq<seq<int>>, c: seq<int>) {
    && IsCycleTrace(s, c)
    && forall i, j :: 0 <= i < j < |c| - 1 ==> c[i] != c[j]
  }

  ghost predicate HasCycle(s: seq<seq<int>>) {
    exists c :: IsCycleTrace(s, c)
  }

  /** `rank` numbers every vertex so that each edge goes to a lower number
      (the finishing order of a depth-first search without back edges). */
  ghost predicate Ranked(s: seq<seq<int>>, rank: map<int, int>) {
    && (forall u :: 0 <= u < |s| ==> u in rank)
    && (forall u, w :: Edge(s, u, w) ==> u in rank && w in rank && rank[w] < rank[u])
  }

  lemma {:induction false} RankGrowsAlongTrace(s: seq<seq<int>>, rank: map<int, int>, c: seq<int>, k: nat)
    requires Ranked(s, rank)
    requires forall i :: 0 <= i < |c| - 1 ==> Edge(s, c[i + 1], c[i])
    requires 1 <= k < |c|
    ensures c[0] in rank && c[k] in rank && rank[c[0]] < rank[c[k]]
  {
    assert Edge(s, c[k], c[k - 1]);
    if k > 1 {
      RankGrowsAlongTrace(s, rank, c, k - 1);
    }
  }

  /** A graph whose vertices can be ranked that way has no directed cycle. */
  lemma RankedAcyclic(s: seq<seq<int>>, rank: map<int, int>)
    requires Ranked(s, rank)
    ensures !HasCycle(s)
  {
    if HasCycle(s) {
      var c :| IsCycleTrace(s, c);
      RankGrowsAlongTrace(s, rank, c, |c| - 1);
      assert false;
    }
  }
}
