/** Value-level facts about adjacency lists: `s[v]` is the list of vertices
    adjacent from `v`, in insertion order (Bag.add is modelled as an append). */
module Adjacency {

  /** Every stored endpoint is a vertex of the graph. */
  predicate WellFormed(s: seq<seq<int>>) {
    forall v, i :: 0 <= v < |s| && 0 <= i < |s[v]| ==> 0 <= s[v][i] < |s|
  }

  /** The graph has the edge u->w (at least once). */
  predicate Edge(s: seq<seq<int>>, u: int, w: int) {
    0 <= u < |s| && w in s[u]
  }

  /** `n` vertices and no edges. */
  function Empty(n: nat): (s: seq<seq<int>>)
    ensures |s| == n && WellFormed(s)
    ensures forall v :: 0 <= v < n ==> s[v] == []
  {
    seq(n, _ => [])
  }

  lemma {:induction false} EmptyHasNoEdges(n: nat)
    ensures SumLen(Empty(n)) == 0
    ensures forall w :: Occurrences(Empty(n), w) == 0
  {
    if n > 0 {
      EmptyHasNoEdges(n - 1);
      assert Empty(n)[..n - 1] == Empty(n - 1);
    }
  }

  /** Total number of edges: the sum of the outdegrees. */
  function SumLen(s: seq<seq<int>>): nat {
    if s == [] then 0 else SumLen(s[..|s| - 1]) + |s[|s| - 1]|
  }

  /** Number of edges into `w`, counted over all lists: the indegree of `w`. */
  function Occurrences(s: seq<seq<int>>, w: int): nat {
    if s == [] then 0 else Occurrences(s[..|s| - 1], w) + multiset(s[|s| - 1])[w]
  }

  /** Sum of the integers in `t`. */
  function Sum(t: seq<int>): int {
    if t == [] then 0 else Sum(t[..|t| - 1]) + t[|t| - 1]
  }

  /** Number of entries of `l` below `n` (as the sum over u < n of their counts). */
  function CountTo(l: seq<int>, n: nat): nat {
    if n == 0 then 0 else CountTo(l, n - 1) + multiset(l)[n - 1]
  }

  /** Sum of the indegrees of the vertices below `n`. */
  function OccurrenceSum(s: seq<seq<int>>, n: nat): nat {
    if n == 0 then 0 else OccurrenceSum(s, n - 1) + Occurrences(s, n - 1)
  }

  predicate EntriesBelow(s: seq<seq<int>>, n: int) {
    forall v, i :: 0 <= v < |s| && 0 <= i < |s[v]| ==> 0 <= s[v][i] < n
  }

  lemma {:induction false} CountToSnoc(l: seq<int>, x: int, n: nat)
    ensures CountTo(l + [x], n) == CountTo(l, n) + (if 0 <= x < n then 1 else 0)
  {
    if n > 0 {
      CountToSnoc(l, x, n - 1);
      assert multiset(l + [x]) == multiset(l) + multiset{x};
    }
  }

  lemma {:induction false} CountToNothing(n: nat)
    ensures CountTo([], n) == 0
  {
    if n > 0 { CountToNothing(n - 1); }
  }

  lemma {:induction false} OccurrenceSumNothing(n: nat)
    ensures OccurrenceSum([], n) == 0
  {
    if n > 0 { OccurrenceSumNothing(n - 1); }
  }

  /** A list whose entries all lie below `n` is counted entirely. */
  lemma {:induction false} CountToAll(l: seq<int>, n: nat)
    requires forall i :: 0 <= i < |l| ==> 0 <= l[i] < n
    ensures CountTo(l, n) == |l|
  {
    if l != [] {
      var p, x := l[..|l| - 1], l[|l| - 1];
      assert l == p + [x];
      CountToAll(p, n);
      CountToSnoc(p, x, n);
    } else {
      CountToNothing(n);
    }
  }

  lemma {:induction false} OccurrenceSumSnoc(s: seq<seq<int>>, l: seq<int>, n: nat)
    ensures OccurrenceSum(s + [l], n) == OccurrenceSum(s, n) + CountTo(l, n)
  {
    if n > 0 {
      OccurrenceSumSnoc(s, l, n - 1);
      assert (s + [l])[..|s + [l]| - 1] == s;
    }
  }

  /** The indegrees of all vertices add up to the number of edges. */
  lemma {:induction false} IndegreeSumIsEdgeCount(s: seq<seq<int>>, n: nat)
    requires EntriesBelow(s, n)
    ensures OccurrenceSum(s, n) == SumLen(s)
  {
    if s != [] {
      var p, l := s[..|s| - 1], s[|s| - 1];
      assert s == p + [l];
      assert EntriesBelow(p, n) by {
        forall v, i | 0 <= v < |p| && 0 <= i < |p[v]| ensures 0 <= p[v][i] < n {
          assert p[v] == s[v];
        }
      }
      IndegreeSumIsEdgeCount(p, n);
      OccurrenceSumSnoc(p, l, n);
      assert forall i :: 0 <= i < |l| ==> l[i] == s[|s| - 1][i];
      CountToAll(l, n);
    } else {
      OccurrenceSumNothing(n);
    }
  }

  /** An array of counters that agrees with Occurrences sums to OccurrenceSum. */
  lemma {:induction false} SumOfIndegrees(t: seq<int>, s: seq<seq<int>>, k: nat)
    requires k <= |t|
    requires forall w :: 0 <= w < |t| ==> t[w] == Occurrences(s, w)
    ensures Sum(t[..k]) == OccurrenceSum(s, k)
  {
    if k > 0 {
      SumOfIndegrees(t, s, k - 1);
      assert t[..k][..k - 1] == t[..k - 1];
    }
  }

  /** Counters that agree with the indegrees add up to the number of edges. */
  lemma IndegreesSumToEdgeCount(s: seq<seq<int>>, t: seq<int>)
    requires WellFormed(s) && |t| == |s|
    requires forall w :: 0 <= w < |t| ==> t[w] == Occurrences(s, w)
    ensures Sum(t) == SumLen(s)
  {
    SumOfIndegrees(t, s, |t|);
    assert t[..|t|] == t;
    IndegreeSumIsEdgeCount(s, |s|);
  }

  /** Appending one edge v->w: one more edge, one more occurrence of `w`. */
  lemma {:induction false} AppendEdgeCounts(s: seq<seq<int>>, v: int, w: int)
    requires 0 <= v < |s|
    ensures SumLen(s[v := s[v] + [w]]) == SumLen(s) + 1
    ensures forall u :: Occurrences(s[v := s[v] + [w]], u) == Occurrences(s, u) + (if u == w then 1 else 0)
  {
    var t := s[v := s[v] + [w]];
    var n := |s|;
    if v == n - 1 {
      assert t[..n - 1] == s[..n - 1];
      assert multiset(s[v] + [w]) == multiset(s[v]) + multiset{w};
    } else {
      AppendEdgeCounts(s[..n - 1], v, w);
      assert t[..n - 1] == s[..n - 1][v := s[v] + [w]];
    }
  }

  lemma AppendEdgeWellFormed(s: seq<seq<int>>, v: int, w: int)
    requires WellFormed(s) && 0 <= v < |s| && 0 <= w < |s|
    ensures WellFormed(s[v := s[v] + [w]])
  {
    var t := s[v := s[v] + [w]];
    forall u, i | 0 <= u < |t| && 0 <= i < |t[u]| ensures 0 <= t[u][i] < |t| {
      if u == v && i == |s[v]| { } else { assert t[u][i] == s[u][i]; }
    }
  }

  /** Every endpoint of every edge of `edges` is a vertex below `n`. */
  predicate EdgesBelow(edges: seq<(int, int)>, n: int) {
    forall i :: 0 <= i < |edges| ==> 0 <= edges[i].0 < n && 0 <= edges[i].1 < n
  }

  /** Index of the first edge with an endpoint outside 0..n-1. */
  function FirstOutOfRange(edges: seq<(int, int)>, n: int): (k: nat)
    requires !EdgesBelow(edges, n)
    ensures k < |edges| && !(0 <= edges[k].0 < n && 0 <= edges[k].1 < n)
    ensures EdgesBelow(edges[..k], n)
  {
    var m := |edges| - 1;
    if EdgesBelow(edges[..m], n) then m
    else
      var k := FirstOutOfRange(edges[..m], n);
      assert edges[..m][..k] == edges[..k];
      k
  }

  /** The first out-of-range edge is the one every earlier edge passes. */
  lemma FirstOutOfRangeAt(edges: seq<(int, int)>, n: int, k: nat)
    requires k < |edges| && !(0 <= edges[k].0 < n && 0 <= edges[k].1 < n)
    requires EdgesBelow(edges[..k], n)
    ensures !EdgesBelow(edges, n) && FirstOutOfRange(edges, n) == k
  {
    var f := FirstOutOfRange(edges, n);
  }

  /** The lists after adding `edges`, in order, with addEdge. */
  function AddAll(s: seq<seq<int>>, edges: seq<(int, int)>): (r: seq<seq<int>>)
    requires WellFormed(s) && EdgesBelow(edges, |s|)
    ensures |r| == |s| && WellFormed(r)
    ensures SumLen(r) == SumLen(s) + |edges|
  {
    if edges == [] then s
    else
      var p := AddAll(s, edges[..|edges| - 1]);
      var (v, w) := edges[|edges| - 1];
      AppendEdgeCounts(p, v, w);
      AppendEdgeWellFormed(p, v, w);
      p[v := p[v] + [w]]
  }

  /** Adding one more edge appends its target to its source's list. */
  lemma AddAllSnoc(s: seq<seq<int>>, edges: seq<(int, int)>, v: int, w: int)
    requires WellFormed(s) && EdgesBelow(edges, |s|) && 0 <= v < |s| && 0 <= w < |s|
    ensures EdgesBelow(edges + [(v, w)], |s|)
    ensures AddAll(s, edges + [(v, w)]) == AddAll(s, edges)[v := AddAll(s, edges)[v] + [w]]
  {
    assert (edges + [(v, w)])[..|edges|] == edges;
  }

  /** The edges w->v for every w in `ws`, in that order. */
  function Flipped(v: int, ws: seq<int>): (r: seq<(int, int)>)
    ensures |r| == |ws| && forall i :: 0 <= i < |ws| ==> r[i] == (ws[i], v)
  {
    seq(|ws|, i requires 0 <= i < |ws| => (ws[i], v))
  }

  lemma FlippedSnoc(v: int, ws: seq<int>, j: nat)
    requires j < |ws|
    ensures Flipped(v, ws[..j + 1]) == Flipped(v, ws[..j]) + [(ws[j], v)]
  {
  }

  /** The reverse graph built vertex by vertex, as reverse() does: after
      vertices below `k`, every edge v->w with v < k is present as w->v. */
  function ReversePrefix(s: seq<seq<int>>, k: nat): (r: seq<seq<int>>)
    requires WellFormed(s) && k <= |s|
    ensures |r| == |s| && WellFormed(r)
    ensures SumLen(r) == SumLen(s[..k])
  {
    if k == 0 then EmptyHasNoEdges(|s|); Empty(|s|)
    else
      var p := ReversePrefix(s, k - 1);
      assert s[..k][..k - 1] == s[..k - 1];
      assert EdgesBelow(Flipped(k - 1, s[k - 1]), |p|);
      AddAll(p, Flipped(k - 1, s[k - 1]))
  }

  function Reversed(s: seq<seq<int>>): (r: seq<seq<int>>)
    requires WellFormed(s)
    ensures |r| == |s| && WellFormed(r)
    ensures SumLen(r) == SumLen(s)
  {
    assert s[..|s|] == s;
    ReversePrefix(s, |s|)
  }

  lemma {:induction false} AddAllFlippedCount(p: seq<seq<int>>, u: int, ws: seq<int>, w: int, v: int)
    requires WellFormed(p) && EdgesBelow(Flipped(u, ws), |p|) && 0 <= w < |p|
    ensures multiset(AddAll(p, Flipped(u, ws))[w])[v]
         == multiset(p[w])[v] + (if v == u then multiset(ws)[w] else 0)
  {
    if ws != [] {
      var n := |ws|;
      var ws' := ws[..n - 1];
      assert Flipped(u, ws)[..n - 1] == Flipped(u, ws');
      assert EdgesBelow(Flipped(u, ws'), |p|);
      AddAllFlippedCount(p, u, ws', w, v);
      assert ws' + [ws[n - 1]] == ws;
      assert multiset(ws) == multiset(ws') + multiset{ws[n - 1]};
      var q := AddAll(p, Flipped(u, ws'));
      if ws[n - 1] == w {
        assert multiset(q[w] + [u]) == multiset(q[w]) + multiset{u};
      }
    }
  }

  lemma {:induction false} ReversePrefixCount(s: seq<seq<int>>, k: nat, w: int, v: int)
    requires WellFormed(s) && k <= |s| && 0 <= w < |s|
    ensures multiset(ReversePrefix(s, k)[w])[v] == (if 0 <= v < k then multiset(s[v])[w] else 0)
  {
    if k > 0 {
      ReversePrefixCount(s, k - 1, w, v);
      var p := ReversePrefix(s, k - 1);
      var f := Flipped(k - 1, s[k - 1]);
      assert EdgesBelow(f, |p|);
      assert ReversePrefix(s, k) == AddAll(p, f);
      AddAllFlippedCount(p, k - 1, s[k - 1], w, v);
    }
  }

  /** reverse(): the edge w->v occurs exactly as often as v->w did. */
  lemma ReverseCount(s: seq<seq<int>>, v: int, w: int)
    requires WellFormed(s) && 0 <= v < |s| && 0 <= w < |s|
    ensures multiset(Reversed(s)[w])[v] == multiset(s[v])[w]
  {
    ReversePrefixCount(s, |s|, w, v);
  }

  /** reverse(reverse(G)) has the same edge multiset as G. */
  lemma ReverseTwice(s: seq<seq<int>>, v: int, w: int)
    requires WellFormed(s) && 0 <= v < |s| && 0 <= w < |s|
    ensures multiset(Reversed(Reversed(s))[v])[w] == multiset(s[v])[w]
  {
    ReverseCount(Reversed(s), w, v);
    ReverseCount(s, v, w);
  }

  lemma {:induction false} OccurrencesAsCount(r: seq<seq<int>>, l: seq<int>, v: int, k: nat)
    requires k <= |r|
    requires forall u :: 0 <= u < k ==> multiset(r[u])[v] == multiset(l)[u]
    ensures Occurrences(r[..k], v) == CountTo(l, k)
  {
    if k > 0 {
      OccurrencesAsCount(r, l, v, k - 1);
      assert r[..k][..k - 1] == r[..k - 1];
    }
  }

  /** In the reverse graph, indegree(v) is the original outdegree(v). */
  lemma ReverseIndegree(s: seq<seq<int>>, v: int)
    requires WellFormed(s) && 0 <= v < |s|
    ensures Occurrences(Reversed(s), v) == |s[v]|
  {
    var r := Reversed(s);
    forall u | 0 <= u < |r| ensures multiset(r[u])[v] == multiset(s[v])[u] {
      ReverseCount(s, v, u);
    }
    OccurrencesAsCount(r, s[v], v, |r|);
    assert r[..|r|] == r;
    CountToAll(s[v], |s|);
  }

  /** Both facts about Reversed at once, for every pair of vertices. */
  lemma ReverseFacts(s: seq<seq<int>>)
    requires WellFormed(s)
    ensures forall v, w :: 0 <= v < |s| && 0 <= w < |s| ==> multiset(Reversed(s)[w])[v] == multiset(s[v])[w]
    ensures forall v :: 0 <= v < |s| ==> Occurrences(Reversed(s), v) == |s[v]|
  {
    forall v, w | 0 <= v < |s| && 0 <= w < |s|
      ensures multiset(Reversed(s)[w])[v] == multiset(s[v])[w]
    {
      ReverseCount(s, v, w);
    }
    forall v | 0 <= v < |s| ensures Occurrences(Reversed(s), v) == |s[v]| {
      ReverseIndegree(s, v);
    }
  }

  /** Vertices below `k` whose adjacency list is empty, in increasing order. */
  function Roots(s: seq<seq<int>>, k: nat): (r: seq<int>)
    requires k <= |s|
    ensures forall x :: x in r <==> 0 <= x < k && s[x] == []
    ensures forall i, j :: 0 <= i < j < |r| ==> r[i] < r[j]
  {
    if k == 0 then []
    else
      var r := Roots(s, k - 1);
      if s[k - 1] == [] then
        assert forall i :: 0 <= i < |r| ==> r[i] in r && r[i] < k - 1;
        r + [k - 1]
      else r
  }
}
