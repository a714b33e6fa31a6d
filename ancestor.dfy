/** ShortestCommonAncestor: a deep copy of a digraph that must be a rooted
    DAG, queried through the `getDist` counter of `Bfs.Dist`. */
module Ancestors {
  import opened Base
  import opened Adjacency
  import opened Paths
  import opened Bfs
  import opened Digraphs
  import opened Cycles

  /** What the constructor accepts: exactly one vertex with an empty
      adjacency list, and no directed cycle. */
  ghost predicate RootedDag(s: seq<seq<int>>)
    requires WellFormed(s)
  {
    |Roots(s, |s|)| == 1 && !HasCycle(s)
  }

  /** `i` is a candidate of ancestor(v, w), read from the getDist table `D`:
      both counters are positive and their sum is below Integer.MAX_VALUE,
      the initial running minimum. */
  predicate Qualifies(D: seq<seq<int>>, v: int, w: int, i: int)
    requires Square(D) && 0 <= v < |D| && 0 <= w < |D|
  {
    0 <= i < |D| && D[v][i] > 0 && D[w][i] > 0 && D[v][i] + D[w][i] < IntMax
  }

  /** `c` is what ancestor(v, w) must return: -1 when no vertex qualifies,
      otherwise a qualifying vertex with the least sum, the lowest such. */
  predicate IsAncestor(D: seq<seq<int>>, v: int, w: int, c: int)
    requires Square(D) && 0 <= v < |D| && 0 <= w < |D|
  {
    if c == -1 then forall i :: 0 <= i < |D| ==> !Qualifies(D, v, w, i)
    else
      && Qualifies(D, v, w, c)
      && forall i :: 0 <= i < |D| && Qualifies(D, v, w, i) ==>
           D[v][c] + D[w][c] < D[v][i] + D[w][i] || (D[v][c] + D[w][c] == D[v][i] + D[w][i] && c <= i)
  }

  /** The running minimum `d` of ancestor(v, w) and the vertex `ca` that
      set it. */
  datatype Best = Best(d: int, ca: int)

  /** The state of ancestor(v, w) after its first `k` vertices. */
  function ScanBest(D: seq<seq<int>>, v: int, w: int, k: nat): (r: Best)
    requires Square(D) && 0 <= v < |D| && 0 <= w < |D| && k <= |D|
    ensures r.d <= IntMax
  {
    if k == 0 then Best(IntMax, 0)
    else
      var b := ScanBest(D, v, w, k - 1);
      var d1, d2 := D[v][k - 1], D[w][k - 1];
      if d1 > 0 && d2 > 0 then
        var test := d2 + d1;
        Best(if b.d <= test then b.d else test, if test < b.d then k - 1 else b.ca)
      else b
  }

  /** What ancestor(v, w) returns. */
  function AncestorOf(D: seq<seq<int>>, v: int, w: int): int
    requires Square(D) && 0 <= v < |D| && 0 <= w < |D|
  {
    var b := ScanBest(D, v, w, |D|);
    if b.d == IntMax then -1 else b.ca
  }

  /** The scan keeps the least qualifying sum seen so far and the first
      vertex that reached it. */
  lemma {:induction false} ScanBestMinimal(D: seq<seq<int>>, v: int, w: int, k: nat)
    requires Square(D) && 0 <= v < |D| && 0 <= w < |D| && k <= |D|
    ensures var b := ScanBest(D, v, w, k);
      && (b.d == IntMax ==> forall i :: 0 <= i < k ==> !Qualifies(D, v, w, i))
      && (b.d < IntMax ==> 0 <= b.ca < k && Qualifies(D, v, w, b.ca) && D[v][b.ca] + D[w][b.ca] == b.d)
      && (b.d < IntMax ==> forall i :: 0 <= i < k && Qualifies(D, v, w, i) ==>
            b.d < D[v][i] + D[w][i] || (b.d == D[v][i] + D[w][i] && b.ca <= i))
  {
    if k > 0 {
      ScanBestMinimal(D, v, w, k - 1);
    }
  }

  /** ancestor(v, w) is the argmin the scan promises. */
  lemma AncestorOfIsAncestor(D: seq<seq<int>>, v: int, w: int)
    requires Square(D) && 0 <= v < |D| && 0 <= w < |D|
    ensures IsAncestor(D, v, w, AncestorOf(D, v, w))
  {
    ScanBestMinimal(D, v, w, |D|);
  }

  /** At most one vertex answers ancestor(v, w). */
  lemma AncestorUnique(D: seq<seq<int>>, v: int, w: int, c1: int, c2: int)
    requires Square(D) && 0 <= v < |D| && 0 <= w < |D|
    requires IsAncestor(D, v, w, c1) && IsAncestor(D, v, w, c2)
    ensures c1 == c2
  {
    if c1 != -1 && c2 != -1 {
      assert Qualifies(D, v, w, c1) && Qualifies(D, v, w, c2);
    }
  }

  /** An ancestor found in the getDist table of a graph is reachable from
      both v and w. */
  lemma AncestorIsCommon(s: seq<seq<int>>, v: int, w: int, c: int)
    requires WellFormed(s) && 0 <= v < |s| && 0 <= w < |s|
    requires IsAncestor(DistTable(s), v, w, c) && c != -1
    ensures Reaches(s, v, c) && Reaches(s, w, c)
  {
    DistUnreachable(s, v, c);
    DistUnreachable(s, w, c);
  }

  /** A vertex reached with a non-negative counter lies in the graph. */
  lemma DistFoundInRange(s: seq<seq<int>>, a: int, b: int)
    requires WellFormed(s) && 0 <= a < |s| && Dist(s, a, b) >= 0
    ensures 0 <= b < |s|
  {
    DistUnreachable(s, a, b);
    ReachesInRange(s, a, b);
  }

  /** Every `a` of A is a vertex, as getDist(a, b) demands, whenever the
      subset loops reach it (B is not empty). */
  predicate SourcesIn(A: seq<int>, B: seq<int>, n: int) {
    B != [] ==> forall k :: 0 <= k < |A| ==> 0 <= A[k] < n
  }

  /** The same for the first `i` elements of A, the rows already scanned. */
  predicate SourcesBefore(A: seq<int>, B: seq<int>, n: int, i: int) {
    B != [] ==> forall k :: 0 <= k < i && k < |A| ==> 0 <= A[k] < n
  }

  /** A[k] is the first element of A outside a graph of n vertices: the one
      whose getDist fails in the subset loops. */
  predicate FirstOutside(A: seq<int>, n: int, k: int) {
    0 <= k < |A| && !(0 <= A[k] < n) && forall k2 :: 0 <= k2 < k ==> 0 <= A[k2] < n
  }

  /** The scan stops at row i when A[i] is the first element outside the
      graph, and that makes the whole of A fail the check. */
  lemma FirstOutsideAt(A: seq<int>, B: seq<int>, n: int, i: int)
    requires 0 <= i < |A| && B != [] && !(0 <= A[i] < n) && SourcesBefore(A, B, n, i)
    ensures FirstOutside(A, n, i) && !SourcesIn(A, B, n)
  {
  }

  /** Pair (i2, j2) of the nested subset loops comes before pair (i, j). */
  predicate Before(i2: int, j2: int, i: int, j: int) {
    i2 < i || (i2 == i && j2 < j)
  }

  /** Pair (i, j) of A x B is the first, in loop order, to reach the
      largest `getDist(A[i], B[j])` of all pairs. */
  ghost predicate FirstMax(s: seq<seq<int>>, A: seq<int>, B: seq<int>, i: int, j: int)
    requires WellFormed(s) && SourcesIn(A, B, |s|)
  {
    && 0 <= i < |A| && 0 <= j < |B|
    && (forall i2, j2 :: 0 <= i2 < |A| && 0 <= j2 < |B| ==> Dist(s, A[i2], B[j2]) <= Dist(s, A[i], B[j]))
    && (forall i2, j2 :: 0 <= i2 < |A| && 0 <= j2 < |B| && Before(i2, j2, i, j) ==>
          Dist(s, A[i2], B[j2]) < Dist(s, A[i], B[j]))
  }

  class ShortestCommonAncestor {
    /** The private deep copy of the caller's digraph. */
    const graph: Digraph

    ghost predicate Shape()
      reads this, graph, graph.adj, graph.indegree
    {
      graph.Valid()
    }

    /** Every object the factory hands out checks a rooted DAG. */
    ghost predicate Valid()
      reads this, graph, graph.adj, graph.indegree
    {
      graph.Valid() && RootedDag(graph.adj[..])
    }

    /** `this.graph = new Digraph(G)`. */
    constructor (G: Digraph)
      requires G.Valid()
      ensures Shape() && fresh(graph) && fresh(graph.adj) && fresh(graph.indegree)
      ensures graph.V == G.V && graph.E == G.E && graph.adj[..] == G.adj[..]
    {
      graph := new Digraph.Copy(G);
    }

    /** isDAG(): the roots are collected in an array list, then checked
        against the cycle finder. */
    method IsDag() returns (b: bool)
      requires Shape()
      ensures b <==> RootedDag(graph.adj[..])
    {
      var d := new DirectedCycle(graph);
      var roots: seq<int> := [];
      for i := 0 to graph.V
        invariant roots == Roots(graph.adj[..], i)
      {
        if graph.adj[i] == [] {
          roots := roots + [i];
        }
      }
      var hasCycle := d.HasCycle();
      b := !(|roots| == 0 || |roots| > 1 || hasCycle);
    }

    /** length(v, w) is the getDist counter, which fails for a `v` outside
        the graph; it is not -1 only when w is reachable from v. */
    method Length(v: int, w: int) returns (r: Result<int>)
      requires Shape()
      ensures r.Err? <==> !(0 <= v < graph.V)
      ensures r.Err? ==> r.error == IndexOutOfBounds(v)
      ensures r.Ok? ==> r.value == Dist(graph.adj[..], v, w)
      ensures r.Ok? && r.value != -1 ==> Reaches(graph.adj[..], v, w)
    {
      r := graph.GetDist(v, w);
      if r.Ok? {
        DistUnreachable(graph.adj[..], v, w);
      }
    }

    /** ancestor(v, w): the argmin scan over every vertex with a strict
        improvement test, then -1 when the minimum stayed at
        Integer.MAX_VALUE. */
    method Ancestor(v: int, w: int) returns (r: Result<int>)
      requires Shape()
      ensures graph.V == 0 ==> r == Ok(-1)
      ensures graph.V > 0 && !(0 <= v < graph.V) ==> r == Err(IndexOutOfBounds(v))
      ensures graph.V > 0 && 0 <= v < graph.V && !(0 <= w < graph.V) ==> r == Err(IndexOutOfBounds(w))
      ensures 0 <= v < graph.V && 0 <= w < graph.V ==>
                r == Ok(AncestorOf(DistTable(graph.adj[..]), v, w)) &&
                IsAncestor(DistTable(graph.adj[..]), v, w, r.value)
    {
      // with no vertex the loop does not run and d stays Integer.MAX_VALUE
      if graph.V == 0 {
        return Ok(-1);
      }
      // otherwise getDist(v, 0), then getDist(w, 0), fail first
      if !(0 <= v < graph.V) {
        return Err(IndexOutOfBounds(v));
      }
      if !(0 <= w < graph.V) {
        return Err(IndexOutOfBounds(w));
      }
      ghost var D := DistTable(graph.adj[..]);
      var d := IntMax;
      var ca := 0;
      for i := 0 to graph.V
        invariant Best(d, ca) == ScanBest(D, v, w, i)
      {
        var r1 := graph.GetDist(v, i);
        var r2 := graph.GetDist(w, i);
        var d1, d2 := r1.value, r2.value;
        if d1 > 0 && d2 > 0 {
          var test := d2 + d1;
          if test < d {
            ca := i;
          }
          d := if d <= test then d else test;
        }
      }
      if d == IntMax {
        ca := -1;
      }
      AncestorOfIsAncestor(D, v, w);
      r := Ok(ca);
    }

    /** lengthSubset(A, B): a running maximum, from 0, of length(a, b) over
        every pair. */
    method LengthSubset(A: seq<int>, B: seq<int>) returns (r: Result<int>)
      requires Shape()
      ensures r.Err? <==> !SourcesIn(A, B, graph.V)
      ensures r.Err? ==> exists k :: FirstOutside(A, graph.V, k) && r.error == IndexOutOfBounds(A[k])
      ensures r.Ok? ==> r.value >= 0
      ensures r.Ok? ==> forall i, j :: 0 <= i < |A| && 0 <= j < |B| ==> Dist(graph.adj[..], A[i], B[j]) <= r.value
      ensures r.Ok? ==> (r.value == 0 ||
                exists i, j :: 0 <= i < |A| && 0 <= j < |B| && r.value == Dist(graph.adj[..], A[i], B[j]))
    {
      ghost var L := LengthTable(graph.adj[..], A, B);
      ghost var bi, bj := 0, 0;
      var cp := 0;
      for i := 0 to |A|
        invariant cp >= 0 && SourcesBefore(A, B, graph.V, i)
        invariant forall i2, j2 :: 0 <= i2 < i && 0 <= j2 < |B| ==> L[i2][j2] <= cp
        invariant cp > 0 ==> 0 <= bi < i && 0 <= bj < |B| && cp == L[bi][bj]
      {
        for j := 0 to |B|
          invariant cp >= 0 && (j > 0 ==> 0 <= A[i] < graph.V)
          invariant forall i2, j2 :: 0 <= i2 < i && 0 <= j2 < |B| ==> L[i2][j2] <= cp
          invariant forall j2 :: 0 <= j2 < j ==> L[i][j2] <= cp
          invariant cp > 0 ==> 0 <= bi <= i && 0 <= bj < |B| && cp == L[bi][bj] && (bi == i ==> j > 0)
        {
          var sp := Length(A[i], B[j]);
          if sp.Err? {
            FirstOutsideAt(A, B, graph.V, i);
            return Err(sp.error);
          }
          if sp.value > cp {
            bi, bj := i, j;
          }
          cp := if cp >= sp.value then cp else sp.value;
        }
      }
      MaxAnswer(graph.adj[..], A, B, L, cp, bi, bj);
      r := Ok(cp);
    }

    /** ancestorSubset(A, B): ancestor(a, b) of the pair that last raised the
        running maximum of length(a, b), or 0 when none raised it above 0. */
    method AncestorSubset(A: seq<int>, B: seq<int>) returns (r: Result<int>)
      requires Shape()
      ensures r.Err? <==> !SourcesIn(A, B, graph.V)
      ensures r.Err? ==> exists k :: FirstOutside(A, graph.V, k) && r.error == IndexOutOfBounds(A[k])
      ensures r.Ok? && (forall i, j :: 0 <= i < |A| && 0 <= j < |B| ==> Dist(graph.adj[..], A[i], B[j]) <= 0) ==>
                r.value == 0
      ensures r.Ok? && (exists i, j :: 0 <= i < |A| && 0 <= j < |B| && Dist(graph.adj[..], A[i], B[j]) > 0) ==>
                exists i, j :: FirstMax(graph.adj[..], A, B, i, j) && 0 <= B[j] < graph.V &&
                  IsAncestor(DistTable(graph.adj[..]), A[i], B[j], r.value)
    {
      ghost var s := graph.adj[..];
      ghost var D := DistTable(s);
      ghost var L := LengthTable(s, A, B);
      ghost var bi, bj := 0, 0;
      var cp := 0;
      var cv := 0;
      for i := 0 to |A|
        invariant Scanned(D, A, B, L, i, 0, cp, cv, bi, bj)
      {
        // length(A[i], B[0]), the first call of the row, fails for an A[i]
        // outside the graph
        if B != [] && !(0 <= A[i] < graph.V) {
          FirstOutsideAt(A, B, graph.V, i);
          return Err(IndexOutOfBounds(A[i]));
        }
        cp, cv, bi, bj := AncestorRow(A, B, D, L, i, cp, cv, bi, bj);
      }
      ScannedAnswer(s, D, A, B, L, cp, cv, bi, bj);
      r := Ok(cv);
    }

    /** The inner loop of ancestorSubset, over B for the `i`th element of A. */
    method AncestorRow(A: seq<int>, B: seq<int>, ghost D: seq<seq<int>>, ghost L: seq<seq<int>>, i: int,
                       cp0: int, cv0: int, ghost bi0: int, ghost bj0: int)
      returns (cp: int, cv: int, ghost bi: int, ghost bj: int)
      requires Shape() && 0 <= i < |A| && (B != [] ==> 0 <= A[i] < graph.V)
      requires IsDistTable(graph.adj[..], D) && IsTable(graph.adj[..], A, B, L)
      requires Scanned(D, A, B, L, i, 0, cp0, cv0, bi0, bj0)
      ensures Scanned(D, A, B, L, i + 1, 0, cp, cv, bi, bj)
    {
      ghost var s := graph.adj[..];
      cp, cv, bi, bj := cp0, cv0, bi0, bj0;
      for j := 0 to |B|
        invariant Scanned(D, A, B, L, i, j, cp, cv, bi, bj)
      {
        var length := Length(A[i], B[j]);
        var sp := length.value;
        ghost var cp1, cv1, bi1, bj1 := cp, cv, bi, bj;
        if sp > cp {
          DistFoundInRange(s, A[i], B[j]);
          var found := Ancestor(A[i], B[j]);
          cv := found.value;
          DistTableUnique(s, D);
          bi, bj := i, j;
        }
        ScannedStep(D, A, B, L, i, j, cp1, cv1, bi1, bj1, cv);
        cp := if cp >= sp then cp else sp;
      }
      ScannedRow(D, A, B, L, i, cp, cv, bi, bj);
    }
  }

  /** `L` has a row of |B| entries for each element of A. */
  predicate Dims(A: seq<int>, B: seq<int>, L: seq<seq<int>>) {
    |L| == |A| && forall i :: 0 <= i < |A| ==> |L[i]| == |B|
  }

  /** `L[i][j]` is length(A[i], B[j]) for every pair whose A[i] is a vertex
      (the other rows are never scanned). */
  ghost predicate IsTable(s: seq<seq<int>>, A: seq<int>, B: seq<int>, L: seq<seq<int>>)
    requires WellFormed(s)
  {
    && Dims(A, B, L)
    && (forall i, j :: 0 <= i < |A| && 0 <= j < |B| && 0 <= A[i] < |s| ==> L[i][j] == Dist(s, A[i], B[j]))
  }

  ghost function LengthTable(s: seq<seq<int>>, A: seq<int>, B: seq<int>): (L: seq<seq<int>>)
    requires WellFormed(s)
    ensures IsTable(s, A, B, L)
  {
    var L0 := seq(|A|, i requires 0 <= i < |A| =>
      seq(|B|, j requires 0 <= j < |B| => if 0 <= A[i] < |s| then Dist(s, A[i], B[j]) else -1));
    assert IsTable(s, A, B, L0);
    var L :| IsTable(s, A, B, L);
    L
  }

  /** Only one table holds getDist for every pair. */
  lemma DistTableUnique(s: seq<seq<int>>, D: seq<seq<int>>)
    requires WellFormed(s) && IsDistTable(s, D)
    ensures D == DistTable(s)
  {
    var T := DistTable(s);
    forall a | 0 <= a < |s| ensures D[a] == T[a] {
      assert |D[a]| == |T[a]|;
    }
  }

  /** The running state of ancestorSubset before pair (i, j): `cp` bounds
      every earlier length; when positive, pair (bi, bj) reached it first
      and `cv` is its ancestor, and when 0, `cv` is still 0. */
  ghost predicate Scanned(D: seq<seq<int>>, A: seq<int>, B: seq<int>, L: seq<seq<int>>, i: int, j: int,
                          cp: int, cv: int, bi: int, bj: int)
  {
    && Square(D) && Dims(A, B, L)
    && 0 <= i <= |A| && 0 <= j <= |B| && (j > 0 ==> i < |A|)
    && SourcesBefore(A, B, |D|, i)
    && cp >= 0 && (cp == 0 ==> cv == 0)
    && (forall i2, j2 :: 0 <= i2 < i && 0 <= j2 < |B| ==> L[i2][j2] <= cp)
    && (forall j2 :: 0 <= j2 < j ==> L[i][j2] <= cp)
    && (cp > 0 ==> Chosen(D, A, B, L, bi, bj, cp, cv))
  }

  /** Pair (i, j) updates the state of ancestorSubset: a length above the
      running maximum takes its place, with the pair's ancestor `cv2`. */
  lemma ScannedStep(D: seq<seq<int>>, A: seq<int>, B: seq<int>, L: seq<seq<int>>, i: int, j: int,
                    cp: int, cv: int, bi: int, bj: int, cv2: int)
    requires Scanned(D, A, B, L, i, j, cp, cv, bi, bj) && i < |A| && j < |B| && 0 <= A[i] < |D|
    requires L[i][j] > cp ==> 0 <= B[j] < |D| && cv2 == AncestorOf(D, A[i], B[j])
    ensures L[i][j] > cp ==> Scanned(D, A, B, L, i, j + 1, L[i][j], cv2, i, j)
    ensures L[i][j] <= cp ==> Scanned(D, A, B, L, i, j + 1, cp, cv, bi, bj)
  {
  }

  /** A finished row moves the state of ancestorSubset to the next one. */
  lemma ScannedRow(D: seq<seq<int>>, A: seq<int>, B: seq<int>, L: seq<seq<int>>, i: int,
                   cp: int, cv: int, bi: int, bj: int)
    requires Scanned(D, A, B, L, i, |B|, cp, cv, bi, bj) && i < |A| && (B != [] ==> 0 <= A[i] < |D|)
    ensures Scanned(D, A, B, L, i + 1, 0, cp, cv, bi, bj)
  {
  }

  /** Pair (bi, bj) reached the maximum `cp` first and `cv` is its ancestor. */
  ghost predicate Chosen(D: seq<seq<int>>, A: seq<int>, B: seq<int>, L: seq<seq<int>>, bi: int, bj: int, cp: int, cv: int)
    requires Square(D) && Dims(A, B, L)
  {
    && 0 <= bi < |A| && 0 <= bj < |B| && 0 <= A[bi] < |D| && 0 <= B[bj] < |D|
    && cp == L[bi][bj]
    && (forall i2, j2 :: 0 <= i2 < |A| && 0 <= j2 < |B| && Before(i2, j2, bi, bj) ==> L[i2][j2] < cp)
    && cv == AncestorOf(D, A[bi], B[bj])
  }

  /** Once every row is scanned, the running maximum of lengthSubset is
      the largest length of all pairs, and 0 when none is positive. */
  lemma MaxAnswer(s: seq<seq<int>>, A: seq<int>, B: seq<int>, L: seq<seq<int>>, cp: int, bi: int, bj: int)
    requires WellFormed(s) && IsTable(s, A, B, L) && SourcesBefore(A, B, |s|, |A|)
    requires forall i, j :: 0 <= i < |A| && 0 <= j < |B| ==> L[i][j] <= cp
    requires cp > 0 ==> 0 <= bi < |A| && 0 <= bj < |B| && cp == L[bi][bj]
    ensures SourcesIn(A, B, |s|)
    ensures forall i, j :: 0 <= i < |A| && 0 <= j < |B| ==> Dist(s, A[i], B[j]) <= cp
    ensures cp > 0 ==> exists i, j :: 0 <= i < |A| && 0 <= j < |B| && cp == Dist(s, A[i], B[j])
  {
    if cp > 0 {
      assert cp == Dist(s, A[bi], B[bj]);
    }
  }

  /** Once every row is scanned, the state of ancestorSubset answers it:
      0 when no pair has a positive length, otherwise an ancestor of the
      first pair reaching the largest length. */
  lemma ScannedAnswer(s: seq<seq<int>>, D: seq<seq<int>>, A: seq<int>, B: seq<int>, L: seq<seq<int>>,
                      cp: int, cv: int, bi: int, bj: int)
    requires WellFormed(s) && IsDistTable(s, D) && IsTable(s, A, B, L)
    requires Scanned(D, A, B, L, |A|, 0, cp, cv, bi, bj)
    ensures SourcesIn(A, B, |s|)
    ensures (forall i, j :: 0 <= i < |A| && 0 <= j < |B| ==> Dist(s, A[i], B[j]) <= 0) ==> cv == 0
    ensures (exists i, j :: 0 <= i < |A| && 0 <= j < |B| && Dist(s, A[i], B[j]) > 0) ==>
              exists i, j :: FirstMax(s, A, B, i, j) && 0 <= B[j] < |s| && IsAncestor(DistTable(s), A[i], B[j], cv)
  {
    if cp > 0 {
      assert FirstMax(s, A, B, bi, bj);
      DistTableUnique(s, D);
      AncestorOfIsAncestor(D, A[bi], B[bj]);
    }
  }

  /** new ShortestCommonAncestor(G): the copy is made first, then rejected
      unless it is a rooted DAG; the verdict is the same for G itself. */
  method NewShortestCommonAncestor(G: Digraph) returns (r: Result<ShortestCommonAncestor>)
    requires G.Valid()
    ensures r.Err? <==> !RootedDag(G.adj[..])
    ensures r.Err? ==> r.error == NotRootedDag
    ensures r.Ok? ==> r.value.Valid() && fresh(r.value.graph) && fresh(r.value.graph.adj) && fresh(r.value.graph.indegree)
    ensures r.Ok? ==> r.value.graph.V == G.V && r.value.graph.E == G.E && r.value.graph.adj[..] == G.adj[..]
  {
    var sca := new ShortestCommonAncestor(G);
    var ok := sca.IsDag();
    if !ok {
      return Err(NotRootedDag);
    }
    return Ok(sca);
  }
}
