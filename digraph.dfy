/** The adjacency-list digraph: a fixed number of vertices `V`, an edge
    counter `E`, one adjacency list per vertex and an indegree counter per
    vertex. `addEdge` is its only mutator. */
module Digraphs {
  import opened Base
  import opened Adjacency
  import opened Bfs

  class Digraph {
    const V: nat
    var E: int
    const adj: array<seq<int>>
    const indegree: array<int>

    /** Every endpoint is a vertex, E counts the edges, and each indegree
        counter counts the occurrences of its vertex over all lists. */
    ghost predicate Valid()
      reads this, adj, indegree
    {
      && adj.Length == V && indegree.Length == V
      && WellFormed(adj[..])
      && E == SumLen(adj[..])
      && forall w :: 0 <= w < V ==> indegree[w] == Occurrences(adj[..], w)
    }

    /** Digraph(V) once V has been checked: V empty lists, zero indegrees. */
    constructor Init(n: nat)
      ensures Valid() && V == n && E == 0
      ensures fresh(adj) && fresh(indegree)
      ensures adj[..] == Empty(n) && indegree[..] == seq(n, _ => 0)
    {
      V := n;
      E := 0;
      indegree := new int[n](_ => 0);
      var lists := new seq<int>[n];
      for v := 0 to n
        modifies lists
        invariant forall u :: 0 <= u < v ==> lists[u] == []
      {
        lists[v] := [];
      }
      adj := lists;
      new;
      assert adj[..] == Empty(n);
      EmptyHasNoEdges(n);
      forall w | 0 <= w < V ensures indegree[w] == Occurrences(adj[..], w) {
        assert indegree[w] == 0;
      }
    }

    /** The deep-copy constructor Digraph(G): same V, E and indegrees, and the
        same adjacency lists in the same order, in arrays of its own. Each list goes through
        a stack: pushed in iteration order, then added in the stack's
        iteration order (bottom to top, as java.util.Stack iterates). */
    constructor Copy(g: Digraph)
      requires g.Valid()
      ensures Valid() && V == g.V && E == g.E
      ensures indegree[..] == g.indegree[..]
      ensures adj[..] == g.adj[..]
      ensures fresh(adj) && fresh(indegree)
    {
      V := g.V;
      E := g.E;
      var counts := new int[g.V];
      for v := 0 to g.V
        invariant forall u :: 0 <= u < v ==> counts[u] == g.indegree[u]
      {
        counts[v] := g.indegree[v];
      }
      var lists := new seq<int>[g.V](_ => []);
      for v := 0 to g.V
        modifies lists
        invariant forall u :: 0 <= u < v ==> lists[u] == g.adj[u]
        invariant forall u :: v <= u < g.V ==> lists[u] == []
      {
        var stack: seq<int> := [];
        for i := 0 to |g.adj[v]|
          invariant stack == g.adj[v][..i]
        {
          stack := stack + [g.adj[v][i]];
        }
        assert stack == g.adj[v];
        for i := 0 to |stack|
          modifies lists
          invariant lists[v] == stack[..i]
          invariant forall u :: 0 <= u < v ==> lists[u] == g.adj[u]
          invariant forall u :: v < u < g.V ==> lists[u] == []
        {
          lists[v] := lists[v] + [stack[i]];
        }
      }
      indegree := counts;
      adj := lists;
      new;
      assert adj[..] == g.adj[..];
      assert indegree[..] == g.indegree[..];
    }

    /** validateVertex: a vertex must lie in [0, V). */
    function ValidateVertex(v: int): (r: Outcome)
      ensures r.Pass? <==> 0 <= v < V
      ensures r.Fail? ==> r.error == VertexOutOfRange(v)
    {
      if v < 0 || v >= V then Fail(VertexOutOfRange(v)) else Pass
    }

    /** addEdge(v, w): appends `w` to v's list, bumps indegree[w] and E;
        an endpoint out of range changes nothing. */
    method AddEdge(v: int, w: int) returns (r: Outcome)
      requires Valid()
      modifies this, adj, indegree
      ensures Valid()
      ensures r.Fail? <==> !(0 <= v < V && 0 <= w < V)
      ensures r.Fail? ==> r.error == VertexOutOfRange(if 0 <= v < V then w else v)
      ensures r.Fail? ==> E == old(E) && adj[..] == old(adj[..]) && indegree[..] == old(indegree[..])
      ensures r.Pass? ==> E == old(E) + 1
      ensures r.Pass? ==> adj[..] == old(adj[..])[v := old(adj[v]) + [w]]
      ensures r.Pass? ==> indegree[..] == old(indegree[..])[w := old(indegree[w]) + 1]
    {
      r := ValidateVertex(v);
      if r.Fail? { return; }
      r := ValidateVertex(w);
      if r.Fail? { return; }
      AppendEdgeCounts(adj[..], v, w);
      AppendEdgeWellFormed(adj[..], v, w);
      adj[v] := adj[v] + [w];
      indegree[w] := indegree[w] + 1;
      E := E + 1;
    }

    /** adj(v): the list of vertices adjacent from v, range-checked. */
    function Adj(v: int): (r: Result<seq<int>>)
      reads this, adj, indegree
      requires Valid()
      ensures r.Ok? <==> 0 <= v < V
      ensures r.Err? ==> r.error == VertexOutOfRange(v)
      ensures r.Ok? ==> r.value == adj[v] && forall i :: 0 <= i < |r.value| ==> 0 <= r.value[i] < V
    {
      if ValidateVertex(v).Fail? then Err(VertexOutOfRange(v)) else Ok(adj[v])
    }

    /** outdegree(v): the number of edges out of v, range-checked. */
    function Outdegree(v: int): (r: Result<nat>)
      reads this, adj, indegree
      requires Valid()
      ensures r.Ok? <==> 0 <= v < V
      ensures r.Err? ==> r.error == VertexOutOfRange(v)
      ensures r.Ok? ==> r.value == |adj[v]|
    {
      if ValidateVertex(v).Fail? then Err(VertexOutOfRange(v)) else Ok(|adj[v]|)
    }

    /** indegree(v): the number of edges into v over all lists, range-checked. */
    function Indegree(v: int): (r: Result<int>)
      reads this, adj, indegree
      requires Valid()
      ensures r.Ok? <==> 0 <= v < V
      ensures r.Err? ==> r.error == VertexOutOfRange(v)
      ensures r.Ok? ==> r.value == Occurrences(adj[..], v)
    {
      if ValidateVertex(v).Fail? then Err(VertexOutOfRange(v)) else Ok(indegree[v])
    }

    /** reverse(): a fresh graph with every edge flipped; the receiver is
        untouched. w->v occurs as often as v->w did, so the new indegree of
        v is the old outdegree of v. */
    method Reverse() returns (r: Digraph)
      requires Valid()
      ensures fresh(r) && fresh(r.adj) && fresh(r.indegree)
      ensures r.Valid() && r.V == V && r.E == E
      ensures r.adj[..] == Reversed(adj[..])
      ensures forall v, w :: 0 <= v < V && 0 <= w < V ==> multiset(r.adj[w])[v] == multiset(adj[v])[w]
      ensures forall v :: 0 <= v < V ==> r.indegree[v] == |adj[v]|
    {
      ghost var s := adj[..];
      r := new Digraph.Init(V);
      for v := 0 to V
        invariant fresh(r) && fresh(r.adj) && fresh(r.indegree)
        invariant r.Valid() && r.V == V
        invariant r.adj[..] == ReversePrefix(s, v)
      {
        assert EdgesBelow(Flipped(v, s[v]), V);
        r.AddFlipped(v, adj[v]);
      }
      assert r.adj[..] == Reversed(s);
      ReverseFacts(s);
    }

    /** The inner loop of reverse(): addEdge(w, v) for each w of `ws`, in
        order. */
    method AddFlipped(v: int, ws: seq<int>)
      requires Valid() && EdgesBelow(Flipped(v, ws), V)
      modifies this, adj, indegree
      ensures Valid() && adj[..] == AddAll(old(adj[..]), Flipped(v, ws))
    {
      ghost var s0 := adj[..];
      for j := 0 to |ws|
        invariant Valid()
        invariant EdgesBelow(Flipped(v, ws[..j]), V)
        invariant adj[..] == AddAll(s0, Flipped(v, ws[..j]))
      {
        assert (ws[j], v) == Flipped(v, ws)[j];
        FlippedSnoc(v, ws, j);
        AddAllSnoc(s0, Flipped(v, ws[..j]), ws[j], v);
        var _ := AddEdge(ws[j], v);
      }
      assert ws[..|ws|] == ws;
    }

    /** getDist(a, b): the breadth-first search with the running counter,
        returning exactly what Bfs.Dist describes; the graph is only read.
        Marking `visited[a]` fails for a source outside the graph. */
    method GetDist(a: int, b: int) returns (r: Result<int>)
      requires Valid()
      ensures !(0 <= a < V) ==> r == Err(IndexOutOfBounds(a))
      ensures 0 <= a < V ==> r == Ok(Dist(adj[..], a, b))
    {
      if !(0 <= a < V) {
        return Err(IndexOutOfBounds(a));
      }
      ghost var s := adj[..];
      var dist := 0;
      var visited := new bool[V](_ => false);
      ghost var seen: set<int> := {a};
      visited[a] := true;
      var queue := [a];
      while queue != []
        invariant InGraph(s, queue, seen)
        invariant forall x :: 0 <= x < V ==> (visited[x] <==> x in seen)
        invariant Search(s, b, queue, seen, dist) == Dist(s, a, b)
        decreases Unvisited(V, seen), |queue|
      {
        ScanStaysInGraph(s, b, queue, seen, dist);
        var x := queue[0];
        var hit, next, nextSeen, counter := ScanNeighbours(x, b, visited, queue[1..], seen, dist);
        if hit {
          return Ok(counter);
        }
        queue, seen, dist := next, nextSeen, counter - (|adj[x]| - 1);
      }
      return Ok(-1);
    }

    /** The inner loop of getDist: scans the list of `x` for `b`, marking,
        enqueuing and counting each vertex not yet visited. */
    method ScanNeighbours(x: int, b: int, visited: array<bool>, queue0: seq<int>, ghost seen0: set<int>, dist0: int)
      returns (hit: bool, queue: seq<int>, ghost seen: set<int>, dist: int)
      requires Valid() && 0 <= x < V && visited.Length == V
      requires forall y :: 0 <= y < V ==> (visited[y] <==> y in seen0)
      modifies visited
      ensures forall y :: 0 <= y < V ==> (visited[y] <==> y in seen)
      ensures ScanList(b, adj[x], queue0, seen0, dist0) == if hit then Hit(dist) else Miss(queue, seen, dist)
    {
      hit, queue, seen, dist := false, queue0, seen0, dist0;
      var j := 0;
      while j < |adj[x]|
        invariant 0 <= j <= |adj[x]|
        invariant forall y :: 0 <= y < V ==> (visited[y] <==> y in seen)
        invariant ScanList(b, adj[x], queue0, seen0, dist0) == ScanList(b, adj[x][j..], queue, seen, dist)
      {
        var n := adj[x][j];
        assert adj[x][j..][1..] == adj[x][j + 1..];
        if n == b {
          return true, queue, seen, dist;
        } else if !visited[n] {
          visited[n] := true;
          seen := seen + {n};
          queue := queue + [n];
          dist := dist + 1;
        }
        j := j + 1;
      }
    }
  }

  /** Digraph(V): fails on a negative V, otherwise an edgeless graph. */
  method NewDigraph(n: int) returns (r: Result<Digraph>)
    ensures r.Err? <==> n < 0
    ensures r.Err? ==> r.error == NegativeVertexCount
    ensures r.Ok? ==> fresh(r.value) && fresh(r.value.adj) && fresh(r.value.indegree)
    ensures r.Ok? ==> r.value.Valid() && r.value.V == n && r.value.E == 0
    ensures r.Ok? ==> forall v :: 0 <= v < n ==> r.value.adj[v] == [] && r.value.indegree[v] == 0
  {
    if n < 0 {
      return Err(NegativeVertexCount);
    }
    var g := new Digraph.Init(n);
    return Ok(g);
  }

  /** The exception addEdge raises at the first out-of-range edge: it names
      the source vertex when that is out of range, else the target. */
  function RangeError(edges: seq<(int, int)>, n: int): (e: Error)
    requires !EdgesBelow(edges, n)
    ensures e.VertexOutOfRange?
    ensures exists k :: 0 <= k < |edges| && e.v in {edges[k].0, edges[k].1} && !(0 <= e.v < n)
  {
    var k := FirstOutOfRange(edges, n);
    var (v, w) := edges[k];
    VertexOutOfRange(if 0 <= v < n then w else v)
  }

  /** The first `k` (v, w) pairs of a token stream: V, E, v1, w1, v2, w2, ... */
  function TokenPairs(tokens: seq<int>, k: nat): (r: seq<(int, int)>)
    requires |tokens| >= 2 + 2 * k
    ensures |r| == k
    ensures forall i :: 0 <= i < k ==> r[i] == (tokens[2 + 2 * i], tokens[3 + 2 * i])
  {
    seq(k, i requires 0 <= i < k => (tokens[2 + 2 * i], tokens[3 + 2 * i]))
  }

  /** One more pair read. */
  lemma TokenPairsSnoc(tokens: seq<int>, k: nat)
    requires |tokens| >= 4 + 2 * k
    ensures TokenPairs(tokens, k + 1) == TokenPairs(tokens, k) + [(tokens[2 + 2 * k], tokens[3 + 2 * k])]
  {
    assert TokenPairs(tokens, k + 1) == TokenPairs(tokens, k) + [(tokens[2 + 2 * k], tokens[3 + 2 * k])];
  }

  /** A token stream the Scanner constructor accepts. */
  predicate WellFormedTokens(tokens: seq<int>) {
    && |tokens| >= 2 && tokens[0] >= 0 && tokens[1] >= 0
    && |tokens| >= 2 + 2 * tokens[1]
    && EdgesBelow(TokenPairs(tokens, tokens[1]), tokens[0])
  }

  /** How many of the `e` pairs the loop asks for are complete in the stream. */
  function CompletePairs(tokens: seq<int>, e: nat): (m: nat)
    requires |tokens| >= 2
    ensures m <= e && |tokens| >= 2 + 2 * m
    ensures m < e ==> |tokens| < 4 + 2 * m
  {
    if |tokens| >= 2 + 2 * e then e else (|tokens| - 2) / 2
  }

  /** The exception that ends the edge loop early: addEdge's exception at
      the first out-of-range pair among the complete ones, and otherwise
      the invalid-format exception for the missing token. */
  function ReadError(tokens: seq<int>, e: nat, n: int): (err: Error)
    requires |tokens| >= 2
    ensures err == InvalidFormat || err.VertexOutOfRange?
  {
    var pairs := TokenPairs(tokens, CompletePairs(tokens, e));
    if EdgesBelow(pairs, n) then InvalidFormat else RangeError(pairs, n)
  }

  /** The edge loop of Digraph(Scanner): reads `e` pairs after position 2
      and adds each one; stops at the first missing token or bad endpoint. */
  method ReadEdges(g: Digraph, tokens: seq<int>, e: nat) returns (r: Outcome)
    requires g.Valid() && g.E == 0 && |tokens| >= 2 && g.adj[..] == Empty(g.V)
    modifies g, g.adj, g.indegree
    ensures g.Valid()
    ensures r.Pass? <==> |tokens| >= 2 + 2 * e && EdgesBelow(TokenPairs(tokens, e), g.V)
    ensures r.Fail? ==> r.error == ReadError(tokens, e, g.V)
    ensures r.Pass? ==> g.E == e && g.adj[..] == AddAll(Empty(g.V), TokenPairs(tokens, e))
  {
    ghost var n := g.V;
    for i := 0 to e
      invariant |tokens| >= 2 + 2 * i
      invariant g.Valid() && g.V == n && g.E == i
      invariant EdgesBelow(TokenPairs(tokens, i), n)
      invariant g.adj[..] == AddAll(Empty(n), TokenPairs(tokens, i))
    {
      if |tokens| < 4 + 2 * i {
        assert CompletePairs(tokens, e) == i;
        return Fail(InvalidFormat);
      }
      r := ReadEdge(g, tokens, i);
      if r.Fail? {
        BadPairError(tokens, e, i, n);
        return;
      }
    }
    return Pass;
  }

  /** When the pairs before `i` are in range and pair `i` is present but
      out of range, the loop's exception is addEdge's for pair `i`. */
  lemma BadPairError(tokens: seq<int>, e: nat, i: nat, n: int)
    requires i < e && |tokens| >= 4 + 2 * i && EdgesBelow(TokenPairs(tokens, i), n)
    requires !(0 <= tokens[2 + 2 * i] < n && 0 <= tokens[3 + 2 * i] < n)
    ensures ReadError(tokens, e, n)
            == VertexOutOfRange(if 0 <= tokens[2 + 2 * i] < n then tokens[3 + 2 * i] else tokens[2 + 2 * i])
  {
    var pairs := TokenPairs(tokens, CompletePairs(tokens, e));
    assert pairs[..i] == TokenPairs(tokens, i);
    FirstOutOfRangeAt(pairs, n, i);
  }

  /** One pass of the edge loop: the i-th pair is read and added. */
  method ReadEdge(g: Digraph, tokens: seq<int>, i: nat) returns (r: Outcome)
    requires g.Valid() && |tokens| >= 4 + 2 * i && g.E == i
    requires EdgesBelow(TokenPairs(tokens, i), g.V) && g.adj[..] == AddAll(Empty(g.V), TokenPairs(tokens, i))
    modifies g, g.adj, g.indegree
    ensures g.Valid()
    ensures r.Pass? <==> 0 <= tokens[2 + 2 * i] < g.V && 0 <= tokens[3 + 2 * i] < g.V
    ensures r.Fail? ==> r.error == VertexOutOfRange(if 0 <= tokens[2 + 2 * i] < g.V then tokens[3 + 2 * i] else tokens[2 + 2 * i])
    ensures r.Pass? ==> g.E == i + 1 && EdgesBelow(TokenPairs(tokens, i + 1), g.V)
    ensures r.Pass? ==> g.adj[..] == AddAll(Empty(g.V), TokenPairs(tokens, i + 1))
  {
    var v, w := tokens[2 + 2 * i], tokens[3 + 2 * i];
    r := g.AddEdge(v, w);
    if r.Pass? {
      TokenPairsSnoc(tokens, i);
      AddAllSnoc(Empty(g.V), TokenPairs(tokens, i), v, w);
    }
  }

  /** Digraph(Scanner) over already-read integer tokens: V, E, then E pairs.
      Java's local E shadows the field, which reaches the declared count only
      through addEdge. */
  method FromTokens(tokens: seq<int>) returns (r: Result<Digraph>)
    ensures r.Ok? <==> WellFormedTokens(tokens)
    ensures |tokens| == 0 ==> r == Err(InvalidFormat)
    ensures |tokens| >= 1 && tokens[0] < 0 ==> r == Err(NegativeVertexCount)
    ensures |tokens| == 1 && tokens[0] >= 0 ==> r == Err(InvalidFormat)
    ensures |tokens| >= 2 && tokens[0] >= 0 && tokens[1] < 0 ==> r == Err(NegativeEdgeCount)
    ensures |tokens| >= 2 && tokens[0] >= 0 && tokens[1] >= 0 && r.Err?
            ==> r.error == ReadError(tokens, tokens[1], tokens[0])
    ensures r.Ok? ==> fresh(r.value) && fresh(r.value.adj) && fresh(r.value.indegree)
    ensures r.Ok? ==> r.value.Valid() && r.value.V == tokens[0] && r.value.E == tokens[1]
    ensures r.Ok? ==> r.value.adj[..] == AddAll(Empty(tokens[0]), TokenPairs(tokens, tokens[1]))
  {
    if |tokens| < 1 {
      return Err(InvalidFormat);
    }
    var n := tokens[0];
    if n < 0 {
      return Err(NegativeVertexCount);
    }
    var g := new Digraph.Init(n);
    if |tokens| < 2 {
      return Err(InvalidFormat);
    }
    var e := tokens[1];
    if e < 0 {
      return Err(NegativeEdgeCount);
    }
    var ok := ReadEdges(g, tokens, e);
    if ok.Fail? {
      return Err(ok.error);
    }
    return Ok(g);
  }
}
