/** DirectedCycle: a depth-first search that records one directed cycle of a
    digraph, if there is one. The search state is the three vertex-indexed
    arrays of DirectedCycle.java; the ghost fields keep the recursion path, the
    finishing order and the roots the proof needs. */
module Cycles {
  import opened Base
  import opened Adjacency
  import opened Paths
  import opened Digraphs

  /** The invariant of the search while no cycle has been found, over the
      values of its state: `onStack` marks exactly the recursion path, whose
      vertices are marked and follow edges recorded in
      `edgeTo`; every marked non-root was entered over the edge
      edgeTo[x] -> x; every finished vertex (marked, off the stack) is
      ranked, and so are its successors, all with smaller ranks. */
  ghost predicate SearchInv(g: seq<seq<int>>, marked: seq<bool>, edgeTo: seq<int>, onStack: seq<bool>,
                            path: seq<int>, rank: map<int, int>, clock: int, roots: set<int>)
  {
    && WellFormed(g) && |marked| == |g| && |edgeTo| == |g| && |onStack| == |g|
    && (forall x :: 0 <= x < |g| ==> (onStack[x] <==> x in path))
    && (forall i :: 0 <= i < |path| ==> 0 <= path[i] < |g| && marked[path[i]])
    && (forall i, j :: 0 <= i < j < |path| ==> path[i] != path[j])
    && (forall i :: 0 <= i < |path| - 1 ==> Edge(g, path[i], path[i + 1]) && edgeTo[path[i + 1]] == path[i])
    && (forall x :: 0 <= x < |g| && marked[x] && x !in roots ==> Edge(g, edgeTo[x], x))
    && (forall u :: u in rank ==> 0 <= u < |g| && marked[u] && !onStack[u] && rank[u] < clock)
    && (forall u :: 0 <= u < |g| && marked[u] && !onStack[u] ==>
          u in rank && forall w :: w in g[u] ==> w in rank && rank[w] < rank[u])
  }

  /** Before any search: nothing marked, nothing on the stack, no ranks. */
  lemma InitialSearch(g: seq<seq<int>>, edgeTo: seq<int>)
    requires WellFormed(g) && |edgeTo| == |g|
    ensures SearchInv(g, seq(|g|, _ => false), edgeTo, seq(|g|, _ => false), [], map[], 0, {})
  {
  }

  /** Entering an unmarked vertex over an edge from the top of the path (or
      as a root) keeps the invariant. */
  lemma Enter(g: seq<seq<int>>, marked: seq<bool>, edgeTo: seq<int>, onStack: seq<bool>,
              path: seq<int>, rank: map<int, int>, clock: int, roots: set<int>, v: int)
    requires SearchInv(g, marked, edgeTo, onStack, path, rank, clock, roots)
    requires 0 <= v < |g| && !marked[v]
    requires path != [] ==> Edge(g, path[|path| - 1], v) && edgeTo[v] == path[|path| - 1]
    ensures v !in path
    ensures SearchInv(g, marked[v := true], edgeTo, onStack[v := true], path + [v], rank, clock,
                      if path == [] then roots + {v} else roots)
  {
    var p := path + [v];
    assert v !in path by {
      forall i | 0 <= i < |path| ensures path[i] != v {
        assert marked[path[i]];
      }
    }
    forall x | 0 <= x < |g| ensures (onStack[v := true][x] <==> x in p) {
      assert x in p <==> x in path || x == v;
    }
    forall i | 0 <= i < |p| - 1 ensures Edge(g, p[i], p[i + 1]) && edgeTo[p[i + 1]] == p[i] {
      if i < |path| - 1 {
        assert p[i] == path[i] && p[i + 1] == path[i + 1];
      }
    }
  }

  /** Recording the edge into a vertex not yet marked keeps the invariant. */
  lemma SetEdgeTo(g: seq<seq<int>>, marked: seq<bool>, edgeTo: seq<int>, onStack: seq<bool>,
                  path: seq<int>, rank: map<int, int>, clock: int, roots: set<int>, w: int, v: int)
    requires SearchInv(g, marked, edgeTo, onStack, path, rank, clock, roots)
    requires 0 <= w < |g| && !marked[w]
    ensures SearchInv(g, marked, edgeTo[w := v], onStack, path, rank, clock, roots)
  {
    forall i | 0 <= i < |path| - 1 ensures edgeTo[w := v][path[i + 1]] == path[i] {
      assert marked[path[i + 1]];
    }
  }

  /** Leaving a vertex all of whose successors are ranked gives it the next
      rank and keeps the invariant. */
  lemma Finish(g: seq<seq<int>>, marked: seq<bool>, edgeTo: seq<int>, onStack: seq<bool>,
               path: seq<int>, v: int, rank: map<int, int>, clock: int, roots: set<int>)
    requires SearchInv(g, marked, edgeTo, onStack, path + [v], rank, clock, roots)
    requires 0 <= v < |g| && v !in path && forall w :: w in g[v] ==> w in rank
    ensures SearchInv(g, marked, edgeTo, onStack[v := false], path, rank[v := clock], clock + 1, roots)
  {
    var p := path + [v];
    assert p[|path|] == v;
    forall x | 0 <= x < |g| ensures (onStack[v := false][x] <==> x in path) {
      assert x in p <==> x in path || x == v;
    }
    forall i | 0 <= i < |path| ensures 0 <= path[i] < |g| && marked[path[i]] {
      assert p[i] == path[i];
    }
    forall i | 0 <= i < |path| - 1 ensures Edge(g, path[i], path[i + 1]) && edgeTo[path[i + 1]] == path[i] {
      assert p[i] == path[i] && p[i + 1] == path[i + 1];
    }
    forall i, j | 0 <= i < j < |path| ensures path[i] != path[j] {
      assert p[i] == path[i] && p[j] == path[j];
    }
  }

  /** When every vertex is marked and the path is empty, the ranks order
      every edge downward. */
  lemma AllFinishedRanked(g: seq<seq<int>>, marked: seq<bool>, edgeTo: seq<int>, onStack: seq<bool>,
                          rank: map<int, int>, clock: int, roots: set<int>)
    requires SearchInv(g, marked, edgeTo, onStack, [], rank, clock, roots)
    requires forall u :: 0 <= u < |g| ==> marked[u]
    ensures Ranked(g, rank)
  {
    forall u | 0 <= u < |g| ensures u in rank {
      assert !onStack[u];
    }
  }

  class DirectedCycle {
    const marked: array<bool>
    const edgeTo: array<int>
    const onStack: array<bool>
    var cycle: Option<seq<int>>

    /** The adjacency lists of the digraph searched. */
    ghost const graph: seq<seq<int>>
    /** The vertices of the active `dfs` calls, outermost first. */
    ghost var path: seq<int>
    /** The finishing order: each finished vertex gets the next clock value. */
    ghost var rank: map<int, int>
    ghost var clock: int
    /** The vertices a search was started from by the constructor. */
    ghost var roots: set<int>

    ghost predicate Shape()
      reads this
    {
      && WellFormed(graph)
      && marked.Length == |graph| && edgeTo.Length == |graph| && onStack.Length == |graph|
      && marked != onStack
    }

    /** SearchInv over the current contents of the arrays. */
    ghost predicate Searching()
      reads this, marked, edgeTo, onStack
    {
      && Shape()
      && SearchInv(graph, marked[..], edgeTo[..], onStack[..], path, rank, clock, roots)
    }

    /** What a finished construction guarantees: a recorded cycle is a
        genuine directed cycle, and without one the finishing order ranks
        every vertex, so the digraph is acyclic. */
    ghost predicate Valid()
      reads this, marked, edgeTo, onStack
    {
      && Shape()
      && (cycle.Some? ==> IsSimpleCycle(graph, cycle.value))
      && (cycle.None? ==> Ranked(graph, rank))
    }

    /** Vertices no `dfs` has entered yet. */
    ghost function Unmarked(): set<int>
      reads this, marked
    {
      set u | 0 <= u < marked.Length && !marked[u]
    }

    /** DirectedCycle(G): a search from every unmarked vertex, in order, until
        a cycle is recorded. */
    constructor (G: Digraph)
      requires G.Valid()
      ensures graph == G.adj[..] && Valid()
      ensures fresh(marked) && fresh(edgeTo) && fresh(onStack)
    {
      graph := G.adj[..];
      marked := new bool[G.V](_ => false);
      onStack := new bool[G.V](_ => false);
      edgeTo := new int[G.V](_ => 0);
      cycle := None;
      path := [];
      rank := map[];
      clock := 0;
      roots := {};
      new;
      assert marked[..] == seq(G.V, _ => false) && onStack[..] == seq(G.V, _ => false);
      InitialSearch(graph, edgeTo[..]);
      for v := 0 to G.V
        invariant G.adj[..] == graph && Scanned(v)
      {
        SearchFrom(G, v);
      }
      if cycle.None? {
        AllFinishedRanked(graph, marked[..], edgeTo[..], onStack[..], rank, clock, roots);
      }
    }

    /** The constructor's loop after vertices `0 .. v - 1`: either a cycle is
        recorded, or no search is running and all those vertices are marked. */
    ghost predicate Scanned(v: int)
      reads this, marked, edgeTo, onStack
    {
      && Shape() && 0 <= v <= |graph|
      && (cycle.Some? ==> IsSimpleCycle(graph, cycle.value))
      && (cycle.None? ==> Searching() && path == [] && forall u :: 0 <= u < v ==> marked[u])
    }

    /** One turn of the constructor's loop: search from `v` unless it is
        marked or a cycle is already recorded. */
    method SearchFrom(G: Digraph, v: int)
      requires G.adj[..] == graph && 0 <= v < |graph| && Scanned(v)
      modifies this, marked, edgeTo, onStack
      ensures Scanned(v + 1)
    {
      if !marked[v] && cycle.None? {
        Dfs(G, v);
      }
    }

    /** dfs(G, v): marks v, puts it on the stack and explores its
        neighbours in list order; a neighbour on the stack closes a cycle,
        which is traced back through `edgeTo`. Once a cycle is recorded the
        call returns at its next neighbour, leaving v on the stack. */
    method Dfs(G: Digraph, v: int)
      requires Searching() && cycle.None? && G.adj[..] == graph
      requires 0 <= v < |graph| && !marked[v]
      requires path != [] ==> Edge(graph, path[|path| - 1], v) && edgeTo[v] == path[|path| - 1]
      modifies this, marked, edgeTo, onStack
      ensures marked[v]
      ensures forall u :: 0 <= u < |graph| && old(marked[u]) ==> marked[u] && onStack[u] == old(onStack[u])
      ensures cycle.Some? ==> IsSimpleCycle(graph, cycle.value)
      ensures cycle.None? ==> Searching() && path == old(path) && v in rank
      ensures cycle.None? ==> forall u :: u in old(rank) ==> u in rank
      ensures Unmarked() < old(Unmarked())
      decreases Unmarked(), 0
    {
      Mark(v);
      ghost var path0, rank0 := old(path), old(rank);
      var ns := G.adj[v];
      for j := 0 to |ns|
        invariant G.adj[..] == graph && Exploring(v, ns, j, path0, rank0)
        invariant forall u :: 0 <= u < |graph| && old(marked[u]) ==> marked[u] && onStack[u] == old(onStack[u])
        invariant Unmarked() < old(Unmarked())
      {
        if cycle.Some? {
          return;
        }
        Step(G, v, ns, j, path0, rank0);
      }
      if cycle.None? {
        forall w | w in graph[v] ensures w in rank {
          var t :| 0 <= t < |ns| && ns[t] == w;
        }
      }
      Unstack(v, path0);
    }

    /** Entering v: it is marked and put on the stack (the first two
        statements of dfs). */
    method Mark(v: int)
      requires Searching() && 0 <= v < |graph| && !marked[v]
      requires path != [] ==> Edge(graph, path[|path| - 1], v) && edgeTo[v] == path[|path| - 1]
      modifies this, marked, onStack
      ensures Searching() && marked[v] && path == old(path) + [v] && v !in old(path)
      ensures rank == old(rank) && cycle == old(cycle)
      ensures forall u :: 0 <= u < |graph| && u != v ==> marked[u] == old(marked[u]) && onStack[u] == old(onStack[u])
      ensures Unmarked() == old(Unmarked()) - {v}
    {
      Enter(graph, marked[..], edgeTo[..], onStack[..], path, rank, clock, roots, v);
      onStack[v] := true;
      marked[v] := true;
      if path == [] {
        roots := roots + {v};
      }
      path := path + [v];
      assert marked[..] == old(marked[..])[v := true];
      assert onStack[..] == old(onStack[..])[v := true];
      assert edgeTo[..] == old(edgeTo[..]);
    }

    /** Leaving v once its neighbours are done (the last statement of dfs);
        without a cycle, v is finished and takes the next rank. */
    method Unstack(v: int, ghost p: seq<int>)
      requires Shape() && 0 <= v < |graph|
      requires cycle.None? ==> Searching() && path == p + [v] && v !in p
      requires cycle.None? ==> forall w :: w in graph[v] ==> w in rank
      modifies this, onStack
      ensures cycle == old(cycle)
      ensures forall u :: 0 <= u < |graph| && u != v ==> onStack[u] == old(onStack[u])
      ensures cycle.None? ==> Searching() && path == p && v in rank
      ensures cycle.None? ==> forall u :: u in old(rank) ==> u in rank
    {
      if cycle.None? {
        Finish(graph, marked[..], edgeTo[..], onStack[..], p, v, rank, clock, roots);
      }
      onStack[v] := false;
      if cycle.None? {
        path := p;
        rank := rank[v := clock];
        clock := clock + 1;
      }
      assert marked[..] == old(marked[..]) && edgeTo[..] == old(edgeTo[..]);
      assert onStack[..] == old(onStack[..])[v := false];
    }

    /** The state of dfs(G, v) after its first `j` neighbours `ns[..j]`:
        either a cycle is recorded, or v is still on top of the stack, those
        neighbours are finished and no finished vertex has lost its rank. */
    ghost predicate Exploring(v: int, ns: seq<int>, j: int, path0: seq<int>, rank0: map<int, int>)
      reads this, marked, edgeTo, onStack
    {
      && Shape() && 0 <= v < |graph| && ns == graph[v] && 0 <= j <= |ns| && marked[v]
      && (cycle.Some? ==> IsSimpleCycle(graph, cycle.value))
      && (cycle.None? ==> Searching() && path == path0 + [v])
      && (cycle.None? ==> forall t :: 0 <= t < j ==> ns[t] in rank)
      && (cycle.None? ==> forall u :: u in rank0 ==> u in rank)
    }

    /** One turn of dfs's loop over the neighbours of v. It only forwards
        to Visit; it is a method of its own so that the loop's step, stated
        through Exploring, is proved apart from Dfs's other obligations. */
    method Step(G: Digraph, v: int, ns: seq<int>, j: int, ghost path0: seq<int>, ghost rank0: map<int, int>)
      requires G.adj[..] == graph && Exploring(v, ns, j, path0, rank0) && j < |ns| && cycle.None?
      modifies this, marked, edgeTo, onStack
      ensures Exploring(v, ns, j + 1, path0, rank0)
      ensures forall u :: 0 <= u < |graph| && old(marked[u]) ==> marked[u] && onStack[u] == old(onStack[u])
      ensures Unmarked() <= old(Unmarked())
      decreases Unmarked(), 2
    {
      Visit(G, v, ns[j]);
    }

    /** One neighbour w of v, as the branches after the short-circuit test
        in dfs: an unmarked w is entered over v -> w; a w still on the
        stack closes a cycle; a finished w is passed over. */
    method Visit(G: Digraph, v: int, w: int)
      requires Searching() && cycle.None? && G.adj[..] == graph
      requires path != [] && path[|path| - 1] == v && Edge(graph, v, w)
      modifies this, marked, edgeTo, onStack
      ensures forall u :: 0 <= u < |graph| && old(marked[u]) ==> marked[u] && onStack[u] == old(onStack[u])
      ensures cycle.Some? ==> IsSimpleCycle(graph, cycle.value)
      ensures cycle.None? ==> Searching() && path == old(path) && w in rank
      ensures cycle.None? ==> forall u :: u in old(rank) ==> u in rank
      ensures Unmarked() <= old(Unmarked())
      decreases Unmarked(), 1
    {
      if !marked[w] {
        ghost var m0, e0, o0 := marked[..], edgeTo[..], onStack[..];
        SetEdgeTo(graph, m0, e0, o0, path, rank, clock, roots, w, v);
        edgeTo[w] := v;
        assert marked[..] == m0 && edgeTo[..] == e0[w := v] && onStack[..] == o0;
        Dfs(G, w);
      } else if onStack[w] {
        TraceBack(v, w);
      }
    }

    /** The cycle closed by the edge v -> w with w on the stack: v,
        edgeTo[v], ..., down to w, then w and v again, in push order. */
    method TraceBack(v: int, w: int)
      requires Searching() && cycle.None? && path != [] && path[|path| - 1] == v
      requires Edge(graph, v, w) && w in path
      modifies this
      ensures cycle.Some? && IsSimpleCycle(graph, cycle.value)
      ensures path == old(path)
    {
      var c: seq<int> := [];
      var x := v;
      ghost var i := |path| - 1;
      ghost var j :| 0 <= j < |path| && path[j] == w;
      while x != w
        invariant 0 <= i < |path| && path[i] == x && j <= i
        invariant |c| == |path| - 1 - i && forall t :: 0 <= t < |c| ==> c[t] == path[|path| - 1 - t]
        invariant c == [] ==> x == v
        invariant c != [] ==> c[0] == v && Edge(graph, x, c[|c| - 1])
        invariant forall t :: 0 <= t < |c| - 1 ==> Edge(graph, c[t + 1], c[t])
        decreases i
      {
        c := c + [x];
        x := edgeTo[x];
        i := i - 1;
      }
      assert i == j;
      var t := c + [w, v];
      assert forall a :: 0 <= a < |t| - 1 ==> t[a] == path[|path| - 1 - a];
      cycle := Some(t);
    }

    /** hasCycle(): a cycle has been recorded, which happens exactly when
        the digraph has a directed cycle. */
    function HasCycle(): (r: bool)
      reads this, marked, edgeTo, onStack
      requires Valid()
      ensures r <==> Paths.HasCycle(graph)
    {
      if cycle.Some? then
        true
      else
        RankedAcyclic(graph, rank);
        false
    }

    /** cycle(): the recorded cycle in the stack's iteration (push) order,
        or None (Java's null). */
    function Cycle(): (r: Option<seq<int>>)
      reads this, marked, edgeTo, onStack
      requires Valid()
      ensures r.Some? <==> Paths.HasCycle(graph)
      ensures r.Some? ==> IsSimpleCycle(graph, r.value)
    {
      if cycle.None? then
        RankedAcyclic(graph, rank);
        None
      else
        cycle
    }

    /** check(): the first and the last vertex of a recorded cycle agree;
        -1 marks "no vertex seen yet", as no vertex is negative. */
    method Check() returns (ok: bool)
      requires Valid()
      ensures ok <==> cycle.None? || cycle.value[0] == cycle.value[|cycle.value| - 1]
      ensures ok
    {
      if cycle.Some? {
        var c := cycle.value;
        forall i | 0 <= i < |c| ensures c[i] >= 0 {
          if i < |c| - 1 {
            assert Edge(graph, c[i + 1], c[i]);
          } else {
            assert Edge(graph, c[1], c[0]);
          }
        }
        var first, last := -1, -1;
        for k := 0 to |c|
          invariant k == 0 ==> first == -1
          invariant k > 0 ==> first == c[0] && last == c[k - 1]
        {
          if first == -1 {
            first := c[k];
          }
          last := c[k];
        }
        if first != last {
          return false;
        }
      }
      return true;
    }
  }
}
