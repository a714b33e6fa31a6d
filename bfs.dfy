/** The breadth-first search of `Digraph.getDist` as a function of the
    adjacency lists. It is NOT a shortest-path distance: one running counter
    goes up for each newly discovered vertex and, after each dequeued vertex
    `x`, down by `|adj[x]| - 1`; the counter is returned as soon as the target
    shows up in a scanned list. */
module Bfs {
  import opened Adjacency
  import opened Paths

  /** Outcome of scanning one adjacency list (the inner loop). */
  datatype Scan = Hit(dist: int) | Miss(queue: seq<int>, visited: set<int>, dist: int)

  /** Scan the neighbours `ns` of a dequeued vertex, looking for `b`,
      enqueuing and counting every vertex not yet visited. */
  function ScanList(b: int, ns: seq<int>, queue: seq<int>, visited: set<int>, d: int): Scan
  {
    if ns == [] then Miss(queue, visited, d)
    else if ns[0] == b then Hit(d)
    else if ns[0] !in visited then ScanList(b, ns[1..], queue + [ns[0]], visited + {ns[0]}, d + 1)
    else ScanList(b, ns[1..], queue, visited, d)
  }

  /** A scan hits only a listed vertex, and a miss only adds listed
      vertices to the queue and the visited set. */
  lemma {:induction false} ScanListFacts(b: int, ns: seq<int>, queue: seq<int>, visited: set<int>, d: int)
    ensures var r := ScanList(b, ns, queue, visited, d);
      && (r.Hit? ==> b in ns)
      && (r.Miss? ==> visited <= r.visited && (forall y :: y in r.visited ==> y in visited || y in ns))
      && (r.Miss? ==> forall y :: y in r.queue ==> y in queue || y in ns)
      && (r.Miss? && r.visited == visited ==> r.queue == queue)
      && (r.Miss? && r.visited != visited ==> exists i :: 0 <= i < |ns| && ns[i] in r.visited && ns[i] !in visited)
  {
    if ns != [] && ns[0] != b {
      if ns[0] !in visited {
        ScanListFacts(b, ns[1..], queue + [ns[0]], visited + {ns[0]}, d + 1);
      } else {
        ScanListFacts(b, ns[1..], queue, visited, d);
        var r := ScanList(b, ns[1..], queue, visited, d);
        if r.Miss? && r.visited != visited {
          var i :| 0 <= i < |ns[1..]| && ns[1..][i] in r.visited && ns[1..][i] !in visited;
          assert ns[i + 1] == ns[1..][i];
        }
      }
    }
  }

  /** Vertices of an `n`-vertex graph not yet visited. */
  function Unvisited(n: int, visited: set<int>): set<int> {
    set x | 0 <= x < n && x !in visited
  }

  ghost predicate InGraph(s: seq<seq<int>>, queue: seq<int>, visited: set<int>) {
    && (forall x :: x in visited ==> 0 <= x < |s|)
    && (forall i :: 0 <= i < |queue| ==> 0 <= queue[i] < |s|)
  }

  /** A scan that misses keeps the search inside the graph and makes
      progress: either a vertex gets visited or the queue shrinks. */
  lemma ScanStaysInGraph(s: seq<seq<int>>, b: int, queue: seq<int>, visited: set<int>, d: int)
    requires WellFormed(s) && InGraph(s, queue, visited) && queue != []
    ensures var r := ScanList(b, s[queue[0]], queue[1..], visited, d);
      r.Miss? ==>
        && InGraph(s, r.queue, r.visited)
        && (r.visited == visited ==> |r.queue| < |queue|)
        && (r.visited != visited ==> Unvisited(|s|, r.visited) < Unvisited(|s|, visited))
  {
    var x := queue[0];
    var r := ScanList(b, s[x], queue[1..], visited, d);
    ScanListFacts(b, s[x], queue[1..], visited, d);
    if r.Miss? {
      assert forall i :: 0 <= i < |s[x]| ==> 0 <= s[x][i] < |s|;
      forall i | 0 <= i < |r.queue| ensures 0 <= r.queue[i] < |s| {
        assert r.queue[i] in r.queue;
      }
      if r.visited != visited {
        var i :| 0 <= i < |s[x]| && s[x][i] in r.visited && s[x][i] !in visited;
        var y := s[x][i];
        assert y in Unvisited(|s|, visited) - Unvisited(|s|, r.visited);
      }
    }
  }

  /** The outer loop: dequeue, scan, correct the counter, repeat. */
  function Search(s: seq<seq<int>>, b: int, queue: seq<int>, visited: set<int>, d: int): int
    requires WellFormed(s) && InGraph(s, queue, visited)
    decreases Unvisited(|s|, visited), |queue|
  {
    if queue == [] then -1
    else
      var x := queue[0];
      var r := ScanList(b, s[x], queue[1..], visited, d);
      if r.Hit? then r.dist
      else
        ScanStaysInGraph(s, b, queue, visited, d);
        Search(s, b, r.queue, r.visited, r.dist - (|s[x]| - 1))
  }

  /** getDist(a, b). */
  function Dist(s: seq<seq<int>>, a: int, b: int): int
    requires WellFormed(s) && 0 <= a < |s|
  {
    Search(s, b, [a], {a}, 0)
  }

  /** A square table with a row per vertex. */
  predicate Square(D: seq<seq<int>>) {
    forall a :: 0 <= a < |D| ==> |D[a]| == |D|
  }

  /** `D[a][b]` is getDist(a, b) for every pair of vertices. */
  ghost predicate IsDistTable(s: seq<seq<int>>, D: seq<seq<int>>)
    requires WellFormed(s)
  {
    && |D| == |s| && Square(D)
    && forall a, b :: 0 <= a < |s| && 0 <= b < |s| ==> D[a][b] == Dist(s, a, b)
  }

  ghost function DistTable(s: seq<seq<int>>): (D: seq<seq<int>>)
    requires WellFormed(s)
    ensures IsDistTable(s, D)
  {
    var D0 := seq(|s|, a requires 0 <= a < |s| => seq(|s|, b => Dist(s, a, b)));
    assert IsDistTable(s, D0);
    var D :| IsDistTable(s, D);
    D
  }

  lemma {:induction false} SearchFindsOnlyReachable(s: seq<seq<int>>, a: int, b: int, queue: seq<int>, visited: set<int>, d: int)
    requires WellFormed(s) && InGraph(s, queue, visited)
    requires forall i :: 0 <= i < |queue| ==> ReachesOrSame(s, a, queue[i])
    ensures Search(s, b, queue, visited, d) != -1 ==> Reaches(s, a, b)
    decreases Unvisited(|s|, visited), |queue|
  {
    if queue != [] {
      var x := queue[0];
      var r := ScanList(b, s[x], queue[1..], visited, d);
      ScanListFacts(b, s[x], queue[1..], visited, d);
      if r.Hit? {
        ReachesStep(s, a, x, b);
      } else {
        ScanStaysInGraph(s, b, queue, visited, d);
        forall i | 0 <= i < |r.queue| ensures ReachesOrSame(s, a, r.queue[i]) {
          assert r.queue[i] in r.queue;
          var y := r.queue[i];
          if y in queue[1..] {
            var k :| 0 <= k < |queue[1..]| && queue[1..][k] == y;
            assert queue[k + 1] == y;
          } else {
            ReachesStep(s, a, x, y);
          }
        }
        SearchFindsOnlyReachable(s, a, b, r.queue, r.visited, r.dist - (|s[x]| - 1));
      }
    }
  }

  /** getDist returns -1 whenever `b` is not reachable from `a` by a path of
      at least one edge (in particular for an out-of-range `b`, and for
      `b == a` when `a` lies on no cycle). */
  lemma DistUnreachable(s: seq<seq<int>>, a: int, b: int)
    requires WellFormed(s) && 0 <= a < |s|
    ensures !Reaches(s, a, b) ==> Dist(s, a, b) == -1
  {
    SearchFindsOnlyReachable(s, a, b, [a], {a}, 0);
  }

  /** Position of the first occurrence of `x` in `l`. */
  function FirstIndex(l: seq<int>, x: int): (k: nat)
    requires x in l
    ensures k < |l| && l[k] == x && x !in l[..k]
  {
    if l[0] == x then 0 else FirstIndex(l[1..], x) + 1
  }

  /** The distinct vertices of `l`. */
  function Elements(l: seq<int>): set<int> {
    set y | y in l
  }

  lemma NewElementCount(n0: int, D: set<int>, visited: set<int>)
    ensures |({n0} + D) - visited|
         == if n0 in visited then |D - visited| else 1 + |D - (visited + {n0})|
  {
    if n0 in visited {
      assert ({n0} + D) - visited == D - visited;
    } else {
      assert ({n0} + D) - visited == {n0} + (D - (visited + {n0}));
    }
  }

  lemma ElementsStep(ns: seq<int>, k: nat)
    requires 1 <= k <= |ns|
    ensures Elements(ns[..k]) == {ns[0]} + Elements(ns[1..][..k - 1])
  {
    assert ns[..k] == [ns[0]] + ns[1..][..k - 1];
  }

  /** The distinct unvisited vertices of a non-empty prefix, counted from
      its first element on. */
  lemma CountStep(ns: seq<int>, k: nat, visited: set<int>)
    requires 1 <= k <= |ns|
    ensures |Elements(ns[..k]) - visited|
         == if ns[0] in visited then |Elements(ns[1..][..k - 1]) - visited|
            else 1 + |Elements(ns[1..][..k - 1]) - (visited + {ns[0]})|
  {
    ElementsStep(ns, k);
    NewElementCount(ns[0], Elements(ns[1..][..k - 1]), visited);
  }

  lemma {:induction false} ScanListHit(b: int, ns: seq<int>, k: nat, queue: seq<int>, visited: set<int>, d: int)
    requires k < |ns| && ns[k] == b && b !in ns[..k]
    ensures ScanList(b, ns, queue, visited, d) == Hit(d + |Elements(ns[..k]) - visited|)
  {
    if k == 0 {
      assert Elements(ns[..k]) - visited == {};
      assert ScanList(b, ns, queue, visited, d) == Hit(d);
    } else {
      var n0, rest := ns[0], ns[1..];
      assert ns[..k] == [n0] + rest[..k - 1];
      assert n0 != b && rest[k - 1] == b && b !in rest[..k - 1];
      CountStep(ns, k, visited);
      if n0 !in visited {
        ScanListHit(b, rest, k - 1, queue + [n0], visited + {n0}, d + 1);
      } else {
        ScanListHit(b, rest, k - 1, queue, visited, d);
      }
    }
  }

  /** When `b` is adjacent from `a`, getDist(a, b) is the number of distinct
      vertices other than `a` that come before the first `b` in a's list
      (0 when `b` comes first), not the length of the edge a->b. */
  lemma DistToNeighbour(s: seq<seq<int>>, a: int, b: int)
    requires WellFormed(s) && 0 <= a < |s| && b in s[a]
    ensures Dist(s, a, b) == |Elements(s[a][..FirstIndex(s[a], b)]) - {a}|
  {
    var k := FirstIndex(s[a], b);
    ScanListHit(b, s[a], k, [], {a}, 0);
    assert [a][1..] == [];
    assert ScanList(b, s[a], [a][1..], {a}, 0).Hit?;
  }

  /** On the chain 0 -> 1 -> 2 the counter gives 0 and 1. */
  lemma DistOnChain()
    ensures Dist([[1], [2], []], 0, 1) == 0
    ensures Dist([[1], [2], []], 0, 2) == 1
  {
    var s := [[1], [2], []];
    assert WellFormed(s);
    assert [0][1..] == [] && [1][1..] == [];
    assert ScanList(1, s[0], [], {0}, 0) == Hit(0);
    assert ScanList(2, s[0], [], {0}, 0) == Miss([1], {0, 1}, 1);
    assert ScanList(2, s[1], [], {0, 1}, 1) == Hit(1);
    assert Search(s, 2, [1], {0, 1}, 1) == 1;
  }

  /** With a branch, the counter differs from the path length: from 0 in
      0 -> 1, 0 -> 2, 1 -> 3 the vertex 3 is two edges away, yet the result is 1. */
  lemma DistIsNotPathLength()
    ensures Dist([[1, 2], [3], [], []], 0, 3) == 1
  {
    var s := [[1, 2], [3], [], []];
    assert WellFormed(s);
    assert [1, 2][1..] == [2] && [2][1..] == [] && [0][1..] == [] && [1, 2][1..] == [2];
    assert ScanList(3, [2], [1], {0, 1}, 1) == Miss([1, 2], {0, 1, 2}, 2);
    assert ScanList(3, s[0], [], {0}, 0) == Miss([1, 2], {0, 1, 2}, 2);
    assert ScanList(3, s[1], [2], {0, 1, 2}, 1) == Hit(1);
    assert Search(s, 3, [1, 2], {0, 1, 2}, 1) == 1;
  }
}
