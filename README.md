# Word-Net in Dafny

A model of the Java Word-Net project. It covers:

- the adjacency-list `Digraph` with its breadth-first `getDist` counter;
- the `DirectedCycle` depth-first cycle finder;
- `ShortestCommonAncestor` over a rooted DAG;
- `WordNet`, which reads the synsets and hypernyms lines into two hash maps and a digraph;
- `Outcast`, which picks the noun with the largest summed distance.

Each Java class becomes a Dafny class whose methods update the same
fields (arrays stay arrays). Each method is proved against a
specification function on plain values:

| module | file | contents |
|---|---|---|
| `Base` | base.dfy | `Result`, `Option` and the exceptions as an `Error` value |
| `Adjacency` | adjacency.dfy | adjacency lists as `seq<seq<int>>`: edge and indegree counts, `AddAll` (a sequence of `addEdge` calls), `Reversed` |
| `Paths` | paths.dfy | walks, reachability, directed cycles as the cycle stack holds them, finishing-order ranks |
| `Bfs` | bfs.dfy | `Dist`, the value `getDist` returns, as a function of the lists |
| `Digraphs` | digraph.dfy | class `Digraph`, the constructors and the token-stream constructor |
| `Cycles` | cycle.dfy | class `DirectedCycle` |
| `Ancestors` | ancestor.dfy | class `ShortestCommonAncestor`, and what `ancestor` and the subset queries must return |
| `Synsets` | synsets.dfy | the two maps and the edge list that the input lines give |
| `WordNets` | wordnet.dfy | class `WordNet`, its constructor, `distance` and `sca` |
| `Outcasts` | outcast.dfy | class `Outcast` |

Some of the program's behaviour is unusual, and the model keeps it as
written:

- `getDist` is not a path length. Its counter goes up for every newly
  queued vertex and down by `outdegree - 1` after each dequeued vertex,
  and it is returned when the target appears in a scanned list.
  `Bfs.DistIsNotPathLength` and `Bfs.DistToNeighbour` show what it computes.
- `lengthSubset` returns the largest length over the pairs, not the
  smallest.
- `ancestorSubset` returns the ancestor of the first pair that reaches
  that largest length.
- `ancestor` only counts vertices that both endpoints reach with a positive counter.

A `getDist` source outside the graph fails when `visited[a]` is marked,
and this is modelled as `IndexOutOfBounds`. It is raised in the order the
Java code makes its calls:

- `ancestor` fails on `v`, then on `w`, and only when the graph has a vertex.
- `distance(id1, id2)` fails on `id1`, then on `id2`.
- The subset queries fail at the first element of A outside the graph,
  and only when B is not empty. `lengthSubset` fails inside its `length`
  call. The `ancestorSubset` model tests the element at the start of its
  row, which is where the row's first `length` call would fail.

An exception thrown by `addEdge` is not caught by either constructor that
reads input. So the first out-of-range edge ends the construction with
that exception (`Digraphs.RangeError`).

## Model

| member | source | states |
|---|---|---|
| Digraphs.Digraph.Init | Digraph.java:43-55 | builds V empty lists, zero indegrees and E = 0; the result satisfies the digraph invariant (E is the number of list entries, each indegree counts its vertex over all lists) |
| Digraphs.NewDigraph | Digraph.java:43-55 | fails with the negative-vertex-count error exactly when V < 0; otherwise returns a fresh valid edgeless digraph of V vertices |
| Digraphs.FromTokens | Digraph.java:70-96 | succeeds exactly when the token stream is well formed (V >= 0, E >= 0, 2E more tokens, every pair in range); otherwise the error is the one Java raises first: invalid format for a missing V or E, negative V, negative E, then (ReadError) addEdge's error at the first out-of-range pair among the complete ones, or invalid format when those are all in range and the stream runs short; on success, V and E are as declared and the lists are those the pairs add in order |
| Digraphs.ReadEdges | Digraph.java:88-92 | adds the first e token pairs in order and keeps the invariant; passes exactly when all e pairs are present and in range; otherwise fails with ReadError: addEdge's error (first bad endpoint, v before w) at the first out-of-range complete pair, else invalid format for the missing token |
| Digraphs.ReadEdge | Digraph.java:89-91 | one pass of the edge loop: passes exactly when the i-th pair is in range, and then the lists hold the first i+1 pairs; otherwise fails naming v if it is out of range, else w |
| Digraphs.BadPairError | Digraph.java:88-92 | when the pairs before i are in range and pair i is present but out of range, the edge loop's exception is addEdge's for pair i, whatever follows in the stream |
| Digraphs.Digraph.Copy | Digraph.java:104-134 | same V, E and indegrees, and every list equal to the original's in the same order (under the insertion-order `Bag` and `Stack` assumed in ## Left out), in fresh arrays |
| Digraphs.Digraph.ValidateVertex | Digraph.java:155-158 | passes exactly when 0 <= v < V; otherwise fails naming v |
| Digraphs.Digraph.AddEdge | Digraph.java:167-175 | with both endpoints in range, appends w to v's list and increments indegree[w] and E; otherwise fails naming the first bad endpoint and changes nothing; keeps the invariant either way |
| Digraphs.Digraph.Adj | Digraph.java:184-187 | succeeds exactly for a vertex, with its list (whose entries are all vertices); otherwise fails naming v |
| Digraphs.Digraph.Outdegree | Digraph.java:197-200 | succeeds exactly for a vertex, with the length of its list; otherwise fails naming v |
| Digraphs.Digraph.Indegree | Digraph.java:210-213 | succeeds exactly for a vertex, with the number of occurrences of v over all lists; otherwise fails naming v |
| Digraphs.Digraph.Reverse | Digraph.java:220-230 | returns a fresh valid digraph with the same V and E whose lists are the flipped edges in loop order; w->v occurs exactly as often as v->w did, and the new indegree of v is the old outdegree of v |
| Digraphs.Digraph.AddFlipped | Digraph.java:223-226 | the inner loop of reverse: adds w->v for each w of v's list, in order, keeping the invariant |
| Digraphs.Digraph.GetDist | Digraph.java:253-293 | fails with an index error exactly when a is not a vertex; otherwise returns Bfs.Dist of the lists |
| Digraphs.Digraph.ScanNeighbours | Digraph.java:271-287 | the scan of one list matches Bfs.ScanList: a hit returns the counter; a miss gives the queue, visited set and counter after the list, and visited[] stays in step with the visited set |
| Adjacency.ReverseCount | Digraph.java:220-230 | in the reversed lists, v occurs in w's list exactly as often as w occurs in v's original list |
| Adjacency.ReverseTwice | Digraph.java:220-230 | reversing twice gives back the original multiplicity of every edge |
| Adjacency.ReverseIndegree | Digraph.java:220-230 | in the reversed lists, the indegree of v is the original outdegree of v |
| Adjacency.IndegreesSumToEdgeCount | Digraph.java:171-174 | indegree counters that agree with the lists sum to the number of edges E |
| Adjacency.Roots | ShortestCommonAncestor.java:16-21 | holds exactly the vertices below k whose list is empty, in increasing order |
| Bfs.DistUnreachable | Digraph.java:253-293 | getDist returns -1 whenever b is not reachable from a by a path of at least one edge |
| Bfs.DistToNeighbour | Digraph.java:267-279 | for b in a's list, getDist(a, b) is the number of distinct vertices other than a before the first b in a's list |
| Bfs.DistOnChain | Digraph.java:253-293 | on the chain 0->1->2 the counter is 0 for vertex 1 and 1 for vertex 2 |
| Bfs.DistIsNotPathLength | Digraph.java:253-293 | on 0->1, 0->2, 1->3 the counter for vertex 3 is 1, though the path has two edges |
| Paths.RankedAcyclic | DirectedCycle.java:41-68 | a digraph whose edges all go down a ranking has no directed cycle |
| Cycles.DirectedCycle.constructor | DirectedCycle.java:30-38 | after searching from every unmarked vertex: a recorded cycle is a simple directed cycle of G (no vertex repeats but the closing one), and without one every vertex is ranked by finishing order, so G is acyclic |
| Cycles.DirectedCycle.SearchFrom | DirectedCycle.java:35-37 | one turn of the constructor loop: either a cycle is recorded, or every vertex up to v is marked and no search is active |
| Cycles.DirectedCycle.Dfs | DirectedCycle.java:41-68 | marks v, keeps the marks of earlier vertices, and either records a simple directed cycle or leaves the stack as it found it with v ranked above its successors; the number of unmarked vertices shrinks |
| Cycles.DirectedCycle.Mark | DirectedCycle.java:42-43 | v is marked and pushed on the recursion path, and nothing else changes |
| Cycles.DirectedCycle.Visit | DirectedCycle.java:47-65 | an unmarked neighbour is entered over v->w; a neighbour on the stack closes a recorded simple cycle; otherwise w is already ranked |
| Cycles.DirectedCycle.TraceBack | DirectedCycle.java:58-63 | the pushed sequence v, edgeTo[v], ..., w, v is a directed cycle in push order whose vertices are distinct except the closing v, as it is the recursion path from w to v reversed |
| Cycles.DirectedCycle.Unstack | DirectedCycle.java:67 | v leaves the stack and, without a cycle, takes the next finishing rank |
| Cycles.DirectedCycle.HasCycle | DirectedCycle.java:75-77 | true exactly when the digraph has a directed cycle |
| Cycles.DirectedCycle.Cycle | DirectedCycle.java:86-88 | present exactly when the digraph has a directed cycle, and then it is a simple directed cycle (only the closing vertex repeats) |
| Cycles.DirectedCycle.Check | DirectedCycle.java:91-110 | true exactly when there is no cycle or its first and last vertices agree, and it is always true |
| Ancestors.ShortestCommonAncestor.constructor | ShortestCommonAncestor.java:7-8 | the copy has the same V, E and lists as G, in the same order, in fresh arrays |
| Ancestors.ShortestCommonAncestor.IsDag | ShortestCommonAncestor.java:14-28 | true exactly when exactly one vertex has an empty list and there is no directed cycle |
| Ancestors.NewShortestCommonAncestor | ShortestCommonAncestor.java:7-12 | fails with "not a rooted DAG" exactly when G is not one; otherwise the object's copy has the same lists as G and is a rooted DAG |
| Ancestors.ShortestCommonAncestor.Length | ShortestCommonAncestor.java:31-33 | fails with an index error exactly when v is not a vertex; otherwise returns getDist(v, w), which is -1 unless w is reachable from v |
| Ancestors.ShortestCommonAncestor.Ancestor | ShortestCommonAncestor.java:36-56 | -1 on an empty graph; otherwise an index error for v, then for w; for two vertices, the vertex both reach with the least sum of positive counters (the lowest such), or -1 when there is none |
| Ancestors.AncestorOfIsAncestor | ShortestCommonAncestor.java:41-55 | the argmin scan of ancestor returns -1 only when no vertex qualifies, else a qualifying vertex of least sum, lowest first |
| Ancestors.AncestorUnique | ShortestCommonAncestor.java:36-56 | at most one vertex answers ancestor(v, w) |
| Ancestors.AncestorIsCommon | ShortestCommonAncestor.java:36-56 | a found ancestor is reachable from both v and w |
| Ancestors.ShortestCommonAncestor.LengthSubset | ShortestCommonAncestor.java:59-70 | fails exactly when B is not empty and some element of A is not a vertex, naming the first one; otherwise returns the largest length over all pairs, or 0 when none is positive |
| Ancestors.MaxAnswer | ShortestCommonAncestor.java:62-69 | after all rows, the running maximum bounds every length and is 0 or the length of some pair |
| Ancestors.ShortestCommonAncestor.AncestorSubset | ShortestCommonAncestor.java:73-87 | fails like lengthSubset; otherwise returns 0 when no length is positive, else the ancestor of the first pair in loop order whose length is largest |
| Ancestors.ShortestCommonAncestor.AncestorRow | ShortestCommonAncestor.java:78-84 | one row of ancestorSubset keeps the scan state: the running maximum, the first pair that reached it and that pair's ancestor |
| Ancestors.ScannedAnswer | ShortestCommonAncestor.java:73-87 | after all rows, the scan state answers ancestorSubset: 0, or the ancestor of the first pair of largest length |
| Synsets.SplitRecovers | WordNet.java:20 | split(" ") keeps a prefix of the space-separated pieces and drops only empty ones; joining the pieces with spaces gives the field back |
| Synsets.NounIdsKeys | WordNet.java:21-26 | the noun map's keys are exactly the synonyms listed on the lines |
| Synsets.NounIdsFirst | WordNet.java:23-25 | a noun maps to the id of the first line listing it |
| Synsets.IdSynsetsKeys | WordNet.java:21-22 | an id has a synset exactly when some line with that id has a synonym |
| Synsets.IdSynsetsLast | WordNet.java:22 | an id's synset is the field of the last line recording it |
| Synsets.EdgesListed | WordNet.java:38-46 | the hypernym edges are exactly the (id, parent) pairs on the lines |
| Digraphs.RangeError | Digraph.java:167-169 | the exception at the first out-of-range edge names an endpoint of some edge that lies outside the graph |
| WordNets.ReadSynsets | WordNet.java:14-31 | builds exactly the id->synset and noun->id maps of the lines |
| WordNets.ReadParents | WordNet.java:42-45 | adds one line's parent edges after the earlier ones; passes exactly when they are all in range, otherwise fails with addEdge's exception at the first bad one |
| WordNets.ReadHypernyms | WordNet.java:35-50 | adds every hypernym edge in file order; passes exactly when all are in range, otherwise fails with addEdge's exception at the first bad one |
| WordNets.NewWordNet | WordNet.java:10-51 | succeeds exactly when every hypernym edge lies within one vertex per recorded synset id; the object then holds the two maps and exactly those edges |
| WordNets.WordNet.Nouns | WordNet.java:54-56 | exactly the synonyms listed on the synsets lines |
| WordNets.WordNet.IsNoun | WordNet.java:59-61 | true exactly when some synsets line lists the word |
| WordNets.WordNet.Distance | WordNet.java:75-83 | equals NounDistance: "not a noun" when a word is missing, an index error for an id outside the network, else getDist between the ids |
| WordNets.NounDistanceMeaning | WordNet.java:75-83 | distance fails with "not a noun" exactly when a word is on no line, and a result other than -1 means the second noun's id is reachable from the first's |
| WordNets.WordNet.DistanceIds | WordNet.java:85-101 | an index error for id1, then id2; otherwise the least of getDist(id1, id2) (when positive, else Integer.MAX_VALUE) and of getDist(id1, i) + getDist(id2, i) over vertices both reach |
| WordNets.ScanMinIsMin | WordNet.java:92-99 | the running minimum after k vertices is at most the start value and every sum so far, and equals one of them |
| WordNets.MinDistanceOfScan | WordNet.java:85-101 | the scan over all vertices yields the minimum |
| WordNets.MinDistanceUnique | WordNet.java:85-101 | that minimum is unique |
| WordNets.WordNet.Sca | WordNet.java:65-72 | "not a rooted DAG" exactly when the network is not one; then a null-unboxing error for an unknown noun; then index errors for v, then w; otherwise the synset of the id ancestor(v, w) returns on the network's own lists (none for -1), and that id is reachable from both nouns' ids |
| WordNets.AskAncestor | WordNet.java:69-71 | the synset stored under the id ancestor(v, w) returns on the lists the object copied, and a found id is reachable from both |
| WordNets.ScaAnswerUnique | WordNet.java:65-72 | the lists and the synset map fix sca's answer: at most one answer meets its statement |
| Outcasts.Outcast.constructor | Outcast.java:7-10 | keeps the given WordNet |
| Outcasts.Outcast.RowDistance | Outcast.java:18-23 | equals RowSum: the sum of the distances from the noun at position a to the nouns at the other positions, stopping at the first failing distance |
| Outcasts.RowSumSpec | Outcast.java:18-23 | without a failure the inner loop returns the total; otherwise it returns the first failure's error |
| Outcasts.Outcast.Outcast | Outcast.java:13-30 | equals OutcastOf over the table of distance answers for the nouns |
| Outcasts.ScanOutcastOk | Outcast.java:14-28 | without failures, the outer loop keeps the first strictly largest positive total with its noun, or "" while no total is positive |
| Outcasts.ScanOutcastErr | Outcast.java:13-30 | the first failing pair in loop order decides the error |
| Outcasts.OutcastOfSpec | Outcast.java:13-30 | outcast fails exactly when some distance between two positions fails (with the first such error); otherwise returns "" when no total is positive, else the first noun with the strictly largest total |

## Left out

- File and console I/O are not modelled: `Scanner`, `File`, the
  `split(",")` and `Integer.parseInt` calls. The token-stream constructor
  takes the integers already read. The WordNet constructor takes lines
  already split into an id and a synonym field (synsets) or an id and
  parent ids (hypernyms). A line without a second field, or one that does
  not parse as numbers, is not modelled.
- An input file that cannot be opened is caught and printed by the WordNet
  constructor. This is modelled as an empty sequence of lines.
- `toString`, the accessors `V()` and `E()` (the fields are read directly),
  and the `main` methods of all five classes are not modelled.
- `Bag` is not part of this model. It is taken to iterate in insertion
  order; if it iterates last-in first-out, the order in which getDist scans
  a list would differ. `cycle()` returns a `java.util.Stack`
  (DirectedCycle.java:16), which iterates in push order, as the model does.
  The copy constructor keeps each list's order only when `Bag` and the
  `Stack` that Digraph.java gets through `import java.util.*` iterate the
  same way. With a last-in first-out `Bag` and `java.util.Stack`, every
  copied list comes out reversed, and `ShortestCommonAncestor` (and so
  `sca`) would scan the reversed lists.
- WordNets.WordNet.Nouns: the key set of the `HashMap` is returned as a
  set, because its iteration order is not specified.
- Outcasts.Outcast.Outcast: Java compares the two nouns with `!=`, which
  compares references. The model compares positions in the array, so two
  positions holding the same String object are not treated as equal.
- Outcasts.Outcast.RowDistance: sums are unbounded integers. Java's
  32-bit `int` would wrap around on overflow.
- WordNets.WordNet.DistanceIds: `d2 + d1` is an unbounded sum. Java's
  `int` would wrap around on overflow.
- Ancestors.ShortestCommonAncestor.Ancestor: `d2 + d1` is an unbounded
  sum. Java's `int` would wrap around on overflow.
- Null arguments, with their `IllegalArgumentException`s, are not
  modelled. Neither are null elements of the subset iterables. The
  `V < 0` test of the copy constructor is not modelled, as no digraph has
  a negative V.
- Deep recursion in `dfs` may overflow the Java call stack. This is not
  modelled.
- The `assert check()` in `dfs` runs only when Java assertions are
  enabled. The model instead proves that `check()` always returns true.
- `WordNet`'s fields are built once and never changed, so the model keeps
  them as constants of the class.
