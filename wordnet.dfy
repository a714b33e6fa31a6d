/** WordNet: the noun <-> synset-id maps read from the synsets lines, and
    the hypernym digraph over the synset ids. */
module WordNets {
  import opened Base
  import opened Adjacency
  import opened Paths
  import opened Bfs
  import opened Digraphs
  import opened Ancestors
  import opened Synsets

  /** The synsets loop of the constructor: for every synonym of a line, put
      the line's field under its id and the id under the synonym unless the
      synonym is already there. */
  method ReadSynsets(lines: seq<SynsetLine>) returns (idToSynset: map<int, string>, nounToId: map<string, int>)
    ensures idToSynset == IdSynsets(lines) && nounToId == NounIds(lines)
  {
    idToSynset, nounToId := map[], map[];
    for i := 0 to |lines|
      invariant idToSynset == IdSynsets(lines[..i]) && nounToId == NounIds(lines[..i])
    {
      var id := lines[i].id;
      var versions := Split(lines[i].field);
      for j := 0 to |versions|
        invariant idToSynset == if j == 0 then IdSynsets(lines[..i]) else IdSynsets(lines[..i])[id := lines[i].field]
        invariant nounToId == AddNouns(NounIds(lines[..i]), versions[..j], id)
      {
        idToSynset := idToSynset[id := lines[i].field];
        if versions[j] !in nounToId {
          nounToId := nounToId[versions[j] := id];
        }
        assert versions[..j + 1][..j] == versions[..j];
      }
      assert versions[..|versions|] == versions;
      assert lines[..i + 1][..i] == lines[..i];
    }
    assert lines[..|lines|] == lines;
  }

  /** The inner hypernyms loop: addEdge(id, w) for every parent w of one
      line, after the edges `done` of the earlier lines. */
  method ReadParents(g: Digraph, l: HypernymLine, ghost done: seq<(int, int)>) returns (r: Outcome)
    requires g.Valid() && EdgesBelow(done, g.V) && g.E == |done| && g.adj[..] == AddAll(Empty(g.V), done)
    modifies g, g.adj, g.indegree
    ensures g.Valid()
    ensures r.Pass? <==> EdgesBelow(done + ParentEdges(l), g.V)
    ensures r.Fail? ==> r.error == RangeError(done + ParentEdges(l), g.V)
    ensures r.Pass? ==> g.E == |done + ParentEdges(l)| && g.adj[..] == AddAll(Empty(g.V), done + ParentEdges(l))
  {
    ghost var p := ParentEdges(l);
    r := Pass;
    assert done + p[..0] == done;
    for j := 0 to |l.parents|
      invariant g.Valid() && r.Pass?
      invariant EdgesBelow(done + p[..j], g.V) && g.E == |done| + j
      invariant g.adj[..] == AddAll(Empty(g.V), done + p[..j])
    {
      r := g.AddEdge(l.id, l.parents[j]);
      if r.Fail? {
        SnocPrefix(done, p, j);
        FirstOutOfRangeAt(done + p, g.V, |done| + j);
        return;
      }
      AddAllSnoc(Empty(g.V), done + p[..j], l.id, l.parents[j]);
      SnocPrefix(done, p, j);
    }
    assert p[..|p|] == p;
  }

  lemma SnocPrefix(done: seq<(int, int)>, p: seq<(int, int)>, j: nat)
    requires j < |p|
    ensures done + p[..j + 1] == (done + p[..j]) + [p[j]]
    ensures (done + p)[..|done| + j] == done + p[..j]
  {
  }

  /** The hypernyms loop of the constructor: every listed parent becomes an
      edge, in file order; the first out-of-range id aborts with addEdge's
      exception. */
  method ReadHypernyms(g: Digraph, lines: seq<HypernymLine>) returns (r: Outcome)
    requires g.Valid() && g.E == 0 && g.adj[..] == Empty(g.V)
    modifies g, g.adj, g.indegree
    ensures g.Valid()
    ensures r.Pass? <==> EdgesBelow(Edges(lines), g.V)
    ensures r.Fail? ==> r.error == RangeError(Edges(lines), g.V)
    ensures r.Pass? ==> g.E == |Edges(lines)| && g.adj[..] == AddAll(Empty(g.V), Edges(lines))
  {
    r := Pass;
    for i := 0 to |lines|
      invariant g.Valid() && r.Pass?
      invariant EdgesBelow(Edges(lines[..i]), g.V) && g.E == |Edges(lines[..i])|
      invariant g.adj[..] == AddAll(Empty(g.V), Edges(lines[..i]))
    {
      EdgesSnoc(lines, i);
      r := ReadParents(g, lines[i], Edges(lines[..i]));
      if r.Fail? {
        RangeErrorPrefix(lines, i, g.V);
        return;
      }
    }
    assert lines[..|lines|] == lines;
  }

  /** The edges after one more line. */
  lemma EdgesSnoc(lines: seq<HypernymLine>, i: nat)
    requires i < |lines|
    ensures Edges(lines[..i + 1]) == Edges(lines[..i]) + ParentEdges(lines[i])
  {
    assert lines[..i + 1][..i] == lines[..i];
  }

  /** A line whose edges leave the range fails the whole file with the same
      exception, as long as the earlier lines are in range. */
  lemma RangeErrorPrefix(lines: seq<HypernymLine>, i: nat, n: int)
    requires i < |lines| && EdgesBelow(Edges(lines[..i]), n)
    requires !EdgesBelow(Edges(lines[..i]) + ParentEdges(lines[i]), n)
    ensures !EdgesBelow(Edges(lines), n)
    ensures RangeError(Edges(lines), n) == RangeError(Edges(lines[..i]) + ParentEdges(lines[i]), n)
  {
    EdgesPrefix(lines, i);
    var e := Edges(lines);
    var f := Edges(lines[..i]) + ParentEdges(lines[i]);
    var k := FirstOutOfRange(f, n);
    assert e[k] == f[k];
    assert EdgesBelow(e[..k], n) by {
      forall j | 0 <= j < k ensures 0 <= e[..k][j].0 < n && 0 <= e[..k][j].1 < n {
        assert e[..k][j] == f[..k][j];
      }
    }
    FirstOutOfRangeAt(e, n, k);
  }

  /** What distance(noun1, noun2) returns for lists `s` and noun map `m`. */
  function NounDistance(s: seq<seq<int>>, m: map<string, int>, noun1: string, noun2: string): Result<int>
    requires WellFormed(s)
  {
    if noun1 !in m || noun2 !in m then Err(NotANoun)
    else if !(0 <= m[noun1] < |s|) then Err(IndexOutOfBounds(m[noun1]))
    else Ok(Dist(s, m[noun1], m[noun2]))
  }

  /** Over the noun map of the synset lines, distance fails with "not a
      noun" exactly when one of the words is on no line, and a counter
      other than -1 means the second noun's id is reachable from the
      first's. */
  lemma NounDistanceMeaning(s: seq<seq<int>>, lines: seq<SynsetLine>, noun1: string, noun2: string)
    requires WellFormed(s)
    ensures NounDistance(s, NounIds(lines), noun1, noun2) == Err(NotANoun) <==>
              !(Listed(lines, noun1) && Listed(lines, noun2))
    ensures var r := NounDistance(s, NounIds(lines), noun1, noun2);
              r.Ok? && r.value != -1 ==> Reaches(s, NounIds(lines)[noun1], NounIds(lines)[noun2])
  {
    NounIdsKeys(lines);
    var m := NounIds(lines);
    if noun1 in m && noun2 in m && 0 <= m[noun1] < |s| {
      DistUnreachable(s, m[noun1], m[noun2]);
    }
  }

  /** Vertex i is on a path from both a and b in the getDist table `D`. */
  predicate Through(D: seq<seq<int>>, a: int, b: int, i: int)
    requires Square(D) && 0 <= a < |D| && 0 <= b < |D|
  {
    0 <= i < |D| && D[a][i] > 0 && D[b][i] > 0
  }

  /** `d` is what distance(a, b) must return: the least of the start value
      (getDist(a, b) when positive, otherwise Integer.MAX_VALUE) and of the
      sums getDist(a, i) + getDist(b, i) over the vertices i both reach. */
  predicate IsMinDistance(D: seq<seq<int>>, a: int, b: int, d: int)
    requires Square(D) && 0 <= a < |D| && 0 <= b < |D|
  {
    var start := if D[a][b] > 0 then D[a][b] else IntMax;
    && d <= start
    && (forall i :: 0 <= i < |D| && Through(D, a, b, i) ==> d <= D[a][i] + D[b][i])
    && (d == start || exists i :: 0 <= i < |D| && Through(D, a, b, i) && d == D[a][i] + D[b][i])
  }

  /** The running minimum of distance(a, b) after its first `k` vertices. */
  function ScanMin(D: seq<seq<int>>, a: int, b: int, k: nat): int
    requires Square(D) && 0 <= a < |D| && 0 <= b < |D| && k <= |D|
  {
    if k == 0 then (if D[a][b] > 0 then D[a][b] else IntMax)
    else
      var m := ScanMin(D, a, b, k - 1);
      var d1, d2 := D[a][k - 1], D[b][k - 1];
      if d1 > 0 && d2 > 0 then (if m <= d2 + d1 then m else d2 + d1) else m
  }

  /** The scan keeps the minimum of the start value and the sums so far. */
  lemma {:induction false} ScanMinIsMin(D: seq<seq<int>>, a: int, b: int, k: nat)
    requires Square(D) && 0 <= a < |D| && 0 <= b < |D| && k <= |D|
    ensures var d := ScanMin(D, a, b, k);
      && d <= (if D[a][b] > 0 then D[a][b] else IntMax)
      && (forall i :: Through(D, a, b, i) && i < k ==> d <= D[a][i] + D[b][i])
      && (d == (if D[a][b] > 0 then D[a][b] else IntMax) || exists i :: Through(D, a, b, i) && i < k && d == D[a][i] + D[b][i])
  {
    if k > 0 {
      ScanMinIsMin(D, a, b, k - 1);
    }
  }

  /** The answer of distance(a, b) over every vertex is the minimum. */
  lemma MinDistanceOfScan(D: seq<seq<int>>, a: int, b: int)
    requires Square(D) && 0 <= a < |D| && 0 <= b < |D|
    ensures IsMinDistance(D, a, b, ScanMin(D, a, b, |D|))
  {
    ScanMinIsMin(D, a, b, |D|);
  }

  /** The minimum is unique. */
  lemma MinDistanceUnique(D: seq<seq<int>>, a: int, b: int, d1: int, d2: int)
    requires Square(D) && 0 <= a < |D| && 0 <= b < |D|
    requires IsMinDistance(D, a, b, d1) && IsMinDistance(D, a, b, d2)
    ensures d1 == d2
  {
  }

  /** sca's answer for vertices v and w of lists `s`: the synset under the
      id that ancestor(v, w) returns on those lists (null when the id has no
      synset); a found id is reachable from both. */
  ghost predicate ScaAnswer(s: seq<seq<int>>, m: map<int, string>, v: int, w: int, ans: Option<string>)
    requires WellFormed(s) && 0 <= v < |s| && 0 <= w < |s|
  {
    exists c ::
      && IsAncestor(DistTable(s), v, w, c)
      && ans == (if c in m then Some(m[c]) else None)
      && (c != -1 ==> Reaches(s, v, c) && Reaches(s, w, c))
  }

  /** The lists fix sca's answer: at most one answer meets ScaAnswer. */
  lemma ScaAnswerUnique(s: seq<seq<int>>, m: map<int, string>, v: int, w: int, a1: Option<string>, a2: Option<string>)
    requires WellFormed(s) && 0 <= v < |s| && 0 <= w < |s|
    requires ScaAnswer(s, m, v, w, a1) && ScaAnswer(s, m, v, w, a2)
    ensures a1 == a2
  {
    var c1 :| IsAncestor(DistTable(s), v, w, c1) && a1 == (if c1 in m then Some(m[c1]) else None);
    var c2 :| IsAncestor(DistTable(s), v, w, c2) && a2 == (if c2 in m then Some(m[c2]) else None);
    AncestorUnique(DistTable(s), v, w, c1, c2);
  }

  class WordNet {
    /** synset id -> the synset line's synonym field */
    const idToSynset: map<int, string>
    /** noun -> id of the first synset listing it */
    const nounToId: map<string, int>
    /** hypernym edges, one vertex per synset id */
    const network: Digraph
    /** the lines the object was built from */
    ghost const synsets: seq<SynsetLine>
    ghost const hypernyms: seq<HypernymLine>
    /** the network's adjacency lists, which nothing changes once built */
    ghost const lists: seq<seq<int>>

    /** The two maps are those the synsets lines give. */
    ghost predicate Maps() {
      idToSynset == IdSynsets(synsets) && nounToId == NounIds(synsets)
    }

    /** The network has one vertex per recorded id and every hypernym
        edge, in file order. */
    ghost predicate Valid()
      reads network, network.adj, network.indegree
    {
      && Maps()
      && WellFormed(lists)
      && network.Valid()
      && network.V == |idToSynset|
      && EdgesBelow(Edges(hypernyms), network.V)
      && network.adj[..] == lists
      && lists == AddAll(Empty(network.V), Edges(hypernyms))
    }

    constructor (idToSynset: map<int, string>, nounToId: map<string, int>, network: Digraph,
                 ghost synsets: seq<SynsetLine>, ghost hypernyms: seq<HypernymLine>, ghost lists: seq<seq<int>>)
      ensures this.idToSynset == idToSynset && this.nounToId == nounToId && this.network == network
      ensures this.synsets == synsets && this.hypernyms == hypernyms && this.lists == lists
    {
      this.idToSynset := idToSynset;
      this.nounToId := nounToId;
      this.network := network;
      this.synsets := synsets;
      this.hypernyms := hypernyms;
      this.lists := lists;
    }

    /** nouns(): the key set of the noun map, every synonym of every line. */
    function Nouns(): (r: set<string>)
      requires Maps()
      ensures forall x :: x in r <==> Listed(synsets, x)
    {
      NounIdsKeys(synsets);
      nounToId.Keys
    }

    /** isNoun(word): whether some line lists the word as a synonym. */
    function IsNoun(word: string): (b: bool)
      requires Maps()
      ensures b <==> Listed(synsets, word)
    {
      NounIdsKeys(synsets);
      word in nounToId
    }

    /** distance(noun1, noun2): the getDist counter between the nouns' ids,
        after both were checked to be nouns. */
    method Distance(noun1: string, noun2: string) returns (r: Result<int>)
      requires Valid()
      ensures r == NounDistance(lists, nounToId, noun1, noun2)
    {
      if !(IsNoun(noun1) && IsNoun(noun2)) {
        return Err(NotANoun);
      }
      var a := nounToId[noun1];
      var b := nounToId[noun2];
      r := network.GetDist(a, b);
    }

    /** distance(id1, id2): the least of getDist(id1, id2), when positive,
        and of getDist(id1, i) + getDist(id2, i) over the vertices i both
        reach, or Integer.MAX_VALUE when there is none. */
    method DistanceIds(id1: int, id2: int) returns (r: Result<int>)
      requires Valid()
      ensures !(0 <= id1 < network.V) ==> r == Err(IndexOutOfBounds(id1))
      ensures 0 <= id1 < network.V && !(0 <= id2 < network.V) ==> r == Err(IndexOutOfBounds(id2))
      ensures 0 <= id1 < network.V && 0 <= id2 < network.V ==>
                r.Ok? && IsMinDistance(DistTable(lists), id1, id2, r.value)
    {
      var d := IntMax;
      var direct := network.GetDist(id1, id2);
      if direct.Err? {
        return Err(direct.error);
      }
      if direct.value > 0 {
        var again := network.GetDist(id1, id2);
        d := again.value;
      }
      // id1 is a vertex, so the loop runs and getDist(id2, 0) fails first
      if !(0 <= id2 < network.V) {
        return Err(IndexOutOfBounds(id2));
      }
      ghost var D := DistTable(lists);
      for i := 0 to network.V
        invariant d == ScanMin(D, id1, id2, i)
      {
        var d1 := network.GetDist(id1, i);
        var d2 := network.GetDist(id2, i);
        if d1.value > 0 && d2.value > 0 {
          var test := d2.value + d1.value;
          d := if d <= test then d else test;
        }
      }
      MinDistanceOfScan(D, id1, id2);
      r := Ok(d);
    }

    /** sca(noun1, noun2): checks the network is a rooted DAG, looks both
        nouns up (an unknown noun unboxes null), asks ancestor(v, w) and
        looks the answer up among the synsets. */
    method Sca(noun1: string, noun2: string) returns (r: Result<Option<string>>)
      requires Valid()
      ensures r == Err(NotRootedDag) <==> !RootedDag(lists)
      ensures RootedDag(lists) && !(noun1 in nounToId && noun2 in nounToId) ==> r == Err(NullLookup)
      ensures RootedDag(lists) && noun1 in nounToId && noun2 in nounToId ==>
                var v, w := nounToId[noun1], nounToId[noun2];
                && (!(0 <= v < network.V) ==> r == Err(IndexOutOfBounds(v)))
                && (0 <= v < network.V && !(0 <= w < network.V) ==> r == Err(IndexOutOfBounds(w)))
                && (0 <= v < network.V && 0 <= w < network.V ==>
                      r.Ok? && ScaAnswer(lists, idToSynset, v, w, r.value))
    {
      var made := NewShortestCommonAncestor(network);
      if made.Err? {
        return Err(NotRootedDag);
      }
      var sca := made.value;
      if noun1 !in nounToId || noun2 !in nounToId {
        return Err(NullLookup);
      }
      var v := nounToId[noun1];
      var w := nounToId[noun2];
      if !(0 <= v < sca.graph.V) {
        return Err(IndexOutOfBounds(v));
      }
      if !(0 <= w < sca.graph.V) {
        return Err(IndexOutOfBounds(w));
      }
      var ans := AskAncestor(sca, lists, idToSynset, v, w);
      r := Ok(ans);
    }
  }

  /** `s.ancestor(v, w)` and the synset lookup of sca, for the
      ShortestCommonAncestor object `sca` built on a copy of the lists `s`. */
  method AskAncestor(sca: ShortestCommonAncestor, ghost s: seq<seq<int>>, m: map<int, string>, v: int, w: int)
    returns (ans: Option<string>)
    requires sca.Shape() && sca.graph.adj[..] == s
    requires 0 <= v < sca.graph.V && 0 <= w < sca.graph.V
    ensures ScaAnswer(s, m, v, w, ans)
  {
    var found := sca.Ancestor(v, w);
    var c := found.value;
    if c != -1 {
      AncestorIsCommon(s, v, w, c);
    }
    ans := if c in m then Some(m[c]) else None;
  }

  /** new WordNet(synsets, hypernyms) on the lines of the two files: the
      network has one vertex per recorded synset id; an out-of-range
      hypernym id aborts with addEdge's exception. */
  method NewWordNet(synsets: seq<SynsetLine>, hypernyms: seq<HypernymLine>) returns (r: Result<WordNet>)
    ensures r.Ok? <==> EdgesBelow(Edges(hypernyms), |IdSynsets(synsets)|)
    ensures r.Err? ==> r.error == RangeError(Edges(hypernyms), |IdSynsets(synsets)|)
    ensures r.Ok? ==> r.value.Valid() && r.value.synsets == synsets && r.value.hypernyms == hypernyms
    ensures r.Ok? ==> fresh(r.value.network) && fresh(r.value.network.adj) && fresh(r.value.network.indegree)
  {
    var idToSynset, nounToId := ReadSynsets(synsets);
    var network := new Digraph.Init(|idToSynset|);
    var o := ReadHypernyms(network, hypernyms);
    if o.Fail? {
      return Err(o.error);
    }
    var w := new WordNet(idToSynset, nounToId, network, synsets, hypernyms, network.adj[..]);
    r := Ok(w);
  }
}
