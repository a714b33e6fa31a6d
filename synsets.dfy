/** The already-read lines of the two WordNet input files, and the maps and
    edges the WordNet constructor derives from them. */
module Synsets {
  /** A line of the synsets file after `split(",")`: the parsed id
      (elements[0]) and the synonym field (elements[1]). */
  datatype SynsetLine = SynsetLine(id: int, field: string)

  /** A line of the hypernyms file after `split(",")`: the parsed id and the
      parsed parent ids (elements[1..]). */
  datatype HypernymLine = HypernymLine(id: int, parents: seq<int>)

  /** Position of the first space of `s`. */
  function SpaceIndex(s: string): (k: nat)
    requires ' ' in s
    ensures k < |s| && s[k] == ' ' && ' ' !in s[..k]
  {
    if s[0] == ' ' then 0
    else
      var k := SpaceIndex(s[1..]);
      assert s[..k + 1] == [s[0]] + s[1..][..k];
      k + 1
  }

  /** The pieces of `s` between single spaces, empty pieces included. */
  function Pieces(s: string): (r: seq<string>)
    ensures |r| >= 1
    ensures forall i :: 0 <= i < |r| ==> ' ' !in r[i]
    decreases |s|
  {
    if ' ' !in s then [s]
    else
      var k := SpaceIndex(s);
      [s[..k]] + Pieces(s[k + 1..])
  }

  /** The pieces joined back with single spaces. */
  function Join(p: seq<string>): string
    requires |p| >= 1
  {
    if |p| == 1 then p[0] else p[0] + " " + Join(p[1..])
  }

  lemma {:induction false} PiecesJoin(s: string)
    ensures Join(Pieces(s)) == s
    decreases |s|
  {
    if ' ' in s {
      var k := SpaceIndex(s);
      var rest := s[k + 1..];
      PiecesJoin(rest);
      var p := Pieces(s);
      assert p == [s[..k]] + Pieces(rest);
      assert p[0] == s[..k] && p[1..] == Pieces(rest);
      assert Join(p) == s[..k] + " " + rest;
      assert s == s[..k] + [s[k]] + rest;
    }
  }

  /** Drops the empty strings at the end. */
  function DropTrailingEmpty(p: seq<string>): (r: seq<string>)
    ensures r <= p
    ensures r != [] ==> r[|r| - 1] != ""
    ensures forall i :: |r| <= i < |p| ==> p[i] == ""
  {
    if p != [] && p[|p| - 1] == "" then DropTrailingEmpty(p[..|p| - 1]) else p
  }

  /** Java's `split(" ")`: the string itself when it has no space; otherwise
      the pieces between spaces with the trailing empty ones removed (so a
      field of spaces only has no synonyms at all). */
  function Split(s: string): (r: seq<string>)
    ensures forall i :: 0 <= i < |r| ==> ' ' !in r[i]
  {
    if ' ' !in s then [s] else DropTrailingEmpty(Pieces(s))
  }

  /** Splitting loses nothing but trailing empty pieces: with them added
      back, joining with spaces gives the field again. */
  lemma SplitRecovers(s: string)
    ensures Split(s) <= Pieces(s)
    ensures forall i :: |Split(s)| <= i < |Pieces(s)| ==> Pieces(s)[i] == ""
    ensures Join(Pieces(s)) == s
  {
    PiecesJoin(s);
  }

  /** The synonyms of one line entered into noun->id, in order; a noun
      already present keeps its id. */
  function AddNouns(m: map<string, int>, vs: seq<string>, id: int): map<string, int> {
    if vs == [] then m
    else
      var m2 := AddNouns(m, vs[..|vs| - 1], id);
      var x := vs[|vs| - 1];
      if x in m2 then m2 else m2[x := id]
  }

  /** The noun->id map after the given synset lines. */
  function NounIds(lines: seq<SynsetLine>): map<string, int> {
    if lines == [] then map[]
    else
      var n := |lines| - 1;
      AddNouns(NounIds(lines[..n]), Split(lines[n].field), lines[n].id)
  }

  /** The id->synset map after the given synset lines: a line with at least
      one synonym records its whole field under its id. */
  function IdSynsets(lines: seq<SynsetLine>): map<int, string> {
    if lines == [] then map[]
    else
      var n := |lines| - 1;
      var m := IdSynsets(lines[..n]);
      if Split(lines[n].field) == [] then m else m[lines[n].id := lines[n].field]
  }

  lemma {:induction false} AddNounsSpec(m: map<string, int>, vs: seq<string>, id: int)
    ensures forall x :: x in AddNouns(m, vs, id) <==> x in m || x in vs
    ensures forall x :: x in m ==> AddNouns(m, vs, id)[x] == m[x]
    ensures forall x :: x in vs && x !in m ==> AddNouns(m, vs, id)[x] == id
  {
    if vs != [] {
      var init := vs[..|vs| - 1];
      AddNounsSpec(m, init, id);
      assert vs == init + [vs[|vs| - 1]];
    }
  }

  /** `x` is a synonym on some line. */
  ghost predicate Listed(lines: seq<SynsetLine>, x: string) {
    exists k :: 0 <= k < |lines| && x in Split(lines[k].field)
  }

  /** The nouns are exactly the synonyms of the lines. */
  lemma {:induction false} NounIdsKeys(lines: seq<SynsetLine>)
    ensures forall x :: x in NounIds(lines) <==> Listed(lines, x)
  {
    if lines != [] {
      var n := |lines| - 1;
      NounIdsKeys(lines[..n]);
      AddNounsSpec(NounIds(lines[..n]), Split(lines[n].field), lines[n].id);
      forall x | x in NounIds(lines) ensures exists k :: 0 <= k < |lines| && x in Split(lines[k].field) {
        if x !in Split(lines[n].field) {
          var k :| 0 <= k < n && x in Split(lines[..n][k].field);
          assert lines[..n][k] == lines[k];
        }
      }
      forall x, k | 0 <= k < |lines| && x in Split(lines[k].field) ensures x in NounIds(lines) {
        if k < n {
          assert lines[..n][k] == lines[k];
        }
      }
    }
  }

  /** Each noun keeps the id of the first line listing it. */
  lemma {:induction false} NounIdsFirst(lines: seq<SynsetLine>, x: string, k: int)
    requires 0 <= k < |lines| && x in Split(lines[k].field)
    requires forall k2 :: 0 <= k2 < k ==> x !in Split(lines[k2].field)
    ensures x in NounIds(lines) && NounIds(lines)[x] == lines[k].id
  {
    var n := |lines| - 1;
    var prev := lines[..n];
    AddNounsSpec(NounIds(prev), Split(lines[n].field), lines[n].id);
    NounIdsKeys(prev);
    if k < n {
      assert prev[k] == lines[k];
      forall k2 | 0 <= k2 < k ensures x !in Split(prev[k2].field) {
        assert prev[k2] == lines[k2];
      }
      NounIdsFirst(prev, x, k);
    } else {
      assert x !in NounIds(prev) by {
        forall k2 | 0 <= k2 < n ensures x !in Split(prev[k2].field) {
          assert prev[k2] == lines[k2];
        }
      }
    }
  }

  /** Line k has id `id` and at least one synonym. */
  predicate Records(lines: seq<SynsetLine>, k: int, id: int) {
    0 <= k < |lines| && lines[k].id == id && Split(lines[k].field) != []
  }

  /** An id has a synset exactly when some line with that id has a synonym. */
  lemma {:induction false} IdSynsetsKeys(lines: seq<SynsetLine>, id: int)
    ensures id in IdSynsets(lines) <==> exists k :: Records(lines, k, id)
  {
    if lines != [] {
      var n := |lines| - 1;
      var prev := lines[..n];
      IdSynsetsKeys(prev, id);
      if Records(lines, n, id) {
        assert id in IdSynsets(lines);
      } else {
        assert IdSynsets(lines) == IdSynsets(prev) || lines[n].id != id;
        if id in IdSynsets(lines) {
          var k :| Records(prev, k, id);
          assert prev[k] == lines[k];
          assert Records(lines, k, id);
        }
        if k :| Records(lines, k, id) {
          assert prev[k] == lines[k];
          assert Records(prev, k, id);
        }
      }
    }
  }

  /** The synset of an id is the field of the last line recording it. */
  lemma {:induction false} IdSynsetsLast(lines: seq<SynsetLine>, id: int, k: int)
    requires Records(lines, k, id)
    requires forall k2 :: k < k2 ==> !Records(lines, k2, id)
    ensures id in IdSynsets(lines) && IdSynsets(lines)[id] == lines[k].field
  {
    var n := |lines| - 1;
    var prev := lines[..n];
    if k < n {
      assert !Records(lines, n, id);
      assert prev[k] == lines[k];
      forall k2 | k < k2 ensures !Records(prev, k2, id) {
        if k2 < n {
          assert prev[k2] == lines[k2];
          assert !Records(lines, k2, id);
        }
      }
      IdSynsetsLast(prev, id, k);
    }
  }

  /** The edges id->parent of one hypernym line, in order. */
  function ParentEdges(l: HypernymLine): (r: seq<(int, int)>)
    ensures |r| == |l.parents|
    ensures forall i :: 0 <= i < |r| ==> r[i] == (l.id, l.parents[i])
  {
    seq(|l.parents|, i requires 0 <= i < |l.parents| => (l.id, l.parents[i]))
  }

  /** Every addEdge call of the hypernym loop, in order. */
  function Edges(lines: seq<HypernymLine>): seq<(int, int)> {
    if lines == [] then []
    else
      var n := |lines| - 1;
      Edges(lines[..n]) + ParentEdges(lines[n])
  }

  /** Parent i of line k is w and the line's id is v. */
  predicate Lists(lines: seq<HypernymLine>, k: int, i: int, v: int, w: int) {
    0 <= k < |lines| && 0 <= i < |lines[k].parents| && lines[k].id == v && lines[k].parents[i] == w
  }

  /** The edges are exactly the (id, parent) pairs the lines list. */
  lemma {:induction false} EdgesListed(lines: seq<HypernymLine>, v: int, w: int)
    ensures (v, w) in Edges(lines) <==> exists k, i :: Lists(lines, k, i, v, w)
  {
    if lines != [] {
      var n := |lines| - 1;
      var prev := lines[..n];
      var last := ParentEdges(lines[n]);
      EdgesListed(prev, v, w);
      assert Edges(lines) == Edges(prev) + last;
      if (v, w) in Edges(prev) {
        var k, i :| Lists(prev, k, i, v, w);
        assert prev[k] == lines[k];
        assert Lists(lines, k, i, v, w);
      } else if (v, w) in last {
        var i :| 0 <= i < |last| && last[i] == (v, w);
        assert Lists(lines, n, i, v, w);
      }
      if k, i :| Lists(lines, k, i, v, w) {
        if k < n {
          assert prev[k] == lines[k];
          assert Lists(prev, k, i, v, w);
        } else {
          assert last[i] == (v, w);
        }
      }
    }
  }

  /** The edges of a prefix of the lines come first. */
  lemma {:induction false} EdgesPrefix(lines: seq<HypernymLine>, i: nat)
    requires i < |lines|
    ensures Edges(lines[..i]) + ParentEdges(lines[i]) <= Edges(lines)
    decreases |lines|
  {
    var n := |lines| - 1;
    assert lines[..n + 1] == lines;
    if i < n {
      EdgesPrefix(lines[..n], i);
      assert lines[..n][..i] == lines[..i];
      assert lines[..n][i] == lines[i];
    } else {
      assert lines[..n] == lines[..i];
    }
  }
}
