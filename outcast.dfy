/** Outcast: the noun whose summed distance to the other nouns is the
    largest. */
module Outcasts {
  import opened Base
  import opened Adjacency
  import opened Ancestors
  import opened WordNets

  /** A square table of distance(...) answers. */
  predicate Grid(R: seq<seq<Result<int>>>) {
    forall a :: 0 <= a < |R| ==> |R[a]| == |R|
  }

  /** R[a][b] is what distance(nouns[a], nouns[b]) returns on lists `s`
      and noun map `m`. */
  ghost predicate IsDistanceTable(R: seq<seq<Result<int>>>, s: seq<seq<int>>, m: map<string, int>, nouns: seq<string>)
    requires WellFormed(s)
  {
    && Grid(R) && |R| == |nouns|
    && forall a, b :: 0 <= a < |R| && 0 <= b < |R| ==> R[a][b] == NounDistance(s, m, nouns[a], nouns[b])
  }

  ghost function DistanceTable(s: seq<seq<int>>, m: map<string, int>, nouns: seq<string>): (R: seq<seq<Result<int>>>)
    requires WellFormed(s)
    ensures IsDistanceTable(R, s, m, nouns)
  {
    var R0 := seq(|nouns|, a requires 0 <= a < |nouns| =>
      seq(|nouns|, b requires 0 <= b < |nouns| => NounDistance(s, m, nouns[a], nouns[b])));
    assert IsDistanceTable(R0, s, m, nouns);
    var R :| IsDistanceTable(R, s, m, nouns);
    R
  }

  /** The pair of positions (a, b) is asked for and its distance fails.
      Positions, not contents, are compared: the loop skips a noun only
      against itself. */
  predicate Fails(R: seq<seq<Result<int>>>, a: int, b: int)
    requires Grid(R)
  {
    0 <= a < |R| && 0 <= b < |R| && a != b && R[a][b].Err?
  }

  /** (a, b) is the first failing pair in loop order. */
  predicate FirstFailure(R: seq<seq<Result<int>>>, a: int, b: int)
    requires Grid(R)
  {
    Fails(R, a, b) && forall a2, b2 :: 0 <= a2 < |R| && 0 <= b2 < |R| && Before(a2, b2, a, b) ==> !Fails(R, a2, b2)
  }

  /** The sum of the successful distances from noun a to the first `k`
      other nouns. */
  function Total(R: seq<seq<Result<int>>>, a: int, k: nat): int
    requires Grid(R) && 0 <= a < |R| && k <= |R|
  {
    if k == 0 then 0
    else Total(R, a, k - 1) + (if a == k - 1 || R[a][k - 1].Err? then 0 else R[a][k - 1].value)
  }

  /** `distance` of the inner loop for noun a after its first `k` nouns:
      the first failure stops the loop. */
  function RowSum(R: seq<seq<Result<int>>>, a: int, k: nat): Result<int>
    requires Grid(R) && 0 <= a < |R| && k <= |R|
  {
    if k == 0 then Ok(0)
    else
      var t := RowSum(R, a, k - 1);
      if t.Err? || a == k - 1 then t
      else if R[a][k - 1].Err? then Err(R[a][k - 1].error)
      else Ok(t.value + R[a][k - 1].value)
  }

  /** One step of the inner loop. */
  lemma RowSumStep(R: seq<seq<Result<int>>>, a: int, k: nat, t: int)
    requires Grid(R) && 0 <= a < |R| && k < |R| && RowSum(R, a, k) == Ok(t)
    ensures a == k ==> RowSum(R, a, k + 1) == Ok(t)
    ensures a != k && R[a][k].Err? ==> RowSum(R, a, k + 1) == Err(R[a][k].error)
    ensures a != k && R[a][k].Ok? ==> RowSum(R, a, k + 1) == Ok(t + R[a][k].value)
  {
  }

  /** maxValue and outcastNoun of the outer loop. */
  datatype Pick = Pick(max: int, noun: string)

  /** The outer loop after its first `k` nouns. */
  function ScanOutcast(R: seq<seq<Result<int>>>, nouns: seq<string>, k: nat): Result<Pick>
    requires Grid(R) && |nouns| == |R| && k <= |R|
  {
    if k == 0 then Ok(Pick(0, ""))
    else
      var p := ScanOutcast(R, nouns, k - 1);
      if p.Err? then p
      else
        var t := RowSum(R, k - 1, |R|);
        if t.Err? then Err(t.error)
        else if t.value > p.value.max then Ok(Pick(t.value, nouns[k - 1]))
        else p
  }

  /** What outcast(nouns) returns. */
  function OutcastOf(R: seq<seq<Result<int>>>, nouns: seq<string>): Result<string>
    requires Grid(R) && |nouns| == |R|
  {
    var p := ScanOutcast(R, nouns, |R|);
    if p.Err? then Err(p.error) else Ok(p.value.noun)
  }

  /** Every noun before position a has a total below `m`. */
  predicate EarlierBelow(R: seq<seq<Result<int>>>, a: int, m: int)
    requires Grid(R) && a <= |R|
  {
    forall a2 :: 0 <= a2 < a ==> Total(R, a2, |R|) < m
  }

  /** Noun a has a positive total, no noun has a larger one and every
      earlier noun a smaller one. */
  predicate IsOutcast(R: seq<seq<Result<int>>>, a: int)
    requires Grid(R)
  {
    && 0 <= a < |R|
    && Total(R, a, |R|) > 0
    && (forall a2 :: 0 <= a2 < |R| ==> Total(R, a2, |R|) <= Total(R, a, |R|))
    && EarlierBelow(R, a, Total(R, a, |R|))
  }

  /** The inner loop sums the distances until the first failure, which it
      returns. */
  lemma {:induction false} RowSumSpec(R: seq<seq<Result<int>>>, a: int, k: nat)
    requires Grid(R) && 0 <= a < |R| && k <= |R|
    ensures (forall b :: 0 <= b < k ==> !Fails(R, a, b)) ==> RowSum(R, a, k) == Ok(Total(R, a, k))
    ensures forall b :: 0 <= b < k && Fails(R, a, b) && (forall b2 :: 0 <= b2 < b ==> !Fails(R, a, b2)) ==>
              RowSum(R, a, k) == Err(R[a][b].error)
  {
    if k > 0 {
      RowSumSpec(R, a, k - 1);
      if forall b :: 0 <= b < k ==> !Fails(R, a, b) {
        assert !Fails(R, a, k - 1);
        assert RowSum(R, a, k - 1) == Ok(Total(R, a, k - 1));
      }
    }
  }

  /** A failed inner loop stays failed. */
  lemma {:induction false} RowSumStops(R: seq<seq<Result<int>>>, a: int, k: nat, k2: nat)
    requires Grid(R) && 0 <= a < |R| && k <= k2 <= |R| && RowSum(R, a, k).Err?
    ensures RowSum(R, a, k2) == RowSum(R, a, k)
  {
    if k < k2 {
      RowSumStops(R, a, k, k2 - 1);
    }
  }

  /** A failed outer loop stays failed. */
  lemma {:induction false} ScanOutcastStops(R: seq<seq<Result<int>>>, nouns: seq<string>, k: nat, k2: nat)
    requires Grid(R) && |nouns| == |R| && k <= k2 <= |R| && ScanOutcast(R, nouns, k).Err?
    ensures ScanOutcast(R, nouns, k2) == ScanOutcast(R, nouns, k)
  {
    if k < k2 {
      ScanOutcastStops(R, nouns, k, k2 - 1);
    }
  }

  /** One step of the outer loop. */
  lemma ScanOutcastStep(R: seq<seq<Result<int>>>, nouns: seq<string>, k: nat, p: Pick, t: Result<int>)
    requires Grid(R) && |nouns| == |R| && k < |R|
    requires ScanOutcast(R, nouns, k) == Ok(p) && RowSum(R, k, |R|) == t
    ensures t.Err? ==> ScanOutcast(R, nouns, k + 1) == Err(t.error)
    ensures t.Ok? ==> ScanOutcast(R, nouns, k + 1) == Ok(if t.value > p.max then Pick(t.value, nouns[k]) else p)
  {
  }

  /** Without failures in its first `k` rows the outer loop keeps the first
      strictly largest positive total, or "" while none is positive. */
  lemma {:induction false} ScanOutcastOk(R: seq<seq<Result<int>>>, nouns: seq<string>, k: nat)
    requires Grid(R) && |nouns| == |R| && k <= |R|
    requires forall a, b :: 0 <= a < k && 0 <= b < |R| ==> !Fails(R, a, b)
    ensures ScanOutcast(R, nouns, k).Ok?
    ensures var p := ScanOutcast(R, nouns, k).value;
      && p.max >= 0
      && (forall a :: 0 <= a < k ==> Total(R, a, |R|) <= p.max)
      && (p.max == 0 ==> p.noun == "")
      && (p.max > 0 ==> exists a :: 0 <= a < k && Total(R, a, |R|) == p.max && p.noun == nouns[a] && EarlierBelow(R, a, p.max))
  {
    if k > 0 {
      ScanOutcastOk(R, nouns, k - 1);
      var p := ScanOutcast(R, nouns, k - 1).value;
      RowSumSpec(R, k - 1, |R|);
      var t := Total(R, k - 1, |R|);
      assert RowSum(R, k - 1, |R|) == Ok(t);
      if t > p.max {
        assert ScanOutcast(R, nouns, k).value == Pick(t, nouns[k - 1]);
        assert EarlierBelow(R, k - 1, t);
      } else {
        assert ScanOutcast(R, nouns, k).value == p;
        if p.max > 0 {
          var c :| 0 <= c < k - 1 && Total(R, c, |R|) == p.max && p.noun == nouns[c] && EarlierBelow(R, c, p.max);
        }
      }
    }
  }

  /** The first failing pair decides the outer loop's error. */
  lemma {:induction false} ScanOutcastErr(R: seq<seq<Result<int>>>, nouns: seq<string>, k: nat, a: int, b: int)
    requires Grid(R) && |nouns| == |R| && k <= |R|
    requires FirstFailure(R, a, b) && a < k
    ensures ScanOutcast(R, nouns, k) == Err(R[a][b].error)
  {
    if a < k - 1 {
      ScanOutcastErr(R, nouns, k - 1, a, b);
    } else {
      forall a2, b2 | 0 <= a2 < a && 0 <= b2 < |R| ensures !Fails(R, a2, b2) {
        assert Before(a2, b2, a, b);
      }
      ScanOutcastOk(R, nouns, a);
      forall b2 | 0 <= b2 < b ensures !Fails(R, a, b2) {
        assert Before(a, b2, a, b);
      }
      RowSumSpec(R, a, |R|);
    }
  }

  /** Some failing pair comes first. */
  lemma FirstFailureExists(R: seq<seq<Result<int>>>, a: int, b: int)
    requires Grid(R) && Fails(R, a, b)
    ensures exists a2, b2 :: FirstFailure(R, a2, b2)
    decreases a, b
  {
    if !FirstFailure(R, a, b) {
      var a2, b2 :| 0 <= a2 < |R| && 0 <= b2 < |R| && Before(a2, b2, a, b) && Fails(R, a2, b2);
      FirstFailureExists(R, a2, b2);
    }
  }

  /** outcast(nouns) fails exactly when some distance between two
      positions fails, with the first such failure; otherwise it returns
      the first noun of strictly largest positive total, or "" when no
      total is positive. */
  lemma OutcastOfSpec(R: seq<seq<Result<int>>>, nouns: seq<string>)
    requires Grid(R) && |nouns| == |R|
    ensures OutcastOf(R, nouns).Err? <==> exists a, b :: Fails(R, a, b)
    ensures forall a, b :: FirstFailure(R, a, b) ==> OutcastOf(R, nouns) == Err(R[a][b].error)
    ensures (forall a :: 0 <= a < |R| ==> Total(R, a, |R|) <= 0) && OutcastOf(R, nouns).Ok? ==>
              OutcastOf(R, nouns).value == ""
    ensures (exists a :: 0 <= a < |R| && Total(R, a, |R|) > 0) && OutcastOf(R, nouns).Ok? ==>
              exists a :: IsOutcast(R, a) && OutcastOf(R, nouns).value == nouns[a]
  {
    forall a, b | FirstFailure(R, a, b) ensures OutcastOf(R, nouns) == Err(R[a][b].error) {
      ScanOutcastErr(R, nouns, |R|, a, b);
    }
    if a, b :| Fails(R, a, b) {
      FirstFailureExists(R, a, b);
    } else {
      ScanOutcastOk(R, nouns, |R|);
      var p := ScanOutcast(R, nouns, |R|).value;
      if a :| 0 <= a < |R| && Total(R, a, |R|) > 0 {
        assert Total(R, a, |R|) <= p.max;
        var c :| 0 <= c < |R| && Total(R, c, |R|) == p.max && p.noun == nouns[c] && EarlierBelow(R, c, p.max);
        assert IsOutcast(R, c);
      }
    }
  }

  class Outcast {
    const wordNet: WordNet

    constructor (wordnet: WordNet)
      ensures wordNet == wordnet
    {
      wordNet := wordnet;
    }

    /** The inner loop of outcast(nouns) for the noun at position `a`: the
        sum of its distances to the nouns at the other positions. */
    method RowDistance(nouns: seq<string>, a: int) returns (r: Result<int>)
      requires wordNet.Valid() && 0 <= a < |nouns|
      ensures r == RowSum(DistanceTable(wordNet.lists, wordNet.nounToId, nouns), a, |nouns|)
    {
      ghost var R := DistanceTable(wordNet.lists, wordNet.nounToId, nouns);
      var distance := 0;
      for b := 0 to |nouns|
        invariant RowSum(R, a, b) == Ok(distance)
      {
        RowSumStep(R, a, b, distance);
        if a != b {
          var d := wordNet.Distance(nouns[a], nouns[b]);
          if d.Err? {
            RowSumStops(R, a, b + 1, |R|);
            return Err(d.error);
          }
          distance := distance + d.value;
        }
      }
      r := Ok(distance);
    }

    /** outcast(nouns): for each noun the sum of its distances to the nouns
        at the other positions; a strictly larger sum than the best so far
        (from 0) makes it the outcast. */
    method Outcast(nouns: seq<string>) returns (r: Result<string>)
      requires wordNet.Valid()
      ensures r == OutcastOf(DistanceTable(wordNet.lists, wordNet.nounToId, nouns), nouns)
    {
      ghost var R := DistanceTable(wordNet.lists, wordNet.nounToId, nouns);
      var maxValue := 0;
      var outcastNoun := "";
      for a := 0 to |nouns|
        invariant ScanOutcast(R, nouns, a) == Ok(Pick(maxValue, outcastNoun))
      {
        var distance := RowDistance(nouns, a);
        ScanOutcastStep(R, nouns, a, Pick(maxValue, outcastNoun), distance);
        if distance.Err? {
          ScanOutcastStops(R, nouns, a + 1, |R|);
          return Err(distance.error);
        }
        if distance.value > maxValue {
          maxValue := distance.value;
          outcastNoun := nouns[a];
        }
      }
      r := Ok(outcastNoun);
    }
  }
}
