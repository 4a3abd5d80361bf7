/**
 * The second stage of the pipeline: every country ring of a sector loses vertices, one at a time,
 * as long as the smaller ring still covers the original and stays clear of the other countries.
 */
module VertexReduce {
  import opened Common
  import opened Shapes
  import opened Seqs

  // ----------------------------------------------------- reduce_polygon_points

  /**
   * A candidate ring is accepted when its shape intersects none of the other rings and still
   * contains the original shape.
   */
  predicate Accepts<S>(g: Geometry<S>, test: Ring, others: seq<Ring>, original: S)
  {
    !IntersectsAny(g, g.polygon(test), others) && g.contains(g.polygon(test), original)
  }

  /** No single vertex of `ring` before index i can be removed. */
  predicate RejectedBefore<S>(g: Geometry<S>, ring: Ring, others: seq<Ring>, original: S, i: int)
    requires i <= |ring|
  {
    forall k :: 0 <= k < i ==> !Accepts(g, RemoveAt(ring, k), others, original)
  }

  /**
   * The while loop from state (reduced, i): an accepted removal restarts the scan at index 0 on the
   * shorter ring, a rejected one moves to the next index. The measure is (length, length - i).
   */
  function ReduceFrom<S>(g: Geometry<S>, others: seq<Ring>, original: S, reduced: Ring, i: nat): (r: Ring)
    requires i <= |reduced|
    requires |reduced| > 4 ==> RejectedBefore(g, reduced, others, original, i)
    ensures IsSubsequence(r, reduced)
    ensures |reduced| <= 4 ==> r == reduced
    ensures |reduced| > 4 ==> |r| >= 4
    ensures r != reduced ==> Accepts(g, r, others, original)
    ensures |r| > 4 ==> RejectedBefore(g, r, others, original, |r|)
    decreases |reduced|, |reduced| - i
  {
    if i < |reduced| && |reduced| > 4 then
      var test := RemoveAt(reduced, i);
      if Accepts(g, test, others, original) then
        var r := ReduceFrom(g, others, original, test, 0);
        RemoveAtSubsequence(reduced, i);
        SubsequenceTrans(r, test, reduced);
        SubsequenceElements(test, reduced);
        r
      else
        ReduceFrom(g, others, original, reduced, i + 1)
    else
      SubsequenceRefl(reduced);
      reduced
  }

  /** The result of `reduce_polygon_points(ring, others)`. */
  function Reduce<S>(g: Geometry<S>, ring: Ring, others: seq<Ring>): (r: Ring)
    ensures IsSubsequence(r, ring)
    ensures |ring| <= 4 ==> r == ring
    ensures |ring| > 4 ==> |r| >= 4
  {
    ReduceFrom(g, others, g.polygon(ring), ring, 0)
  }

  /**
   * `reduce_polygon_points`: the loop works on copies, so the caller's ring is left as it is (the
   * model's rings are values), and the result is the reduction of the ring against the others.
   */
  method ReducePolygonPoints<S>(g: Geometry<S>, polygonList: Ring, otherPolygonsList: seq<Ring>)
    returns (reduced: Ring)
    ensures reduced == Reduce(g, polygonList, otherPolygonsList)
  {
    reduced := polygonList;
    var originalPolygon := g.polygon(polygonList);
    var i := 0;
    while i < |reduced| && |reduced| > 4
      invariant i <= |reduced|
      invariant |reduced| > 4 ==> RejectedBefore(g, reduced, otherPolygonsList, originalPolygon, i)
      invariant ReduceFrom(g, otherPolygonsList, originalPolygon, reduced, i) == Reduce(g, polygonList, otherPolygonsList)
      decreases |reduced|, |reduced| - i
    {
      var testPolygonList := reduced;
      testPolygonList := testPolygonList[..i] + testPolygonList[i + 1..];
      var testPolygon := g.polygon(testPolygonList);
      if !IntersectsAny(g, testPolygon, otherPolygonsList) && g.contains(testPolygon, originalPolygon) {
        assert testPolygonList == RemoveAt(reduced, i);
        reduced := testPolygonList;
        i := 0;
      } else {
        assert testPolygonList == RemoveAt(reduced, i);
        i := i + 1;
      }
    }
  }

  /**
   * The properties of one reduction: a ring of at most four vertices is returned unchanged, a longer
   * one keeps at least four, the result is the ring with some vertices deleted (in order), a changed
   * result passes the intersect/contains test, and when more than four vertices remain no single
   * further removal passes it.
   */
  lemma ReduceSpec<S>(g: Geometry<S>, ring: Ring, others: seq<Ring>)
    ensures var r := Reduce(g, ring, others);
      IsSubsequence(r, ring) &&
      (|ring| <= 4 ==> r == ring) &&
      (|ring| > 4 ==> |r| >= 4) &&
      (r != ring ==> Accepts(g, r, others, g.polygon(ring))) &&
      (|r| > 4 ==> forall k :: 0 <= k < |r| ==> !Accepts(g, RemoveAt(r, k), others, g.polygon(ring)))
  {
  }

  /** A reduced ring that nothing more can be removed from is a fixpoint of the loop. */
  lemma {:induction false} ReduceStable<S>(g: Geometry<S>, ring: Ring, others: seq<Ring>, original: S, i: nat)
    requires i <= |ring|
    requires |ring| > 4 ==> RejectedBefore(g, ring, others, original, |ring|)
    ensures ReduceFrom(g, others, original, ring, i) == ring
    decreases |ring| - i
  {
    if i < |ring| && |ring| > 4 {
      ReduceStable(g, ring, others, original, i + 1);
    }
  }

  // ----------------------------------------------------------- simplify_sector

  /** A sector file: country code to its list of rings, in file order. */
  type SectorData = seq<(string, seq<Ring>)>

  /** `[item for key, value in data if key != country for item in value]`. */
  function ForeignRings(data: SectorData, country: string): (r: seq<Ring>)
    ensures |r| <= |AllRings(data)|
  {
    if data == [] then [] else (if data[0].0 != country then data[0].1 else []) + ForeignRings(data[1..], country)
  }

  /** Every ring of every entry, in order. */
  function AllRings(data: SectorData): seq<Ring>
  {
    if data == [] then [] else data[0].1 + AllRings(data[1..])
  }

  /** Each ring of a country reduced against the same foreign rings. */
  function ReduceAll<S>(g: Geometry<S>, rings: seq<Ring>, foreign: seq<Ring>): (r: seq<Ring>)
    ensures |r| == |rings|
  {
    seq(|rings|, q requires 0 <= q < |rings| => Reduce(g, rings[q], foreign))
  }

  /** The sector after the loop has visited its first k countries. */
  function SectorAfter<S>(g: Geometry<S>, data: SectorData, k: nat): (r: SectorData)
    requires k <= |data|
    ensures |r| == |data|
    ensures forall m :: 0 <= m < |data| ==> r[m].0 == data[m].0 && |r[m].1| == |data[m].1|
    ensures forall m :: k <= m < |data| ==> r[m] == data[m]
  {
    if k == 0 then data
    else
      var d := SectorAfter(g, data, k - 1);
      d[k - 1 := (d[k - 1].0, ReduceAll(g, d[k - 1].1, ForeignRings(d, d[k - 1].0)))]
  }

  /**
   * The loop of `simplify_sector`: in key order, every ring of a country is replaced by its
   * reduction against the current rings of every other country.
   */
  method SimplifySector<S>(g: Geometry<S>, sectorData: SectorData) returns (data: SectorData)
    ensures data == SectorAfter(g, sectorData, |sectorData|)
  {
    data := sectorData;
    for k := 0 to |data|
      invariant |data| == |sectorData|
      invariant data == SectorAfter(g, sectorData, k)
    {
      var country := data[k].0;
      var restPolygons := ForeignRings(data, country);
      var results: seq<Ring> := [];
      for q := 0 to |data[k].1|
        invariant |results| == q
        invariant forall m :: 0 <= m < q ==> results[m] == Reduce(g, data[k].1[m], restPolygons)
      {
        var reduced := ReducePolygonPoints(g, data[k].1[q], restPolygons);
        results := results + [reduced];
      }
      assert results == ReduceAll(g, data[k].1, restPolygons);
      data := data[k := (country, results)];
    }
  }

  lemma {:induction false} ForeignRingsAppend(a: SectorData, b: SectorData, country: string)
    ensures ForeignRings(a + b, country) == ForeignRings(a, country) + ForeignRings(b, country)
  {
    if a == [] {
      assert a + b == b;
    } else {
      assert (a + b)[0] == a[0];
      assert (a + b)[1..] == a[1..] + b;
      ForeignRingsAppend(a[1..], b, country);
    }
  }

  lemma {:induction false} AllRingsAppend(a: SectorData, b: SectorData)
    ensures AllRings(a + b) == AllRings(a) + AllRings(b)
  {
    if a == [] {
      assert a + b == b;
    } else {
      assert (a + b)[0] == a[0];
      assert (a + b)[1..] == a[1..] + b;
      AllRingsAppend(a[1..], b);
    }
  }

  lemma {:induction false} ForeignRingsNoKey(data: SectorData, country: string)
    requires forall m :: 0 <= m < |data| ==> data[m].0 != country
    ensures ForeignRings(data, country) == AllRings(data)
  {
    if data != [] {
      ForeignRingsNoKey(data[1..], country);
    }
  }

  predicate DistinctKeys(data: SectorData)
  {
    forall a, b :: 0 <= a < b < |data| ==> data[a].0 != data[b].0
  }

  /** With distinct keys, the foreign rings of entry m are the rings of all entries before and after it. */
  lemma ForeignRingsOf(data: SectorData, m: int)
    requires DistinctKeys(data) && 0 <= m < |data|
    ensures ForeignRings(data, data[m].0) == AllRings(data[..m]) + AllRings(data[m + 1..])
  {
    var country := data[m].0;
    ForeignRingsSkip(data, m);
    forall j | 0 <= j < |data[..m]|
      ensures data[..m][j].0 != country
    {
      assert data[..m][j] == data[j];
    }
    var after := data[m + 1..];
    forall j | 0 <= j < |after|
      ensures after[j].0 != country
    {
      assert after[j] == data[m + 1 + j];
    }
    ForeignRingsNoKey(data[..m], country);
    ForeignRingsNoKey(after, country);
  }

  /** Entry m itself contributes nothing to its own foreign rings. */
  lemma ForeignRingsSkip(data: SectorData, m: int)
    requires 0 <= m < |data|
    ensures ForeignRings(data, data[m].0) == ForeignRings(data[..m], data[m].0) + ForeignRings(data[m + 1..], data[m].0)
  {
    var country := data[m].0;
    var rest := data[m..];
    assert data == data[..m] + rest;
    ForeignRingsAppend(data[..m], rest, country);
    ForeignRingsOwnHead(rest, country);
    assert rest[1..] == data[m + 1..];
  }

  lemma ForeignRingsOwnHead(data: SectorData, country: string)
    requires data != [] && data[0].0 == country
    ensures ForeignRings(data, country) == ForeignRings(data[1..], country)
  {
  }

  /** Once visited, a country's entry is final: later steps leave it alone. */
  lemma {:induction false} SectorAfterStable<S>(g: Geometry<S>, data: SectorData, m: nat, k: nat)
    requires m < k <= |data|
    ensures SectorAfter(g, data, k)[m] == SectorAfter(g, data, m + 1)[m]
    decreases k
  {
    if k > m + 1 {
      SectorAfterStable(g, data, m, k - 1);
    }
  }

  /**
   * With distinct keys, country m is reduced against the final (already reduced) rings of the
   * countries before it and the original rings of the countries after it; its ring count and order
   * are kept and each ring is replaced by its reduction.
   */
  lemma SimplifySectorVisit<S>(g: Geometry<S>, data: SectorData, m: int)
    requires DistinctKeys(data) && 0 <= m < |data|
    ensures var final := SectorAfter(g, data, |data|);
      var foreign := AllRings(final[..m]) + AllRings(data[m + 1..]);
      final[m] == (data[m].0, ReduceAll(g, data[m].1, foreign))
  {
    var final := SectorAfter(g, data, |data|);
    var d := SectorAfter(g, data, m);
    SectorAfterStable(g, data, m, |data|);
    assert DistinctKeys(d) by {
      forall a, b | 0 <= a < b < |d|
        ensures d[a].0 != d[b].0
      {
        assert d[a].0 == data[a].0 && d[b].0 == data[b].0;
      }
    }
    ForeignRingsOf(d, m);
    assert d[..m] == final[..m] by {
      forall a | 0 <= a < m
        ensures d[a] == final[a]
      {
        SectorAfterStable(g, data, a, m);
        SectorAfterStable(g, data, a, |data|);
      }
    }
    assert d[m + 1..] == data[m + 1..];
  }
}
