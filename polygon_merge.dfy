/**
 * The per-sector simplification of the preprocessing script: the polygons of one country are merged
 * pairwise, greedily, as long as the merged shape stays clear of every other country's polygon.
 */
module PolygonMerge {
  import opened Common
  import opened Shapes
  import opened Seqs

  // ------------------------------------------------------------ merge_polygons

  /** The candidate shape for a pair: the simplified convex hull of their union. */
  function MergeShape<S>(g: Geometry<S>, a: S, b: S): S
  {
    g.simplify(g.convexHull(g.union(a, b)))
  }

  /** Pair (i, j) may be merged: its merged shape intersects none of the rest polygons. */
  predicate Mergeable<S>(g: Geometry<S>, shapes: seq<S>, rest: seq<Ring>, i: int, j: int)
    requires 0 <= i < j < |shapes|
  {
    !IntersectsAny(g, MergeShape(g, shapes[i], shapes[j]), rest)
  }

  /** Pair (a, b) comes before pair (i, j) in the order the nested loops visit pairs. */
  predicate Before(a: int, b: int, i: int, j: int)
  {
    a < i || (a == i && b < j)
  }

  /** No pair of the list may be merged: the loop's exit condition. */
  predicate IsFixpoint<S>(g: Geometry<S>, shapes: seq<S>, rest: seq<Ring>)
  {
    forall a, b :: 0 <= a < b < |shapes| ==> !Mergeable(g, shapes, rest, a, b)
  }

  /** The scan of the nested loops from pair (i, j) on: the first mergeable pair, if any. */
  function FirstPairFrom<S>(g: Geometry<S>, shapes: seq<S>, rest: seq<Ring>, i: nat, j: nat): (r: Option<(nat, nat)>)
    requires i < j <= |shapes|
    ensures r.Some? ==> r.value.0 < r.value.1 < |shapes|
    decreases |shapes| - i, |shapes| - j
  {
    if j == |shapes| then
      if i + 2 <= |shapes| then FirstPairFrom(g, shapes, rest, i + 1, i + 2) else None
    else if Mergeable(g, shapes, rest, i, j) then Some((i, j))
    else FirstPairFrom(g, shapes, rest, i, j + 1)
  }

  /**
   * The scan from (i, j) finds the first mergeable pair at or after (i, j) in row-major order, and
   * finds nothing exactly when no pair from (i, j) on is mergeable.
   */
  lemma {:induction false} FirstPairFromSpec<S>(g: Geometry<S>, shapes: seq<S>, rest: seq<Ring>, i: nat, j: nat)
    requires i < j <= |shapes|
    ensures var r := FirstPairFrom(g, shapes, rest, i, j);
      r.Some? ==> var (a, b) := r.value;
        !Before(a, b, i, j) && Mergeable(g, shapes, rest, a, b) &&
        forall c, d :: (c < d < |shapes| && !Before(c, d, i, j) && Before(c, d, a, b)) ==> !Mergeable(g, shapes, rest, c, d)
    ensures FirstPairFrom(g, shapes, rest, i, j).None? ==>
      forall c, d :: (c < d < |shapes| && !Before(c, d, i, j)) ==> !Mergeable(g, shapes, rest, c, d)
    decreases |shapes| - i, |shapes| - j
  {
    if j == |shapes| {
      if i + 2 <= |shapes| {
        FirstPairFromSpec(g, shapes, rest, i + 1, i + 2);
      }
    } else if !Mergeable(g, shapes, rest, i, j) {
      FirstPairFromSpec(g, shapes, rest, i, j + 1);
    }
  }

  /** The first mergeable pair in row-major order, if any. */
  function FirstPair<S>(g: Geometry<S>, shapes: seq<S>, rest: seq<Ring>): (r: Option<(nat, nat)>)
    ensures r.Some? ==> r.value.0 < r.value.1 < |shapes|
  {
    if |shapes| < 2 then None else FirstPairFrom(g, shapes, rest, 0, 1)
  }

  /**
   * The pair FirstPair finds is mergeable and no pair before it is; it finds none exactly when the
   * list is a fixpoint.
   */
  lemma FirstPairSpec<S>(g: Geometry<S>, shapes: seq<S>, rest: seq<Ring>)
    ensures var r := FirstPair(g, shapes, rest);
      r.Some? ==> var (a, b) := r.value;
        Mergeable(g, shapes, rest, a, b) &&
        forall c, d :: (0 <= c < d < |shapes| && Before(c, d, a, b)) ==> !Mergeable(g, shapes, rest, c, d)
    ensures FirstPair(g, shapes, rest).None? <==> IsFixpoint(g, shapes, rest)
  {
    if |shapes| >= 2 {
      FirstPairFromSpec(g, shapes, rest, 0, 1);
      if FirstPair(g, shapes, rest).Some? {
        var (a, b) := FirstPair(g, shapes, rest).value;
        assert !IsFixpoint(g, shapes, rest) by {
          assert Mergeable(g, shapes, rest, a, b);
        }
      }
    }
  }

  /** A mergeable pair with nothing mergeable before it is the pair the scan finds. */
  lemma FirstPairIs<S>(g: Geometry<S>, shapes: seq<S>, rest: seq<Ring>, i: nat, j: nat)
    requires i < j < |shapes| && Mergeable(g, shapes, rest, i, j)
    requires forall c, d :: (0 <= c < d < |shapes| && Before(c, d, i, j)) ==> !Mergeable(g, shapes, rest, c, d)
    ensures FirstPair(g, shapes, rest) == Some((i, j))
  {
    FirstPairSpec(g, shapes, rest);
    var r := FirstPair(g, shapes, rest);
    assert !IsFixpoint(g, shapes, rest);
    var (a, b) := r.value;
    assert !Before(i, j, a, b);
    assert !Before(a, b, i, j);
  }

  /**
   * One merge: position i takes the merged shape, position j is removed, and every other element
   * keeps its value and its relative order.
   */
  function MergeAt<S>(shapes: seq<S>, i: int, j: int, merged: S): (r: seq<S>)
    requires 0 <= i < j < |shapes|
    ensures |r| == |shapes| - 1
    ensures r[i] == merged
    ensures forall k :: 0 <= k < j && k != i ==> r[k] == shapes[k]
    ensures forall k :: j <= k < |r| ==> r[k] == shapes[k + 1]
  {
    RemoveAt(shapes[i := merged], j)
  }

  /** The merges until no pair can be merged, each at the first mergeable pair. */
  function MergeAll<S>(g: Geometry<S>, shapes: seq<S>, rest: seq<Ring>): (r: seq<S>)
    ensures |r| <= |shapes|
    ensures |shapes| > 0 ==> |r| > 0
    decreases |shapes|
  {
    match FirstPair(g, shapes, rest)
    case None => shapes
    case Some((i, j)) => MergeAll(g, MergeAt(shapes, i, j, MergeShape(g, shapes[i], shapes[j])), rest)
  }

  /** No pair of what MergeAll returns can be merged. */
  lemma {:induction false} MergeAllFixpoint<S>(g: Geometry<S>, shapes: seq<S>, rest: seq<Ring>)
    ensures IsFixpoint(g, MergeAll(g, shapes, rest), rest)
    decreases |shapes|
  {
    FirstPairSpec(g, shapes, rest);
    match FirstPair(g, shapes, rest)
    case None =>
    case Some((i, j)) =>
      MergeAllFixpoint(g, MergeAt(shapes, i, j, MergeShape(g, shapes[i], shapes[j])), rest);
  }

  /** The number of merges MergeAll makes. */
  function MergeCount<S>(g: Geometry<S>, shapes: seq<S>, rest: seq<Ring>): (n: nat)
    ensures |MergeAll(g, shapes, rest)| + n == |shapes|
    decreases |shapes|
  {
    match FirstPair(g, shapes, rest)
    case None => 0
    case Some((i, j)) => 1 + MergeCount(g, MergeAt(shapes, i, j, MergeShape(g, shapes[i], shapes[j])), rest)
  }

  /** The pair the outer loop's scan finds from row i on; rows past the last pair find nothing. */
  function RowScan<S>(g: Geometry<S>, shapes: seq<S>, rest: seq<Ring>, i: nat): Option<(nat, nat)>
  {
    if i + 1 < |shapes| then FirstPairFrom(g, shapes, rest, i, i + 1) else None
  }

  /**
   * `merge_polygons`: at most `len(country_polygons)` passes, each merging the first mergeable pair
   * or stopping. The ghost result records that the loop always stops because no pair was left to
   * merge, never because it ran out of passes.
   */
  method MergePolygons<S>(g: Geometry<S>, countryPolygons: seq<Ring>, restPolygons: seq<Ring>)
    returns (r: seq<S>, ghost stoppedOnFixpoint: bool)
    ensures r == MergeAll(g, Polygons(g, countryPolygons), restPolygons)
    ensures |countryPolygons| > 0 ==> stoppedOnFixpoint
  {
    var shapes := Polygons(g, countryPolygons);
    ghost var target := MergeAll(g, shapes, restPolygons);
    var total := |shapes|;
    stoppedOnFixpoint := false;
    for pass := 0 to total
      invariant |shapes| + pass == total
      invariant total > 0 ==> |shapes| > 0
      invariant MergeAll(g, shapes, restPolygons) == target
    {
      var merged := false;
      ghost var before := shapes;
      var n := |shapes|;
      for i := 0 to n
        invariant !merged && shapes == before
        invariant FirstPair(g, shapes, restPolygons) == RowScan(g, shapes, restPolygons, i)
      {
        for j := i + 1 to n
          invariant !merged && shapes == before
          invariant FirstPair(g, shapes, restPolygons) == FirstPairFrom(g, shapes, restPolygons, i, j)
        {
          var mergedPolygon := g.union(shapes[i], shapes[j]);
          mergedPolygon := g.convexHull(mergedPolygon);
          mergedPolygon := g.simplify(mergedPolygon);
          var intersectsRest := IntersectsAny(g, mergedPolygon, restPolygons);
          if !intersectsRest {
            shapes := shapes[i := mergedPolygon];
            shapes := RemoveAt(shapes, j);
            MergeStep(g, before, restPolygons, i, j, shapes);
            merged := true;
            break;
          }
        }
        if merged {
          break;
        }
      }
      if !merged {
        FixpointStays(g, shapes, restPolygons);
        stoppedOnFixpoint := true;
        break;
      }
    }
    if !stoppedOnFixpoint {
      MergeEmpty(g, restPolygons);
    }
    r := shapes;
  }

  /** When the scan finds no pair, the list is returned as it is. */
  lemma FixpointStays<S>(g: Geometry<S>, shapes: seq<S>, rest: seq<Ring>)
    requires FirstPair(g, shapes, rest) == None
    ensures MergeAll(g, shapes, rest) == shapes
  {
  }

  /** A merge at the pair the scan finds is the first step of MergeAll, and shortens the list by one. */
  lemma MergeStep<S>(g: Geometry<S>, before: seq<S>, rest: seq<Ring>, i: int, j: int, after: seq<S>)
    requires 0 <= i < j < |before|
    requires FirstPair(g, before, rest) == Some((i, j))
    requires after == MergeAt(before, i, j, MergeShape(g, before[i], before[j]))
    ensures |after| + 1 == |before|
    ensures MergeAll(g, after, rest) == MergeAll(g, before, rest)
  {
  }

  /** Merging a fixpoint changes nothing, so merging twice equals merging once. */
  lemma MergeAllIdempotent<S>(g: Geometry<S>, shapes: seq<S>, rest: seq<Ring>)
    ensures MergeAll(g, MergeAll(g, shapes, rest), rest) == MergeAll(g, shapes, rest)
  {
    MergeAllFixpoint(g, shapes, rest);
    FirstPairSpec(g, MergeAll(g, shapes, rest), rest);
  }

  /** At most n - 1 merges happen to n shapes, so the n passes always suffice. */
  lemma MergeCountBound<S>(g: Geometry<S>, shapes: seq<S>, rest: seq<Ring>)
    requires |shapes| > 0
    ensures MergeCount(g, shapes, rest) <= |shapes| - 1
  {
  }

  /** With no rest polygons every pair is mergeable, so a non-empty list collapses to one shape. */
  lemma MergeWithoutRest<S>(g: Geometry<S>, shapes: seq<S>)
    requires |shapes| > 0
    ensures |MergeAll(g, shapes, [])| == 1
  {
    MergeAllFixpoint(g, shapes, []);
    PairsMergeWithoutRest(g, MergeAll(g, shapes, []));
  }

  lemma PairsMergeWithoutRest<S>(g: Geometry<S>, shapes: seq<S>)
    ensures |shapes| >= 2 ==> !IsFixpoint(g, shapes, [])
  {
    if |shapes| >= 2 {
      assert Mergeable(g, shapes, [], 0, 1);
    }
  }

  /** An empty list has no pair, and is returned as it is. */
  lemma MergeEmpty<S>(g: Geometry<S>, rest: seq<Ring>)
    ensures MergeAll(g, [], rest) == []
  {
  }

  // --------------------------------------------------------- simplify_polygons

  /** `[obj[name] for obj in polygons if keep(obj)]`. */
  function Select(polygons: seq<Feature>, keep: Feature -> bool): (r: seq<Ring>)
    ensures |r| <= |polygons|
  {
    if polygons == [] then []
    else
      var last := polygons[|polygons| - 1];
      Select(polygons[..|polygons| - 1], keep) + (if keep(last) then [last.ring] else [])
  }

  /** All rings of one country, in input order. */
  function RingsOf(polygons: seq<Feature>, name: string): (r: seq<Ring>)
    ensures |r| <= |polygons|
  {
    Select(polygons, (f: Feature) => f.name == name)
  }

  /** All rings of every other country, in input order. */
  function OtherRings(polygons: seq<Feature>, name: string): seq<Ring>
  {
    Select(polygons, (f: Feature) => f.name != name)
  }

  /** The list built at lines 133-134: rings of items without `name`, kept only if `name` is unprocessed. */
  function UnprocessedRest(polygons: seq<Feature>, name: string, alreadyProcessed: set<string>): (r: seq<Ring>)
    ensures |r| <= |polygons|
    ensures name in alreadyProcessed ==> r == []
  {
    var keep := (f: Feature) => f.name != name && name !in alreadyProcessed;
    if name in alreadyProcessed then SelectNone(polygons, keep); Select(polygons, keep)
    else Select(polygons, keep)
  }

  /** The list built at lines 136-137: every ring, kept only if `name` is already processed. */
  function ProcessedRest(polygons: seq<Feature>, name: string, alreadyProcessed: set<string>): (r: seq<Ring>)
    ensures |r| <= |polygons|
    ensures name !in alreadyProcessed ==> r == []
  {
    var keep := (f: Feature) => name in alreadyProcessed;
    if name !in alreadyProcessed then SelectNone(polygons, keep); Select(polygons, keep)
    else Select(polygons, keep)
  }

  lemma {:induction false} SelectSame(polygons: seq<Feature>, p: Feature -> bool, q: Feature -> bool)
    requires forall f :: p(f) == q(f)
    ensures Select(polygons, p) == Select(polygons, q)
  {
    if polygons != [] {
      SelectSame(polygons[..|polygons| - 1], p, q);
    }
  }

  lemma {:induction false} SelectNone(polygons: seq<Feature>, p: Feature -> bool)
    requires forall f :: !p(f)
    ensures Select(polygons, p) == []
  {
    if polygons != [] {
      SelectNone(polygons[..|polygons| - 1], p);
    }
  }

  /**
   * The rest polygons as the code builds them are exactly the other countries' input rings: the
   * `already_processed` conditions depend on `name` alone, and `name` is never in the set there.
   */
  lemma RestIsOtherCountries(polygons: seq<Feature>, name: string, alreadyProcessed: set<string>)
    requires name !in alreadyProcessed
    ensures UnprocessedRest(polygons, name, alreadyProcessed) + ProcessedRest(polygons, name, alreadyProcessed) ==
      OtherRings(polygons, name)
  {
    SelectSame(polygons, (f: Feature) => f.name != name && name !in alreadyProcessed, (f: Feature) => f.name != name);
    SelectNone(polygons, (f: Feature) => name in alreadyProcessed);
  }

  /** A ring is selected for a country exactly when an input item of that country carries it. */
  lemma {:induction false} RingsOfMembers(polygons: seq<Feature>, name: string)
    ensures forall r :: r in RingsOf(polygons, name) <==> Feature(name, r) in polygons
  {
    if polygons != [] {
      var init := polygons[..|polygons| - 1];
      RingsOfMembers(init, name);
      assert polygons == init + [polygons[|polygons| - 1]];
    }
  }

  /** The country names in order of first appearance, each once. */
  function DistinctNames(polygons: seq<Feature>): (names: seq<string>)
    ensures forall n :: n in names <==> exists k :: 0 <= k < |polygons| && polygons[k].name == n
    ensures forall a, b :: 0 <= a < b < |names| ==> names[a] != names[b]
  {
    if polygons == [] then []
    else
      var init := polygons[..|polygons| - 1];
      var names := DistinctNames(init);
      assert forall k :: 0 <= k < |init| ==> init[k] == polygons[k];
      if polygons[|polygons| - 1].name in names then names else names + [polygons[|polygons| - 1].name]
  }

  /** Every item named `b` has an item named `a` somewhere before it. */
  predicate PrecededBy(polygons: seq<Feature>, a: string, b: string)
  {
    forall q :: 0 <= q < |polygons| && polygons[q].name == b ==> exists p :: 0 <= p < q && polygons[p].name == a
  }

  /** The names come in order of first appearance: a name listed earlier first occurs earlier. */
  lemma {:induction false} DistinctNamesFirstAppearance(polygons: seq<Feature>)
    ensures forall a, b :: 0 <= a < b < |DistinctNames(polygons)| ==>
      PrecededBy(polygons, DistinctNames(polygons)[a], DistinctNames(polygons)[b])
  {
    if polygons != [] {
      var init := polygons[..|polygons| - 1];
      var names0 := DistinctNames(init);
      var names := DistinctNames(polygons);
      DistinctNamesFirstAppearance(init);
      assert forall k :: 0 <= k < |init| ==> init[k] == polygons[k];
      forall a, b | 0 <= a < b < |names|
        ensures PrecededBy(polygons, names[a], names[b])
      {
        assert names0[a] == names[a] && names0[a] in names0;
        var first :| 0 <= first < |init| && init[first].name == names[a];
        forall q | 0 <= q < |polygons| && polygons[q].name == names[b]
          ensures exists p :: 0 <= p < q && polygons[p].name == names[a]
        {
          if b < |names0| {
            assert names0[b] == names[b] && names0[b] in names0;
            var other :| 0 <= other < |init| && init[other].name == names[b];
            var q' := if q < |init| then q else other;
            assert init[q'].name == names0[b] && PrecededBy(init, names0[a], names0[b]);
            var p :| 0 <= p < q' && init[p].name == names0[a];
            assert polygons[p].name == names[a];
          } else {
            assert polygons[first].name == names[a] && first < |init| <= q;
          }
        }
      }
    }
  }

  lemma DistinctNamesStep(polygons: seq<Feature>, i: int)
    requires 0 <= i < |polygons|
    ensures DistinctNames(polygons[..i + 1]) ==
      var names := DistinctNames(polygons[..i]);
      if polygons[i].name in names then names else names + [polygons[i].name]
  {
    assert polygons[..i + 1][..i] == polygons[..i];
  }

  /** The result entry of one country: its name and the exteriors of its merged rings. */
  function CountryResult<S>(g: Geometry<S>, polygons: seq<Feature>, name: string): (r: (string, seq<Ring>))
    ensures r.0 == name
    ensures |r.1| <= |RingsOf(polygons, name)|
    ensures RingsOf(polygons, name) != [] ==> r.1 != []
  {
    (name, Exteriors(g, MergeAll(g, Polygons(g, RingsOf(polygons, name)), OtherRings(polygons, name))))
  }

  /** The results dictionary for the given names, in their order. */
  function Results<S>(g: Geometry<S>, polygons: seq<Feature>, names: seq<string>): (r: seq<(string, seq<Ring>)>)
    ensures |r| == |names|
    ensures forall k :: 0 <= k < |names| ==> r[k] == CountryResult(g, polygons, names[k])
  {
    if names == [] then []
    else Results(g, polygons, names[..|names| - 1]) + [CountryResult(g, polygons, names[|names| - 1])]
  }

  lemma ResultsAppend<S>(g: Geometry<S>, polygons: seq<Feature>, names: seq<string>, name: string)
    ensures Results(g, polygons, names + [name]) == Results(g, polygons, names) + [CountryResult(g, polygons, name)]
  {
    assert (names + [name])[..|names|] == names;
  }

  /**
   * `simplify_polygons`: one entry per distinct country name, in order of first appearance, each the
   * merge of all of that country's rings against the rings of all other countries.
   */
  method SimplifyPolygons<S>(g: Geometry<S>, polygons: seq<Feature>) returns (results: seq<(string, seq<Ring>)>)
    ensures results == Results(g, polygons, DistinctNames(polygons))
  {
    results := [];
    var alreadyProcessed: set<string> := {};
    for i := 0 to |polygons|
      invariant forall n :: n in alreadyProcessed <==> n in DistinctNames(polygons[..i])
      invariant results == Results(g, polygons, DistinctNames(polygons[..i]))
    {
      var name := polygons[i].name;
      DistinctNamesStep(polygons, i);
      if name !in alreadyProcessed {
        var countryPolygons := RingsOf(polygons, name);
        var restPolygons := UnprocessedRest(polygons, name, alreadyProcessed);
        restPolygons := restPolygons + ProcessedRest(polygons, name, alreadyProcessed);
        RestIsOtherCountries(polygons, name, alreadyProcessed);
        var countryMerged, _ := MergePolygons(g, countryPolygons, restPolygons);
        ResultsAppend(g, polygons, DistinctNames(polygons[..i]), name);
        results := results + [(name, Exteriors(g, countryMerged))];
      }
      alreadyProcessed := alreadyProcessed + {name};
    }
    assert polygons[..|polygons|] == polygons;
  }
}
