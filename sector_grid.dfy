/**
 * The first stage of the preprocessing script: the grid of sector boxes, the assignment of country
 * polygons to every sector they touch, and the removal of a country from the feature list.
 */
module SectorGrid {
  import opened Common
  import opened Shapes
  import opened Seqs

  /** `{'id': name, 'geometry': box}`. */
  datatype Sector<S> = Sector(id: string, geometry: S)

  // ----------------------------------------------------------- get_sector_grid

  /**
   * `get_sector_grid`: one sector per manifest key, in manifest order, whose geometry is the box of
   * its four values; a value list that does not have four entries fails to unpack (ValueError).
   */
  method GetSectorGrid<S>(g: Geometry<S>, coordinates: seq<(string, seq<real>)>) returns (r: Result<seq<Sector<S>>>)
    ensures r.Ok? <==> forall k :: 0 <= k < |coordinates| ==> |coordinates[k].1| == 4
    ensures r.Raise? ==> r.error == ValueError
    ensures r.Ok? ==> (|r.value| == |coordinates| &&
      forall k :: 0 <= k < |coordinates| ==>
        var b := coordinates[k].1;
        |b| == 4 && r.value[k] == Sector(coordinates[k].0, g.box(b[0], b[1], b[2], b[3])))
  {
    var sectors: seq<Sector<S>> := [];
    for k := 0 to |coordinates|
      invariant |sectors| == k
      invariant forall m :: 0 <= m < k ==>
        var b := coordinates[m].1;
        |b| == 4 && sectors[m] == Sector(coordinates[m].0, g.box(b[0], b[1], b[2], b[3]))
    {
      var (name, b) := coordinates[k];
      if |b| != 4 {
        return Raise(ValueError);
      }
      sectors := sectors + [Sector(name, g.box(b[0], b[1], b[2], b[3]))];
    }
    r := Ok(sectors);
  }

  // --------------------------------------------------- map_polygons_to_sectors

  /** `[(y, x) for x, y in coordinates]`: GeoJSON's (longitude, latitude) becomes (latitude, longitude). */
  function Swap(ring: Ring): (r: Ring)
    ensures |r| == |ring|
  {
    seq(|ring|, k requires 0 <= k < |ring| => (ring[k].1, ring[k].0))
  }

  /** The swapped ring holds exactly the mirrored vertices of the original. */
  lemma SwapMembers(ring: Ring)
    ensures forall p :: p in ring <==> (p.1, p.0) in Swap(ring)
  {
    var r := Swap(ring);
    assert forall k :: 0 <= k < |ring| ==> r[k] == (ring[k].1, ring[k].0);
  }

  lemma SwapTwice(ring: Ring)
    ensures Swap(Swap(ring)) == ring
  {
  }

  /** The feature stored for a polygon: the same country name with the swapped ring. */
  function Swapped(f: Feature): Feature
  {
    Feature(f.name, Swap(f.ring))
  }

  /** Whether the polygon's swapped shape meets a sector's box. */
  predicate Hits<S>(g: Geometry<S>, f: Feature, sector: Sector<S>)
  {
    g.intersects(g.polygon(Swap(f.ring)), sector.geometry)
  }

  function Ids<S>(sectors: seq<Sector<S>>): set<string>
  {
    set k | 0 <= k < |sectors| :: sectors[k].id
  }

  /** What the inner loop appends to the list of `id` for one polygon: a copy per hit sector with that id. */
  function Contribution<S>(g: Geometry<S>, f: Feature, sectors: seq<Sector<S>>, id: string): seq<Feature>
  {
    if sectors == [] then []
    else
      var last := sectors[|sectors| - 1];
      Contribution(g, f, sectors[..|sectors| - 1], id) + (if last.id == id && Hits(g, f, last) then [Swapped(f)] else [])
  }

  /** The list of `id` after the outer loop has visited all of `polygons`. */
  function Assigned<S>(g: Geometry<S>, polygons: seq<Feature>, sectors: seq<Sector<S>>, id: string): seq<Feature>
  {
    if polygons == [] then []
    else Assigned(g, polygons[..|polygons| - 1], sectors, id) + Contribution(g, polygons[|polygons| - 1], sectors, id)
  }

  /**
   * `map_polygons_to_sectors`: a (possibly empty) list for every sector id, and each polygon's
   * swapped copy appended, whole, to the list of every sector whose box its swapped shape meets.
   */
  method MapPolygonsToSectors<S>(g: Geometry<S>, polygons: seq<Feature>, sectors: seq<Sector<S>>)
    returns (bySector: map<string, seq<Feature>>)
    ensures bySector.Keys == Ids(sectors)
    ensures forall id :: id in bySector ==> bySector[id] == Assigned(g, polygons, sectors, id)
  {
    bySector := map k | 0 <= k < |sectors| :: sectors[k].id := [];
    for p := 0 to |polygons|
      invariant bySector.Keys == Ids(sectors)
      invariant forall id :: id in bySector ==> bySector[id] == Assigned(g, polygons[..p], sectors, id)
    {
      var f := polygons[p];
      var switched := Swap(f.ring);
      var polyShape := g.polygon(switched);
      ghost var start := bySector;
      for k := 0 to |sectors|
        invariant Progress(g, f, sectors, k, start, bySector)
      {
        var sector := sectors[k];
        ghost var before := bySector;
        if g.intersects(polyShape, sector.geometry) {
          bySector := bySector[sector.id := bySector[sector.id] + [Feature(f.name, Swap(f.ring))]];
        }
        ProgressStep(g, f, sectors, k, start, before, bySector);
      }
      AssignedStep(g, polygons, sectors, p);
      assert sectors[..|sectors|] == sectors;
    }
    assert polygons[..|polygons|] == polygons;
  }

  lemma ContributionStep<S>(g: Geometry<S>, f: Feature, sectors: seq<Sector<S>>, k: int, id: string)
    requires 0 <= k < |sectors|
    ensures Contribution(g, f, sectors[..k + 1], id) ==
      Contribution(g, f, sectors[..k], id) + (if sectors[k].id == id && Hits(g, f, sectors[k]) then [Swapped(f)] else [])
  {
    assert sectors[..k + 1][..k] == sectors[..k];
  }

  /** The inner loop's invariant: every list has grown by this polygon's contribution from the first k sectors. */
  ghost predicate Progress<S>(g: Geometry<S>, f: Feature, sectors: seq<Sector<S>>, k: int,
                              start: map<string, seq<Feature>>, current: map<string, seq<Feature>>)
    requires 0 <= k <= |sectors|
  {
    current.Keys == start.Keys &&
    forall id :: id in current ==> current[id] == start[id] + Contribution(g, f, sectors[..k], id)
  }

  lemma ProgressStep<S>(g: Geometry<S>, f: Feature, sectors: seq<Sector<S>>, k: int,
                        start: map<string, seq<Feature>>, before: map<string, seq<Feature>>, after: map<string, seq<Feature>>)
    requires 0 <= k < |sectors| && start.Keys == Ids(sectors)
    requires Progress(g, f, sectors, k, start, before)
    requires after == if g.intersects(g.polygon(Swap(f.ring)), sectors[k].geometry)
      then before[sectors[k].id := before[sectors[k].id] + [Swapped(f)]] else before
    ensures Progress(g, f, sectors, k + 1, start, after)
  {
    assert sectors[k].id in Ids(sectors);
    forall id | id in after
      ensures after[id] == start[id] + Contribution(g, f, sectors[..k + 1], id)
    {
      ContributionStep(g, f, sectors, k, id);
    }
  }

  lemma AssignedStep<S>(g: Geometry<S>, polygons: seq<Feature>, sectors: seq<Sector<S>>, p: int)
    requires 0 <= p < |polygons|
    ensures forall id :: (Assigned(g, polygons[..p + 1], sectors, id) ==
      Assigned(g, polygons[..p], sectors, id) + Contribution(g, polygons[p], sectors, id))
  {
    assert polygons[..p + 1][..p] == polygons[..p];
  }

  /** The swapped copies of the polygons whose swapped shape meets `box`, in input order. */
  function Intersecting<S>(g: Geometry<S>, polygons: seq<Feature>, box: S): seq<Feature>
  {
    if polygons == [] then []
    else
      var last := polygons[|polygons| - 1];
      Intersecting(g, polygons[..|polygons| - 1], box) +
        (if g.intersects(g.polygon(Swap(last.ring)), box) then [Swapped(last)] else [])
  }

  predicate DistinctIds<S>(sectors: seq<Sector<S>>)
  {
    forall a, b :: 0 <= a < b < |sectors| ==> sectors[a].id != sectors[b].id
  }

  lemma {:induction false} ContributionPrefix<S>(g: Geometry<S>, f: Feature, sectors: seq<Sector<S>>, k: int, m: int)
    requires DistinctIds(sectors) && 0 <= k < |sectors| && 0 <= m <= |sectors|
    ensures Contribution(g, f, sectors[..m], sectors[k].id) ==
      if m > k && Hits(g, f, sectors[k]) then [Swapped(f)] else []
  {
    if m > 0 {
      assert sectors[..m][..m - 1] == sectors[..m - 1];
      ContributionPrefix(g, f, sectors, k, m - 1);
    }
  }

  /**
   * With distinct sector ids (a manifest is a JSON object), the list of sector k holds exactly the
   * swapped copies of the polygons whose swapped shape meets k's box, each once, in input order.
   */
  lemma {:induction false} AssignedIsIntersecting<S>(g: Geometry<S>, polygons: seq<Feature>, sectors: seq<Sector<S>>, k: int)
    requires DistinctIds(sectors) && 0 <= k < |sectors|
    ensures Assigned(g, polygons, sectors, sectors[k].id) == Intersecting(g, polygons, sectors[k].geometry)
  {
    if polygons != [] {
      AssignedIsIntersecting(g, polygons[..|polygons| - 1], sectors, k);
      ContributionPrefix(g, polygons[|polygons| - 1], sectors, k, |sectors|);
      assert sectors[..|sectors|] == sectors;
    }
  }

  lemma {:induction false} ContributionMembers<S>(g: Geometry<S>, f: Feature, sectors: seq<Sector<S>>, id: string)
    ensures forall x :: x in Contribution(g, f, sectors, id) <==>
      x == Swapped(f) && exists k :: 0 <= k < |sectors| && sectors[k].id == id && Hits(g, f, sectors[k])
  {
    if sectors != [] {
      var init := sectors[..|sectors| - 1];
      ContributionMembers(g, f, init, id);
      forall k | 0 <= k < |init|
        ensures init[k] == sectors[k]
      {
      }
    }
  }

  /**
   * Whatever the ids, a feature is in the list of `id` exactly when it is the swapped copy of an
   * input polygon whose swapped shape meets the box of some sector with that id.
   */
  lemma {:induction false} AssignedMembers<S>(g: Geometry<S>, polygons: seq<Feature>, sectors: seq<Sector<S>>, id: string)
    ensures forall x :: x in Assigned(g, polygons, sectors, id) <==>
      exists p, k :: 0 <= p < |polygons| && 0 <= k < |sectors| &&
        x == Swapped(polygons[p]) && sectors[k].id == id && Hits(g, polygons[p], sectors[k])
  {
    forall x | x in Assigned(g, polygons, sectors, id)
      ensures exists p, k :: (0 <= p < |polygons| && 0 <= k < |sectors| &&
        x == Swapped(polygons[p]) && sectors[k].id == id && Hits(g, polygons[p], sectors[k]))
    {
      AssignedHasHit(g, polygons, sectors, id, x);
    }
    forall p, k | 0 <= p < |polygons| && 0 <= k < |sectors| && sectors[k].id == id && Hits(g, polygons[p], sectors[k])
      ensures Swapped(polygons[p]) in Assigned(g, polygons, sectors, id)
    {
      HitIsAssigned(g, polygons, sectors, p, k);
    }
  }

  /** Every entry of a list comes from a polygon that hit a sector with that id. */
  lemma {:induction false} AssignedHasHit<S>(g: Geometry<S>, polygons: seq<Feature>, sectors: seq<Sector<S>>, id: string, x: Feature)
    requires x in Assigned(g, polygons, sectors, id)
    ensures exists p, k :: (0 <= p < |polygons| && 0 <= k < |sectors| &&
      x == Swapped(polygons[p]) && sectors[k].id == id && Hits(g, polygons[p], sectors[k]))
  {
    var init := polygons[..|polygons| - 1];
    var last := polygons[|polygons| - 1];
    if x in Assigned(g, init, sectors, id) {
      AssignedHasHit(g, init, sectors, id, x);
      var p, k :| 0 <= p < |init| && 0 <= k < |sectors| &&
        x == Swapped(init[p]) && sectors[k].id == id && Hits(g, init[p], sectors[k]);
      assert init[p] == polygons[p];
    } else {
      ContributionMembers(g, last, sectors, id);
      var k :| 0 <= k < |sectors| && sectors[k].id == id && Hits(g, last, sectors[k]);
      assert x == Swapped(polygons[|polygons| - 1]);
    }
  }

  /** A polygon that hits a sector is in that sector's list. */
  lemma {:induction false} HitIsAssigned<S>(g: Geometry<S>, polygons: seq<Feature>, sectors: seq<Sector<S>>, p: int, k: int)
    requires 0 <= p < |polygons| && 0 <= k < |sectors| && Hits(g, polygons[p], sectors[k])
    ensures Swapped(polygons[p]) in Assigned(g, polygons, sectors, sectors[k].id)
  {
    var init := polygons[..|polygons| - 1];
    if p < |init| {
      HitIsAssigned(g, init, sectors, p, k);
      assert init[p] == polygons[p];
    } else {
      ContributionMembers(g, polygons[p], sectors, sectors[k].id);
    }
  }

  // --------------------------------------------------- remove_country_from_map

  /** The feature list the script edits in place. */
  class FeatureList {
    var items: seq<Feature>

    constructor(items: seq<Feature>)
      ensures this.items == items
    {
      this.items := items;
    }
  }

  /** `[item for item in map_list if country not in item]`. */
  function WithoutCountry(items: seq<Feature>, country: string): (r: seq<Feature>)
    ensures |r| <= |items|
    ensures forall k :: 0 <= k < |r| ==> r[k].name != country
  {
    if items == [] then []
    else if items[0].name == country then WithoutCountry(items[1..], country)
    else [items[0]] + WithoutCountry(items[1..], country)
  }

  /**
   * The filter keeps exactly the items of other countries, in their original order, and leaves a
   * list without the country as it is.
   */
  lemma {:induction false} WithoutCountrySpec(items: seq<Feature>, country: string)
    ensures forall f :: f in WithoutCountry(items, country) <==> f in items && f.name != country
    ensures IsSubsequence(WithoutCountry(items, country), items)
    ensures (forall f :: f in items ==> f.name != country) ==> WithoutCountry(items, country) == items
  {
    if items != [] {
      WithoutCountrySpec(items[1..], country);
      var tail := WithoutCountry(items[1..], country);
      assert items[0] in items;
      forall f | f in items[1..]
        ensures f in items
      {
      }
      if items[0].name == country {
        assert tail == [] || IsSubsequence(tail, items[1..]);
      } else {
        assert ([items[0]] + tail)[1..] == tail;
        assert items == [items[0]] + items[1..];
      }
    }
  }

  /** Every item of another country is kept as many times as it occurs in the input. */
  lemma {:induction false} WithoutCountryCounts(items: seq<Feature>, country: string)
    ensures forall f: Feature :: f.name != country ==> multiset(WithoutCountry(items, country))[f] == multiset(items)[f]
  {
    if items != [] {
      WithoutCountryCounts(items[1..], country);
      assert items == [items[0]] + items[1..];
      assert multiset(items) == multiset{items[0]} + multiset(items[1..]);
    }
  }

  /** `remove_country_from_map`: the list object itself is overwritten with the filtered items and returned. */
  method RemoveCountryFromMap(mapList: FeatureList, country: string) returns (r: FeatureList)
    modifies mapList
    ensures r == mapList
    ensures mapList.items == WithoutCountry(old(mapList.items), country)
  {
    mapList.items := WithoutCountry(mapList.items, country);
    r := mapList;
  }

  /** Removing a country a second time changes nothing. */
  lemma RemoveTwice(items: seq<Feature>, country: string)
    ensures WithoutCountry(WithoutCountry(items, country), country) == WithoutCountry(items, country)
  {
    WithoutCountrySpec(items, country);
    WithoutCountrySpec(WithoutCountry(items, country), country);
  }

  /** Removal distributes over concatenation, so removing before or after `extend` agree on the old part. */
  lemma {:induction false} RemoveAppend(a: seq<Feature>, b: seq<Feature>, country: string)
    ensures WithoutCountry(a + b, country) == WithoutCountry(a, country) + WithoutCountry(b, country)
  {
    if a != [] {
      assert (a + b)[0] == a[0];
      assert (a + b)[1..] == a[1..] + b;
      RemoveAppend(a[1..], b, country);
    } else {
      assert a + b == b;
    }
  }
}
