/**
 * The runtime lookup of the JavaScript and TypeScript packages. Both files define `getSector` and
 * `getCountry` with the same loops and the same tests, so one model serves both. The inside test of
 * `getCountry` comes from an external library and is a parameter here.
 */
module WebLookup {
  import opened Common
  import PyLookup

  /**
   * The early-return loop over `Object.entries(...)` from entry k on: the key of the first entry
   * whose value satisfies `matches`, or null.
   */
  function FindFrom<T>(entries: seq<(string, T)>, matches: T -> bool, k: nat): (r: Option<string>)
    requires k <= |entries|
    ensures r.Some? ==> exists m :: k <= m < |entries| && entries[m].0 == r.value && matches(entries[m].1)
    decreases |entries| - k
  {
    if k == |entries| then None
    else if matches(entries[k].1) then Some(entries[k].0)
    else FindFrom(entries, matches, k + 1)
  }

  /** No entry in [k, m) satisfies `matches`. */
  predicate NoneMatch<T>(entries: seq<(string, T)>, matches: T -> bool, k: int, m: int)
    requires 0 <= k <= m <= |entries|
  {
    forall j :: k <= j < m ==> !matches(entries[j].1)
  }

  lemma {:induction false} FindFromFirstMatch<T>(entries: seq<(string, T)>, matches: T -> bool, k: nat)
    requires k <= |entries|
    ensures FindFrom(entries, matches, k) == None <==> NoneMatch(entries, matches, k, |entries|)
    ensures forall m :: (k <= m < |entries| && NoneMatch(entries, matches, k, m) && matches(entries[m].1))
                        ==> FindFrom(entries, matches, k) == Some(entries[m].0)
    decreases |entries| - k
  {
    if k < |entries| {
      FindFromFirstMatch(entries, matches, k + 1);
      if matches(entries[k].1) {
        assert !NoneMatch(entries, matches, k, |entries|);
        forall m | k < m < |entries|
          ensures !NoneMatch(entries, matches, k, m)
        {
        }
      } else {
        forall m | k < m <= |entries| && NoneMatch(entries, matches, k + 1, m)
          ensures NoneMatch(entries, matches, k, m)
        {
        }
        forall m | k < m <= |entries| && NoneMatch(entries, matches, k, m)
          ensures NoneMatch(entries, matches, k + 1, m)
        {
        }
      }
    }
  }

  /**
   * The test of `getSector` on `const [lat_min, lng_min, lat_max, lng_max] = bounds`. Values past
   * the fourth are ignored; a missing one is `undefined`, and every comparison with it is false.
   */
  predicate InBounds(bounds: seq<real>, c: LatLng)
  {
    |bounds| >= 4 && bounds[0] <= c.lat && c.lat <= bounds[2] && bounds[1] <= c.lng && c.lng <= bounds[3]
  }

  /** `getSector`: the first manifest key whose box holds the coordinate, bounds inclusive; null if none. */
  function GetSector(manifest: seq<(string, seq<real>)>, c: LatLng): (r: Option<string>)
    ensures r.Some? ==> exists m :: 0 <= m < |manifest| && manifest[m].0 == r.value && InBounds(manifest[m].1, c)
  {
    FindFrom(manifest, b => InBounds(b, c), 0)
  }

  /**
   * getSector returns the key of the first entry whose box holds the coordinate, and null exactly
   * when no entry's box holds it.
   */
  lemma GetSectorFirstMatch(manifest: seq<(string, seq<real>)>, c: LatLng)
    ensures GetSector(manifest, c) == None <==> forall j :: 0 <= j < |manifest| ==> !InBounds(manifest[j].1, c)
    ensures forall m :: (0 <= m < |manifest| && InBounds(manifest[m].1, c) &&
                         forall j :: 0 <= j < m ==> !InBounds(manifest[j].1, c))
                        ==> GetSector(manifest, c) == Some(manifest[m].0)
  {
    FindFromFirstMatch(manifest, b => InBounds(b, c), 0);
  }

  /** `getCountry`: the first key whose polygon holds the point `[lat, lng]` under `inside`; null if none. */
  function GetCountry(sector: seq<(string, Ring)>, c: LatLng, inside: (Point, Ring) -> bool): (r: Option<string>)
    ensures r.Some? ==> exists m :: 0 <= m < |sector| && sector[m].0 == r.value && inside((c.lat, c.lng), sector[m].1)
  {
    FindFrom(sector, ring => inside((c.lat, c.lng), ring), 0)
  }

  /**
   * getCountry returns the key of the first polygon that holds `[lat, lng]`, and null exactly when
   * no polygon holds it.
   */
  lemma GetCountryFirstMatch(sector: seq<(string, Ring)>, c: LatLng, inside: (Point, Ring) -> bool)
    ensures GetCountry(sector, c, inside) == None <==>
      forall j :: 0 <= j < |sector| ==> !inside((c.lat, c.lng), sector[j].1)
    ensures forall m :: (0 <= m < |sector| && inside((c.lat, c.lng), sector[m].1) &&
                         forall j :: 0 <= j < m ==> !inside((c.lat, c.lng), sector[j].1))
                        ==> GetCountry(sector, c, inside) == Some(sector[m].0)
  {
    FindFromFirstMatch(sector, ring => inside((c.lat, c.lng), ring), 0);
  }

  lemma {:induction false} SectorAgreesFrom(manifest: seq<(string, seq<real>)>, c: LatLng, k: nat)
    requires k <= |manifest|
    ensures PyLookup.GetSectorFrom(manifest, c, k).Ok? ==>
      FindFrom(manifest, b => InBounds(b, c), k) == PyLookup.GetSectorFrom(manifest, c, k).value
    decreases |manifest| - k
  {
    if k < |manifest| {
      SectorAgreesFrom(manifest, c, k + 1);
    }
  }

  /**
   * Whenever the Python get_sector returns without raising, getSector returns the same answer; in
   * particular the two agree on every manifest whose boxes all have four values.
   */
  lemma SectorAgreesWithPython(manifest: seq<(string, seq<real>)>, c: LatLng)
    ensures PyLookup.GetSector(manifest, c).Ok? ==> GetSector(manifest, c) == PyLookup.GetSector(manifest, c).value
    ensures (forall m :: 0 <= m < |manifest| ==> |manifest[m].1| == 4) ==>
      Some(GetSector(manifest, c)) == (match PyLookup.GetSector(manifest, c) case Ok(v) => Some(v) case Raise(_) => None)
  {
    SectorAgreesFrom(manifest, c, 0);
    if forall m :: 0 <= m < |manifest| ==> |manifest[m].1| == 4 {
      PyLookup.GetSectorNeverRaises(manifest, c, 0);
    }
  }

  lemma {:induction false} CountryAgreesFrom(sector: seq<(string, Ring)>, c: LatLng, inside: (Point, Ring) -> bool, k: nat)
    requires k <= |sector|
    requires forall ring :: inside((c.lat, c.lng), ring) <==> PyLookup.Inside((c.lat, c.lng), ring) == Ok(true)
    ensures PyLookup.GetCountryFrom(sector, c, k).Ok? ==>
      FindFrom(sector, ring => inside((c.lat, c.lng), ring), k) == PyLookup.GetCountryFrom(sector, c, k).value
    decreases |sector| - k
  {
    if k < |sector| {
      var here := PyLookup.Inside((c.lat, c.lng), sector[k].1);
      assert inside((c.lat, c.lng), sector[k].1) <==> here == Ok(true);
      if here == Ok(false) {
        CountryAgreesFrom(sector, c, inside, k + 1);
      }
    }
  }

  /**
   * When the external inside test agrees with the Python even-odd test at the query point, getCountry
   * returns what get_country returns whenever the latter does not raise.
   */
  lemma CountryAgreesWithPython(sector: seq<(string, Ring)>, c: LatLng, inside: (Point, Ring) -> bool)
    requires forall ring :: inside((c.lat, c.lng), ring) <==> PyLookup.Inside((c.lat, c.lng), ring) == Ok(true)
    ensures PyLookup.GetCountry(sector, c).Ok? ==> GetCountry(sector, c, inside) == PyLookup.GetCountry(sector, c).value
  {
    CountryAgreesFrom(sector, c, inside, 0);
  }

  lemma GetSectorExamples()
    ensures GetSector(PyLookup.TestSectors(), LatLng(3.0, 3.0)) == Some("sector1")
    ensures GetSector(PyLookup.TestSectors(), LatLng(7.0, 7.0)) == Some("sector2")
    ensures GetSector(PyLookup.TestSectors(), LatLng(11.0, 11.0)) == None
    ensures GetSector([("short", [0.0, 0.0, 5.0])], LatLng(3.0, 3.0)) == None
  {
  }
}
