/** The runtime lookup of the Python package: sector by bounding box, then country by ray casting. */
module PyLookup {
  import opened Common

  // ---------------------------------------------------------------- get_sector

  /** `lat_min <= lat <= lat_max and lng_min <= lng <= lng_max` for a box `[lat_min, lng_min, lat_max, lng_max]`. */
  predicate InBox(bounds: seq<real>, c: LatLng)
    requires |bounds| == 4
  {
    bounds[0] <= c.lat <= bounds[2] && bounds[1] <= c.lng <= bounds[3]
  }

  /** Entry k of the manifest unpacks and its box does not hold the coordinate: the scan moves on. */
  predicate SectorMiss(manifest: seq<(string, seq<real>)>, c: LatLng, k: int)
    requires 0 <= k < |manifest|
  {
    |manifest[k].1| == 4 && !InBox(manifest[k].1, c)
  }

  /** Every entry before k is examined and passed over without raising. */
  predicate SectorMissesBefore(manifest: seq<(string, seq<real>)>, c: LatLng, k: int)
    requires k <= |manifest|
  {
    forall j :: 0 <= j < k ==> SectorMiss(manifest, c, j)
  }

  /** The loop of `get_sector` from entry k on. */
  function GetSectorFrom(manifest: seq<(string, seq<real>)>, c: LatLng, k: nat): (r: Result<Option<string>>)
    requires k <= |manifest|
    ensures r.Raise? ==> r.error == ValueError
    decreases |manifest| - k
  {
    if k == |manifest| then Ok(None)
    else if |manifest[k].1| != 4 then Raise(ValueError)
    else if InBox(manifest[k].1, c) then Ok(Some(manifest[k].0))
    else GetSectorFrom(manifest, c, k + 1)
  }

  /**
   * `get_sector`: the key of the first manifest entry, in manifest order, whose box holds the
   * coordinate; unpacking a box that does not have four values raises ValueError.
   */
  function GetSector(manifest: seq<(string, seq<real>)>, c: LatLng): (r: Result<Option<string>>)
    ensures r.Raise? ==> r.error == ValueError
  {
    GetSectorFrom(manifest, c, 0)
  }

  lemma {:induction false} GetSectorFromFirstMatch(manifest: seq<(string, seq<real>)>, c: LatLng, k: nat)
    requires k <= |manifest| && SectorMissesBefore(manifest, c, k)
    ensures GetSectorFrom(manifest, c, k) == Ok(None) <==> SectorMissesBefore(manifest, c, |manifest|)
    ensures forall m :: (k <= m < |manifest| && SectorMissesBefore(manifest, c, m) &&
                         |manifest[m].1| == 4 && InBox(manifest[m].1, c))
                        ==> GetSectorFrom(manifest, c, k) == Ok(Some(manifest[m].0))
    ensures forall m :: (k <= m < |manifest| && SectorMissesBefore(manifest, c, m) && |manifest[m].1| != 4)
                        ==> GetSectorFrom(manifest, c, k) == Raise(ValueError)
    decreases |manifest| - k
  {
    if k < |manifest| && SectorMiss(manifest, c, k) {
      GetSectorFromFirstMatch(manifest, c, k + 1);
      assert SectorMissesBefore(manifest, c, k + 1);
      forall m | k <= m < |manifest| && SectorMissesBefore(manifest, c, m) && !SectorMiss(manifest, c, m)
        ensures m > k
      {
      }
    } else if k < |manifest| {
      assert !SectorMissesBefore(manifest, c, |manifest|) by {
        assert !SectorMiss(manifest, c, k);
      }
      forall m | k < m < |manifest|
        ensures !SectorMissesBefore(manifest, c, m)
      {
        assert !SectorMiss(manifest, c, k);
      }
    }
  }

  /**
   * get_sector is a first-match search. With k the first entry that is not a miss, it returns k's
   * key when k's box holds the point and raises ValueError when k's box does not unpack; it returns
   * None exactly when every entry is a miss.
   */
  lemma GetSectorFirstMatch(manifest: seq<(string, seq<real>)>, c: LatLng)
    ensures GetSector(manifest, c) == Ok(None) <==> SectorMissesBefore(manifest, c, |manifest|)
    ensures forall k :: (0 <= k < |manifest| && SectorMissesBefore(manifest, c, k) &&
                         |manifest[k].1| == 4 && InBox(manifest[k].1, c))
                        ==> GetSector(manifest, c) == Ok(Some(manifest[k].0))
    ensures forall k :: (0 <= k < |manifest| && SectorMissesBefore(manifest, c, k) && |manifest[k].1| != 4)
                        ==> GetSector(manifest, c) == Raise(ValueError)
  {
    GetSectorFromFirstMatch(manifest, c, 0);
  }

  /** Any key the scan from entry k returns names a later entry whose box holds the coordinate. */
  lemma {:induction false} GetSectorKeyHolds(manifest: seq<(string, seq<real>)>, c: LatLng, k: nat)
    requires k <= |manifest|
    ensures GetSectorFrom(manifest, c, k).Ok? && GetSectorFrom(manifest, c, k).value.Some? ==>
      exists m :: k <= m < |manifest| && manifest[m].0 == GetSectorFrom(manifest, c, k).value.value &&
        |manifest[m].1| == 4 && InBox(manifest[m].1, c)
    decreases |manifest| - k
  {
    if k < |manifest| && SectorMiss(manifest, c, k) {
      GetSectorKeyHolds(manifest, c, k + 1);
    }
  }

  /** When every box has four values, the scan never raises. */
  lemma {:induction false} GetSectorNeverRaises(manifest: seq<(string, seq<real>)>, c: LatLng, k: nat)
    requires k <= |manifest|
    requires forall m :: 0 <= m < |manifest| ==> |manifest[m].1| == 4
    ensures GetSectorFrom(manifest, c, k).Ok?
    decreases |manifest| - k
  {
    if k < |manifest| {
      GetSectorNeverRaises(manifest, c, k + 1);
    }
  }

  /** The manifest of the package's unit test. */
  function TestSectors(): seq<(string, seq<real>)>
  {
    [("sector1", [0.0, 0.0, 5.0, 5.0]), ("sector2", [6.0, 6.0, 10.0, 10.0])]
  }

  lemma GetSectorExamples()
    ensures GetSector(TestSectors(), LatLng(3.0, 3.0)) == Ok(Some("sector1"))
    ensures GetSector(TestSectors(), LatLng(7.0, 7.0)) == Ok(Some("sector2"))
    ensures GetSector(TestSectors(), LatLng(11.0, 11.0)) == Ok(None)
  {
  }

  // ---------------------------------------------------------- point_in_polygon

  /** The tolerance added to the divisor of the edge test, 1e-15. */
  const Epsilon: real := 0.000000000000001

  /** An edge as the loop visits it: vertex i paired with vertex j = (i - 1) mod n. */
  type Edge = (Point, Point)

  /** Python's `(i - 1) % n` for 0 <= i < n: the previous index, n - 1 for i = 0. */
  lemma PreviousIndex(i: int, n: int)
    requires 0 <= i < n
    ensures (i - 1) % n == if i == 0 then n - 1 else i - 1
  {
  }

  function EdgeAt(polygon: Ring, i: int): Edge
    requires 0 <= i < |polygon|
  {
    (polygon[i], polygon[(i - 1) % |polygon|])
  }

  /** The edges in the order the loop tests them. */
  function Edges(polygon: Ring): (es: seq<Edge>)
    ensures |es| == |polygon|
  {
    seq(|polygon|, i requires 0 <= i < |polygon| => EdgeAt(polygon, i))
  }

  /** The first conjunct of the test, `(yi > y) != (yj > y)`: the edge straddles the horizontal through the point. */
  predicate Straddles(p: Point, e: Edge)
  {
    (e.0.1 > p.1) != (e.1.1 > p.1)
  }

  /** The divisor `yj - yi + 1e-15`; Python evaluates it only when the edge straddles. */
  function Divisor(e: Edge): real
  {
    e.1.1 - e.0.1 + Epsilon
  }

  /** `x < (xj - xi) * (y - yi) / (yj - yi + 1e-15) + xi`, the second conjunct of the test. */
  predicate LeftOfEdge(x: real, y: real, xi: real, yi: real, xj: real, yj: real)
    requires yj - yi + Epsilon != 0.0
  {
    x < (xj - xi) * (y - yi) / (yj - yi + Epsilon) + xi
  }

  /** The edge test raises: it straddles and its divisor is zero, which over the reals means yj - yi = -1e-15. */
  predicate DividesByZero(p: Point, e: Edge)
  {
    Straddles(p, e) && Divisor(e) == 0.0
  }

  /** The edge test succeeds: it straddles and the point lies left of the edge at the point's height. */
  predicate Crosses(p: Point, e: Edge)
  {
    Straddles(p, e) && Divisor(e) != 0.0 && LeftOfEdge(p.0, p.1, e.0.0, e.0.1, e.1.0, e.1.1)
  }

  /** How many of the edges the point's ray crosses. */
  function CrossingCount(p: Point, es: seq<Edge>): nat
  {
    if es == [] then 0 else (if Crosses(p, es[0]) then 1 else 0) + CrossingCount(p, es[1..])
  }

  predicate AnyDividesByZero(p: Point, es: seq<Edge>)
  {
    exists e :: e in es && DividesByZero(p, e)
  }

  /**
   * The even-odd rule: the point is inside when an odd number of edges cross its ray; the whole
   * call raises when any edge test divides by zero.
   */
  function Inside(p: Point, polygon: Ring): (r: Result<bool>)
    ensures r.Raise? ==> r.error == ZeroDivisionError
  {
    var es := Edges(polygon);
    if AnyDividesByZero(p, es) then Raise(ZeroDivisionError) else Ok(CrossingCount(p, es) % 2 == 1)
  }

  lemma {:induction false} CrossingCountAppend(p: Point, a: seq<Edge>, b: seq<Edge>)
    ensures CrossingCount(p, a + b) == CrossingCount(p, a) + CrossingCount(p, b)
  {
    if a == [] {
      assert a + b == b;
    } else {
      assert (a + b)[0] == a[0];
      assert (a + b)[1..] == a[1..] + b;
      CrossingCountAppend(p, a[1..], b);
    }
  }

  /** One more edge extends the count and the error condition by that edge alone. */
  lemma EdgePrefixStep(p: Point, es: seq<Edge>, i: int)
    requires 0 <= i < |es|
    ensures CrossingCount(p, es[..i + 1]) == CrossingCount(p, es[..i]) + (if Crosses(p, es[i]) then 1 else 0)
    ensures AnyDividesByZero(p, es[..i + 1]) <==> AnyDividesByZero(p, es[..i]) || DividesByZero(p, es[i])
  {
    assert es[..i + 1] == es[..i] + [es[i]];
    CrossingCountAppend(p, es[..i], [es[i]]);
    forall e | e in es[..i + 1]
      ensures e in es[..i] || e == es[i]
    {
    }
  }

  /** An edge test that divides by zero makes the whole call raise. */
  lemma EdgeRaises(p: Point, polygon: Ring, i: int)
    requires 0 <= i < |polygon| && DividesByZero(p, EdgeAt(polygon, i))
    ensures Inside(p, polygon) == Raise(ZeroDivisionError)
  {
    assert Edges(polygon)[i] in Edges(polygon);
  }

  /** `point_in_polygon`: toggles `inside` for every crossing edge, in vertex order. */
  method PointInPolygon(point: Point, polygon: Ring) returns (r: Result<bool>)
    ensures r == Inside(point, polygon)
  {
    var (x, y) := point;
    var inside := false;
    var n := |polygon|;
    ghost var es := Edges(polygon);
    for i := 0 to n
      invariant !AnyDividesByZero(point, es[..i])
      invariant inside == (CrossingCount(point, es[..i]) % 2 == 1)
    {
      var j := (i - 1) % n;
      var (xi, yi) := polygon[i];
      var (xj, yj) := polygon[j];
      assert es[i] == ((xi, yi), (xj, yj));
      EdgePrefixStep(point, es, i);
      var straddles := (yi > y) != (yj > y);
      if straddles && yj - yi + Epsilon == 0.0 {
        EdgeRaises(point, polygon, i);
        return Raise(ZeroDivisionError);
      }
      var intersect := straddles && LeftOfEdge(x, y, xi, yi, xj, yj);
      assert intersect == Crosses(point, es[i]);
      if intersect {
        inside := !inside;
      }
    }
    assert es[..n] == es;
    r := Ok(inside);
  }

  /** An empty polygon has no edges: the loop body never runs. */
  lemma EmptyPolygonOutside(p: Point)
    ensures Inside(p, []) == Ok(false)
  {
  }

  lemma {:induction false} NoStraddleNoCrossing(p: Point, es: seq<Edge>)
    requires forall e :: e in es ==> !Straddles(p, e)
    ensures CrossingCount(p, es) == 0 && !AnyDividesByZero(p, es)
  {
    if es != [] {
      assert es[0] in es;
      NoStraddleNoCrossing(p, es[1..]);
    }
  }

  /** A point at or above every vertex, or below every vertex, is outside: no edge straddles its height. */
  lemma {:induction false} OutsideVerticalRange(p: Point, polygon: Ring)
    requires (forall v :: v in polygon ==> v.1 <= p.1) || (forall v :: v in polygon ==> v.1 > p.1)
    ensures Inside(p, polygon) == Ok(false)
  {
    var es := Edges(polygon);
    forall e | e in es
      ensures !Straddles(p, e)
    {
      var i :| 0 <= i < |es| && es[i] == e;
      assert e.0 in polygon && e.1 in polygon;
    }
    NoStraddleNoCrossing(p, es);
  }

  /** The sequence with its first k elements moved to the end. */
  function Rotate<T>(s: seq<T>, k: int): seq<T>
    requires 0 <= k <= |s|
  {
    s[k..] + s[..k]
  }

  /** Edge i of the rotated ring is edge i + k (mod n) of the original ring. */
  lemma EdgeRotateAt(polygon: Ring, k: int, i: int)
    requires 0 <= k <= |polygon| && 0 <= i < |polygon|
    ensures EdgeAt(Rotate(polygon, k), i) == Rotate(Edges(polygon), k)[i]
  {
    var n := |polygon|;
    var q := Rotate(polygon, k);
    var m := if i + k < n then i + k else i + k - n;
    assert q[i] == polygon[m];
    assert Rotate(Edges(polygon), k)[i] == EdgeAt(polygon, m);
    PreviousIndex(i, n);
    PreviousIndex(m, n);
    var pi := if i == 0 then n - 1 else i - 1;
    var pm := if m == 0 then n - 1 else m - 1;
    assert pm == if pi + k < n then pi + k else pi + k - n;
    assert q[pi] == polygon[pm];
  }

  lemma EdgesRotate(polygon: Ring, k: int)
    requires 0 <= k <= |polygon|
    ensures Edges(Rotate(polygon, k)) == Rotate(Edges(polygon), k)
  {
    forall i | 0 <= i < |polygon|
      ensures Edges(Rotate(polygon, k))[i] == Rotate(Edges(polygon), k)[i]
    {
      EdgeRotateAt(polygon, k, i);
    }
  }

  /** The classification does not depend on which vertex the ring starts at. */
  lemma {:induction false} InsideRotationInvariant(p: Point, polygon: Ring, k: int)
    requires 0 <= k <= |polygon|
    ensures Inside(p, Rotate(polygon, k)) == Inside(p, polygon)
  {
    var es := Edges(polygon);
    EdgesRotate(polygon, k);
    assert es == es[..k] + es[k..];
    CrossingCountAppend(p, es[..k], es[k..]);
    CrossingCountAppend(p, es[k..], es[..k]);
    forall e
      ensures e in Rotate(es, k) <==> e in es
    {
      assert e in es[..k] + es[k..] <==> e in es;
    }
  }

  /** An axis-aligned square, listed counter-clockwise from its lower-left corner as in the unit tests. */
  function Square(lo: real, hi: real): Ring
  {
    [(lo, lo), (lo, hi), (hi, hi), (hi, lo)]
  }

  /**
   * A square holds every point strictly inside it: only its right edge crosses the point's ray, and
   * its left edge, which also straddles, has a non-zero divisor.
   */
  lemma SquareHolds(lo: real, hi: real, p: Point)
    requires lo + 1.0 <= hi && lo < p.0 < hi && lo < p.1 < hi
    ensures Inside(p, Square(lo, hi)) == Ok(true)
  {
    var es := Edges(Square(lo, hi));
    assert es == [((lo, lo), (hi, lo)), ((lo, hi), (lo, lo)), ((hi, hi), (lo, hi)), ((hi, lo), (hi, hi))];
    assert !Straddles(p, es[0]) && !Straddles(p, es[2]);
    assert !Crosses(p, es[1]);
    assert Crosses(p, es[3]);
    assert CrossingCount(p, es[3..]) == 1;
    assert CrossingCount(p, es[2..]) == 1;
    assert CrossingCount(p, es[1..]) == 1;
    forall e | e in es
      ensures !DividesByZero(p, e)
    {
    }
  }

  lemma PointInPolygonExamples()
    ensures Inside((1.0, 1.0), Square(0.0, 2.0)) == Ok(true)
    ensures Inside((3.0, 3.0), Square(0.0, 2.0)) == Ok(false)
  {
    SquareHolds(0.0, 2.0, (1.0, 1.0));
    OutsideVerticalRange((3.0, 3.0), Square(0.0, 2.0));
  }

  // --------------------------------------------------------------- get_country

  /** Country k's ring classifies the point `[lat, lng]` as outside without raising: the scan moves on. */
  predicate CountryMiss(sector: seq<(string, Ring)>, c: LatLng, k: int)
    requires 0 <= k < |sector|
  {
    Inside((c.lat, c.lng), sector[k].1) == Ok(false)
  }

  predicate CountryMissesBefore(sector: seq<(string, Ring)>, c: LatLng, k: int)
    requires k <= |sector|
  {
    forall j :: 0 <= j < k ==> CountryMiss(sector, c, j)
  }

  /** The loop of `get_country` from country k on. */
  function GetCountryFrom(sector: seq<(string, Ring)>, c: LatLng, k: nat): (r: Result<Option<string>>)
    requires k <= |sector|
    ensures r.Raise? ==> r.error == ZeroDivisionError
    decreases |sector| - k
  {
    if k == |sector| then Ok(None)
    else
      match Inside((c.lat, c.lng), sector[k].1)
      case Raise(e) => Raise(e)
      case Ok(true) => Ok(Some(sector[k].0))
      case Ok(false) => GetCountryFrom(sector, c, k + 1)
  }

  /** `get_country`: the first country, in mapping order, whose ring holds the point `[lat, lng]`. */
  function GetCountry(sector: seq<(string, Ring)>, c: LatLng): (r: Result<Option<string>>)
    ensures r.Raise? ==> r.error == ZeroDivisionError
  {
    GetCountryFrom(sector, c, 0)
  }

  lemma {:induction false} GetCountryFromFirstMatch(sector: seq<(string, Ring)>, c: LatLng, k: nat)
    requires k <= |sector| && CountryMissesBefore(sector, c, k)
    ensures GetCountryFrom(sector, c, k) == Ok(None) <==> CountryMissesBefore(sector, c, |sector|)
    ensures forall m :: (k <= m < |sector| && CountryMissesBefore(sector, c, m) &&
                         Inside((c.lat, c.lng), sector[m].1) == Ok(true))
                        ==> GetCountryFrom(sector, c, k) == Ok(Some(sector[m].0))
    ensures forall m :: (k <= m < |sector| && CountryMissesBefore(sector, c, m) &&
                         Inside((c.lat, c.lng), sector[m].1).Raise?)
                        ==> GetCountryFrom(sector, c, k) == Raise(ZeroDivisionError)
    decreases |sector| - k
  {
    if k < |sector| && CountryMiss(sector, c, k) {
      GetCountryFromFirstMatch(sector, c, k + 1);
      assert CountryMissesBefore(sector, c, k + 1);
      forall m | k <= m < |sector| && CountryMissesBefore(sector, c, m) && !CountryMiss(sector, c, m)
        ensures m > k
      {
      }
    } else if k < |sector| {
      assert !CountryMissesBefore(sector, c, |sector|) by {
        assert !CountryMiss(sector, c, k);
      }
      forall m | k < m < |sector|
        ensures !CountryMissesBefore(sector, c, m)
      {
        assert !CountryMiss(sector, c, k);
      }
    }
  }

  /**
   * get_country is a first-match search. With k the first country whose ring does not leave the
   * point outside, it returns k's key when the ring holds the point and propagates the
   * ZeroDivisionError when the ring test raises; it returns None exactly when every ring leaves the
   * point outside.
   */
  lemma GetCountryFirstMatch(sector: seq<(string, Ring)>, c: LatLng)
    ensures GetCountry(sector, c) == Ok(None) <==> CountryMissesBefore(sector, c, |sector|)
    ensures forall k :: (0 <= k < |sector| && CountryMissesBefore(sector, c, k) &&
                         Inside((c.lat, c.lng), sector[k].1) == Ok(true))
                        ==> GetCountry(sector, c) == Ok(Some(sector[k].0))
    ensures forall k :: (0 <= k < |sector| && CountryMissesBefore(sector, c, k) &&
                         Inside((c.lat, c.lng), sector[k].1).Raise?)
                        ==> GetCountry(sector, c) == Raise(ZeroDivisionError)
  {
    GetCountryFromFirstMatch(sector, c, 0);
  }

  /** The sector file of the package's unit test. */
  function TestCountries(): seq<(string, Ring)>
  {
    [("country1", Square(0.0, 5.0)), ("country2", Square(6.0, 10.0))]
  }

  /** The unit test's point (2, 2) lies in the first country's square. */
  lemma GetCountryFirstExample()
    ensures GetCountry(TestCountries(), LatLng(2.0, 2.0)) == Ok(Some("country1"))
  {
    SquareHolds(0.0, 5.0, (2.0, 2.0));
  }

  /** The unit test's point (7, 7) lies above the first square and inside the second. */
  lemma GetCountrySecondExample()
    ensures GetCountry(TestCountries(), LatLng(7.0, 7.0)) == Ok(Some("country2"))
  {
    OutsideVerticalRange((7.0, 7.0), Square(0.0, 5.0));
    SquareHolds(6.0, 10.0, (7.0, 7.0));
  }

  /** The unit test's point (11, 11) lies above both squares. */
  lemma GetCountryNoneExample()
    ensures GetCountry(TestCountries(), LatLng(11.0, 11.0)) == Ok(None)
  {
    OutsideVerticalRange((11.0, 11.0), Square(0.0, 5.0));
    OutsideVerticalRange((11.0, 11.0), Square(6.0, 10.0));
  }
}
