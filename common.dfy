/** Values shared by the lookup code and the preprocessing pipeline. */
module Common {

  /** A vertex or a query point, in the order the code unpacks it: `x, y = point`. */
  type Point = (real, real)

  /** A polygon ring: its vertices in order, the closing edge implied. */
  type Ring = seq<Point>

  /** The query coordinate, `{lat, lng}`. */
  datatype LatLng = LatLng(lat: real, lng: real)

  /** A single-entry dictionary `{name: ring}`, the shape of every item of a country map. */
  datatype Feature = Feature(name: string, ring: Ring)

  datatype Option<T> = None | Some(value: T)

  /** The Python exceptions the modelled code can raise. */
  datatype Exception =
    | ValueError          // unpacking a bounding box that does not have exactly four values
    | ZeroDivisionError   // a zero divisor in the ray-casting edge test

  /** A Python call either returns a value or raises. */
  datatype Result<T> = Ok(value: T) | Raise(error: Exception)
}

/** Order-preserving deletion, the relation between a list and what a filter or a `pop` leaves of it. */
module Seqs {

  /** `a` is what remains of `b` after deleting zero or more of its elements; the rest keep their order. */
  ghost predicate IsSubsequence<T>(a: seq<T>, b: seq<T>)
    decreases |b|
  {
    if a == [] then true
    else if b == [] then false
    else (a[0] == b[0] && IsSubsequence(a[1..], b[1..])) || IsSubsequence(a, b[1..])
  }

  /** `list.pop(i)`, with the popped element discarded. */
  function RemoveAt<T>(s: seq<T>, i: int): (r: seq<T>)
    requires 0 <= i < |s|
    ensures |r| == |s| - 1
    ensures forall k :: 0 <= k < i ==> r[k] == s[k]
    ensures forall k :: i <= k < |r| ==> r[k] == s[k + 1]
  {
    s[..i] + s[i + 1..]
  }

  lemma {:induction false} SubsequenceRefl<T>(s: seq<T>)
    ensures IsSubsequence(s, s)
    decreases |s|
  {
    if s != [] {
      SubsequenceRefl(s[1..]);
    }
  }

  lemma {:induction false} SubsequenceTrans<T>(a: seq<T>, b: seq<T>, c: seq<T>)
    requires IsSubsequence(a, b) && IsSubsequence(b, c)
    ensures IsSubsequence(a, c)
    decreases |c|
  {
    if a != [] {
      assert b != [] && c != [];
      if IsSubsequence(b, c[1..]) {
        SubsequenceTrans(a, b, c[1..]);
      } else if a[0] == b[0] && IsSubsequence(a[1..], b[1..]) {
        SubsequenceTrans(a[1..], b[1..], c[1..]);
      } else {
        SubsequenceTrans(a, b[1..], c[1..]);
      }
    }
  }

  /** Every element of a subsequence comes from the sequence, and it is no longer. */
  lemma {:induction false} SubsequenceElements<T>(a: seq<T>, b: seq<T>)
    requires IsSubsequence(a, b)
    ensures |a| <= |b|
    ensures forall x :: x in a ==> x in b
    decreases |b|
  {
    if a != [] {
      if a[0] == b[0] && IsSubsequence(a[1..], b[1..]) {
        SubsequenceElements(a[1..], b[1..]);
        forall x | x in a
          ensures x in b
        {
          if x != a[0] {
            assert x in a[1..];
          }
        }
      } else {
        SubsequenceElements(a, b[1..]);
      }
    }
  }

  /** Popping one element leaves a subsequence. */
  lemma {:induction false} RemoveAtSubsequence<T>(s: seq<T>, i: int)
    requires 0 <= i < |s|
    ensures IsSubsequence(RemoveAt(s, i), s)
    decreases |s|
  {
    var r := RemoveAt(s, i);
    if i == 0 {
      assert r == s[1..];
      SubsequenceRefl(s[1..]);
      if r != [] {
        assert IsSubsequence(r, s[1..]);
      }
    } else {
      assert r[0] == s[0];
      assert r[1..] == RemoveAt(s[1..], i - 1);
      RemoveAtSubsequence(s[1..], i - 1);
    }
  }
}
