/**
 * The planar geometry the preprocessing scripts take from shapely. None of it is modelled: a
 * `Geometry<S>` bundles, for an opaque shape type `S`, the constructors, predicates and operations
 * the scripts call, and every operation of the pipeline takes it as a parameter. Nothing is assumed
 * about these functions, so every property proved holds for any geometry library.
 */
module Shapes {
  import opened Common

  datatype Geometry<!S> = Geometry(
    polygon: Ring -> S,                          // Polygon(coordinates)
    box: (real, real, real, real) -> S,          // box(min_x, min_y, max_x, max_y)
    intersects: (S, S) -> bool,                  // a.intersects(b)
    contains: (S, S) -> bool,                    // a.contains(b)
    union: (S, S) -> S,                          // unary_union([a, b])
    convexHull: S -> S,                          // a.convex_hull
    simplify: S -> S,                            // a.simplify(tolerance=0.1, preserve_topology=True)
    exterior: S -> Ring                          // list(a.exterior.coords)
  )

  /** `any(shape.intersects(Polygon(r)) for r in rings)`. */
  predicate IntersectsAny<S>(g: Geometry<S>, shape: S, rings: seq<Ring>)
  {
    exists k :: 0 <= k < |rings| && g.intersects(shape, g.polygon(rings[k]))
  }

  /** `[Polygon(r) for r in rings]`. */
  function Polygons<S>(g: Geometry<S>, rings: seq<Ring>): seq<S>
  {
    seq(|rings|, k requires 0 <= k < |rings| => g.polygon(rings[k]))
  }

  /** `[list(s.exterior.coords) for s in shapes]`. */
  function Exteriors<S>(g: Geometry<S>, shapes: seq<S>): seq<Ring>
  {
    seq(|shapes|, k requires 0 <= k < |shapes| => g.exterior(shapes[k]))
  }
}
