/**
  `convertToGeoJSON` (src/App.tsx lines 16-28). The polyline decoder itself is
  a foreign library and is not part of this model: its output, the decoded
  (latitude, longitude) pairs, is the input here.
*/
module Geometry {

  /** A coordinate pair. The decoder yields (lat, lng); GeoJSON wants (lng, lat). */
  type Point = (real, real)

  /** The GeoJSON object the source builds: a `type` tag and its coordinates. */
  datatype GeoJson = GeoJson(kind: string, coordinates: seq<Point>)

  /** `map(([lat, lng]) => [lng, lat])`: swaps the two axes of every point, keeping count and order. */
  function SwapAxes(points: seq<Point>): (r: seq<Point>)
    ensures |r| == |points|
    ensures forall i :: 0 <= i < |points| ==> r[i].0 == points[i].1 && r[i].1 == points[i].0
  {
    if points == [] then [] else [(points[0].1, points[0].0)] + SwapAxes(points[1..])
  }

  /** A "LineString" whose i-th coordinate is the i-th decoded point with its axes swapped. */
  function ConvertToGeoJson(decoded: seq<Point>): (g: GeoJson)
    ensures g.kind == "LineString"
    ensures |g.coordinates| == |decoded|
    ensures forall i :: 0 <= i < |decoded| ==> g.coordinates[i] == (decoded[i].1, decoded[i].0)
  {
    GeoJson("LineString", SwapAxes(decoded))
  }

  /** Swapping twice gives back the decoded points. */
  lemma SwapAxesInvolution(points: seq<Point>)
    ensures SwapAxes(SwapAxes(points)) == points
  {
  }

  /** The swap works point by point: it commutes with concatenation, so no point moves. */
  lemma {:induction false} SwapAxesAppend(a: seq<Point>, b: seq<Point>)
    ensures SwapAxes(a + b) == SwapAxes(a) + SwapAxes(b)
  {
    if a != [] {
      assert (a + b)[1..] == a[1..] + b;
      SwapAxesAppend(a[1..], b);
    }
  }
}
