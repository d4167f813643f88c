/** Mapping face locations found on the downsized frame back to the full
    frame: every coordinate is divided by the resize factor and cast to an
    integer (`astype(int)`, which truncates toward zero). */
module Reconciler {

  /** A face location as the detector reports it: `(top, right, bottom, left)`. */
  datatype Location = Location(top: int, right: int, bottom: int, left: int)

  /** Truncation of a real toward zero, as an integer cast does. */
  function Trunc(x: real): (n: int)
    ensures 0.0 <= x ==> 0 <= n && n as real <= x < n as real + 1.0
    ensures x < 0.0 ==> n <= 0 && n as real - 1.0 < x <= n as real
  {
    if x >= 0.0 then x.Floor else -((-x).Floor)
  }

  lemma ProductPositive(a: real, b: real)
    requires a > 0.0 && b > 0.0
    ensures a * b > 0.0
  {
  }

  /** One coordinate divided by the resize factor and truncated. */
  function ScaleCoord(x: int, factor: real): int
    requires factor > 0.0
  {
    Trunc(x as real / factor)
  }

  /** For a non-negative coordinate and any positive factor, the rescaled
      coordinate is the largest pixel whose downscaled position does not
      pass the detected one: truncation loses less than one factor's worth. */
  lemma ScaleCoordBounds(x: int, factor: real)
    requires factor > 0.0 && 0 <= x
    ensures 0 <= ScaleCoord(x, factor)
    ensures ScaleCoord(x, factor) as real * factor <= x as real
    ensures x as real < ScaleCoord(x, factor) as real * factor + factor
  {
    var q := x as real / factor;
    var y := ScaleCoord(x, factor);
    assert q * factor == x as real;
    assert 0.0 <= q by {
      if q < 0.0 { ProductPositive(-q, factor); }
    }
    assert y == Trunc(q);
    assert y as real <= q < y as real + 1.0;
    assert (q - y as real) * factor == x as real - y as real * factor;
    assert (y as real + 1.0 - q) * factor == y as real * factor + factor - x as real;
    ProductPositive(y as real + 1.0 - q, factor);
    assert x as real < y as real * factor + factor;
    if q - y as real > 0.0 {
      ProductPositive(q - y as real, factor);
    }
  }

  /** With the factor 0.25 used for every frame, a coordinate is exactly
      multiplied by four, negative or not: nothing is lost to truncation. */
  lemma ScaleByQuarter(x: int)
    ensures ScaleCoord(x, 0.25) == 4 * x
  {
    assert x as real / 0.25 == (4 * x) as real;
  }

  /** One location mapped back to the full frame. */
  function RescaleLocation(loc: Location, factor: real): Location
    requires factor > 0.0
  {
    Location(ScaleCoord(loc.top, factor), ScaleCoord(loc.right, factor),
             ScaleCoord(loc.bottom, factor), ScaleCoord(loc.left, factor))
  }

  /** With the factor 0.25 every location is scaled by four, so a location
      can be read back from its rescaled form: rescaling is injective and
      keeps the order of the coordinates. */
  lemma RescaleQuarter(loc: Location)
    ensures RescaleLocation(loc, 0.25)
            == Location(4 * loc.top, 4 * loc.right, 4 * loc.bottom, 4 * loc.left)
    ensures var r := RescaleLocation(loc, 0.25);
            Location(r.top / 4, r.right / 4, r.bottom / 4, r.left / 4) == loc
  {
    ScaleByQuarter(loc.top);
    ScaleByQuarter(loc.right);
    ScaleByQuarter(loc.bottom);
    ScaleByQuarter(loc.left);
  }

  /** All locations of a frame mapped back, one for one and in detector order. */
  function RescaleLocations(locs: seq<Location>, factor: real): (r: seq<Location>)
    requires factor > 0.0
    ensures |r| == |locs|
    ensures forall i :: 0 <= i < |locs| ==> r[i] == RescaleLocation(locs[i], factor)
    decreases |locs|
  {
    if |locs| == 0 then []
    else [RescaleLocation(locs[0], factor)] + RescaleLocations(locs[1..], factor)
  }

  /** Rescaling whole frames commutes with splitting the location list. */
  lemma {:induction false} RescaleAppend(a: seq<Location>, b: seq<Location>, factor: real)
    requires factor > 0.0
    ensures RescaleLocations(a + b, factor) == RescaleLocations(a, factor) + RescaleLocations(b, factor)
  {
    var l := RescaleLocations(a + b, factor);
    var r := RescaleLocations(a, factor) + RescaleLocations(b, factor);
    assert |l| == |r|;
    forall i | 0 <= i < |l| ensures l[i] == r[i] {
      if i < |a| { assert (a + b)[i] == a[i]; } else { assert (a + b)[i] == b[i - |a|]; }
    }
  }
}
