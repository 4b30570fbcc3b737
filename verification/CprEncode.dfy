/**
 The reference encoder and its round trip through global decode. An encoded coordinate is
 kept as its rounded index, the whole number of 2^-17 zones; the message carries its low
 17 bits.
 */
module CprEncode {
  import opened Cpr

  function RoundedIndex(x: real, d: real): int
    requires d > 0.0
  {
    var zone := (x / d).Floor;
    zone * 131072 + ((x / d - zone as real) * 131072.0 + 0.5).Floor
  }

  function LatIndex(lat: real, odd: bool): int {
    RoundedIndex(lat, DLat(odd))
  }

  /** The latitude an index stands for. */
  function LatOf(n: int, odd: bool): real {
    DLat(odd) * (n as real / 131072.0)
  }

  function LatRound(lat: real, odd: bool): real {
    LatOf(LatIndex(lat, odd), odd)
  }

  function LonIndex(lon: real, nl: nat, odd: bool): int {
    RoundedIndex(lon, DLon(nl, odd))
  }

  function LonOf(n: int, nl: nat, odd: bool): real {
    DLon(nl, odd) * (n as real / 131072.0)
  }

  /** The encoder of the standard: the zone count comes from the rounded latitude. */
  function Encode(pos: LatLon, odd: bool): CprPosition {
    var nl := Nl(LatRound(pos.lat, odd));
    CprPosition(LatIndex(pos.lat, odd) % 131072, LonIndex(pos.lon, nl, odd) % 131072, odd)
  }

  /** The rounded latitude of an encoder that masks the field to 17 bits first. */
  function MaskedLatRound(lat: real, odd: bool): real {
    DLat(odd) * ((lat / DLat(odd)).Floor as real + (LatIndex(lat, odd) % 131072) as real / 131072.0)
  }

  /** Masking first gives the rounded latitude, except that a fraction rounding up to a whole zone loses the zone. */
  lemma MaskedLatRoundIff(lat: real, odd: bool)
    ensures MaskedLatRound(lat, odd) ==
            if LatIndex(lat, odd) / 131072 == (lat / DLat(odd)).Floor then LatRound(lat, odd)
            else LatRound(lat, odd) - DLat(odd)
  {
    var n, q := LatIndex(lat, odd), (lat / DLat(odd)).Floor;
    assert n / 131072 == q || n / 131072 == q + 1;
    assert n as real / 131072.0 == (n / 131072) as real + (n % 131072) as real / 131072.0;
    if odd {
      assert DLat(odd) == 360.0 / 59.0;
    } else {
      assert DLat(odd) == 6.0;
    }
  }

  // --- Arithmetic ------------------------------------------------------------------

  lemma ZoneSize(z: nat)
    requires z >= 1
    ensures 360.0 / z as real > 0.0
    ensures (360.0 / z as real) * z as real == 360.0
  {
  }

  lemma MulBound(d: real, a: real, b: real)
    requires d > 0.0 && -b <= a <= b
    ensures -(d * b) <= d * a <= d * b
  {
  }

  lemma DivMul(x: real, d: real)
    requires d > 0.0
    ensures d * (x / d) == x
  {
  }

  /** A rounded index is within half a step of the coordinate. */
  lemma IndexIsNearest(x: real, d: real)
    requires d > 0.0
    ensures -0.5 <= RoundedIndex(x, d) as real - x / d * 131072.0 <= 0.5
    ensures -(d / 262144.0) <= d * (RoundedIndex(x, d) as real / 131072.0) - x <= d / 262144.0
  {
    var n, t := RoundedIndex(x, d) as real, x / d;
    assert -0.5 <= n - t * 131072.0 <= 0.5;
    DivMul(x, d);
    ErrorAbove(d, n, t, x);
    ErrorBelow(d, n, t, x);
  }

  lemma ErrorAbove(d: real, n: real, t: real, x: real)
    requires d > 0.0 && d * t == x && n - t * 131072.0 <= 0.5
    ensures d * (n / 131072.0) - x <= d / 262144.0
  {
  }

  lemma ErrorBelow(d: real, n: real, t: real, x: real)
    requires d > 0.0 && d * t == x && -0.5 <= n - t * 131072.0
    ensures -(d / 262144.0) <= d * (n / 131072.0) - x
  {
  }

  lemma FloorUnique(x: real, q: int)
    requires q as real <= x < q as real + 1.0
    ensures x.Floor == q
  {
  }

  lemma RatioBelowOne(m: real, y: real, r: real)
    requires m > 0.0 && m * y == r && 0.0 <= r < m
    ensures 0.0 <= y < 1.0
  {
    if y >= 1.0 {
      MulAtLeast(m, y);
    }
    if y < 0.0 {
      MulNegative(m, y);
    }
  }

  lemma MulAtLeast(m: real, y: real)
    requires m > 0.0 && y >= 1.0
    ensures m * y >= m
  {
    MulBound(m, 1.0, y);
  }

  lemma MulNegative(m: real, y: real)
    requires m > 0.0 && y < 0.0
    ensures m * y < 0.0
  {
  }

  lemma QuotientFloor(j: int, m: nat)
    requires m >= 1
    ensures (j as real / m as real).Floor == j / m
  {
    var x, q, r := j as real / m as real, j / m, j % m;
    DivMul(j as real, m as real);
    assert j == m * q + r;
    assert m as real * (x - q as real) == r as real;
    RatioBelowOne(m as real, x - q as real, r as real);
    FloorUnique(x, q);
  }

  lemma CprModInt(j: int, m: nat)
    requires m >= 1
    ensures CprMod(j as real, m as real) == (j % m) as real
  {
    QuotientFloor(j, m);
    assert j == m * (j / m) + j % m;
    assert m as real * (j / m) as real == (m * (j / m)) as real;
  }
}
