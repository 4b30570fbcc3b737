/** What global and local decode promise for every position. */
module CprTheorems {
  import opened Cpr
  import opened CprEncode
  import opened CprGlobal

  // --- Indices of one position -------------------------------------------------------------

  lemma RoundedIndexFloor(x: real, d: real)
    requires d > 0.0
    ensures RoundedIndex(x, d) == (x / d * 131072.0 + 0.5).Floor
  {
    FloorUnique(x / d * 131072.0 + 0.5, RoundedIndex(x, d));
  }

  /** The encoder never leaves the valid latitudes, even at the poles. */
  lemma LatRoundIsValid(lat: real, odd: bool)
    requires ValidLat(lat)
    ensures ValidLat(LatRound(lat, odd))
  {
    RoundedIndexFloor(lat, DLat(odd));
    var n := LatIndex(lat, odd);
    if odd {
      assert lat / DLat(odd) * 131072.0 == lat * 59.0 * 131072.0 / 360.0;
      assert -1933312 <= n <= 1933312;
    } else {
      assert lat / DLat(odd) * 131072.0 == lat * 131072.0 / 6.0;
      assert -1966080 <= n <= 1966080;
    }
  }

  lemma LatIndicesOfOnePosition(lat: real)
    ensures IndicesClose(LatIndex(lat, false), LatIndex(lat, true))
  {
    IndexIsNearest(lat, DLat(false));
    IndexIsNearest(lat, DLat(true));
    assert lat / DLat(false) == lat / 6.0;
    assert lat / DLat(true) == lat * 59.0 / 360.0;
  }

  lemma LonScale(x: real, z: nat)
    requires z >= 1
    ensures x / (360.0 / z as real) * 131072.0 == (x * 131072.0 / 360.0) * z as real
  {
    var d, t := 360.0 / z as real, x / (360.0 / z as real);
    ZoneSize(z);
    DivMul(x, d);
    assert t * (d * z as real) == (d * t) * z as real;
    assert t * 360.0 == x * z as real;
  }

  /** Cross-multiplied rounding errors of two scaled copies of one number. */
  lemma CrossError(t: real, zo: int, ze: int, n0: int, n1: int)
    requires 1 <= zo <= 59 && 1 <= ze <= 59
    requires -0.5 <= n0 as real - t * ze as real <= 0.5
    requires -0.5 <= n1 as real - t * zo as real <= 0.5
    ensures -65536 <= zo * n0 - ze * n1 < 65536
  {
    var a, b := zo as real, ze as real;
    SmallProduct(a, n0 as real - t * b);
    SmallProduct(b, n1 as real - t * a);
    CrossCancel(t, a, b, n0 as real, n1 as real);
    CastProduct(zo, n0);
    CastProduct(ze, n1);
  }

  lemma SmallProduct(a: real, e: real)
    requires 1.0 <= a <= 59.0 && -0.5 <= e <= 0.5
    ensures -29.5 <= a * e <= 29.5
  {
    SmallAbove(a, e);
    SmallAbove(a, -e);
  }

  lemma SmallAbove(a: real, e: real)
    requires 1.0 <= a <= 59.0 && e <= 0.5
    ensures a * e <= 29.5
  {
    AtMostHalf(a, e, a * e, a * 0.5);
  }

  lemma AtMostHalf(a: real, e: real, p: real, q: real)
    requires 1.0 <= a <= 59.0 && e <= 0.5 && p == a * e && q == a * 0.5
    ensures p <= q <= 29.5
  {
    MulMono(a, e, 0.5);
  }

  lemma MulMono(a: real, e: real, f: real)
    requires a >= 0.0 && e <= f
    ensures a * e <= a * f
  {
  }

  lemma CrossCancel(t: real, a: real, b: real, n0: real, n1: real)
    ensures a * (n0 - t * b) - b * (n1 - t * a) == a * n0 - b * n1
  {
  }

  lemma CastProduct(z: int, n: int)
    ensures (z * n) as real == z as real * n as real
  {
  }

  lemma LonIndicesOfOnePosition(lon: real, nl: nat)
    requires 1 <= nl <= 59
    ensures LonIndicesClose(nl, LonIndex(lon, nl, false), LonIndex(lon, nl, true))
  {
    hide LonIndex, LonZones;
    var zo, ze := LonZones(nl, true), LonZones(nl, false);
    LonIndexNear(lon, nl, false);
    LonIndexNear(lon, nl, true);
    CrossError(lon * 131072.0 / 360.0, zo, ze, LonIndex(lon, nl, false), LonIndex(lon, nl, true));
  }

  lemma LonIndexNear(lon: real, nl: nat, odd: bool)
    requires 1 <= nl <= 59
    ensures 1 <= LonZones(nl, odd) <= 59
    ensures -0.5 <= LonIndex(lon, nl, odd) as real - (lon * 131072.0 / 360.0) * LonZones(nl, odd) as real <= 0.5
  {
    hide RoundedIndex;
    IndexIsNearest(lon, DLon(nl, odd));
    LonScale(lon, LonZones(nl, odd));
  }

  // --- Global decode of an encoded pair ---------------------------------------------------

  /** The two positions are near enough for the pair to identify both latitude zones. */
  predicate NearLat(posEven: LatLon, posOdd: LatLon) {
    IndicesClose(LatIndex(posEven.lat, false), LatIndex(posOdd.lat, true))
  }

  predicate NearLon(posEven: LatLon, posOdd: LatLon, nl: nat) {
    LonIndicesClose(nl, LonIndex(posEven.lon, nl, false), LonIndex(posOdd.lon, nl, true))
  }

  /**
   An aircraft that moved between its even and its odd message, but not too far, is placed
   exactly where its most recent message rounded to, or the pair is refused because the two
   rounded latitudes have different zone counts.
   */
  lemma MovingRoundTrip(posEven: LatLon, posOdd: LatLon, recentOdd: bool)
    requires ValidLat(posEven.lat) && ValidLat(posOdd.lat) && NearLat(posEven, posOdd)
    requires NearLon(posEven, posOdd, Nl(LatRound(posEven.lat, false)))
    ensures var result := GlobalDecode(Encode(posEven, false), Encode(posOdd, true), recentOdd);
            var recent := if recentOdd then posOdd else posEven;
            var nl := Nl(LatRound(posEven.lat, false));
            if nl != Nl(LatRound(posOdd.lat, true)) then result == Err(LatitudeZoneMismatch)
            else
              && result.Ok?
              && result.value.lat == LatRound(recent.lat, recentOdd)
              && SameMeridian(result.value.lon, LonOf(LonIndex(recent.lon, nl, recentOdd), nl, recentOdd))
              && -180.0 <= result.value.lon < 180.0
  {
    hide Nl, LatIndex, LonIndex, LonOf, PairLat, PairLon, SameMeridian, LonZones;
    var even, odd := Encode(posEven, false), Encode(posOdd, true);
    var n0, n1 := LatIndex(posEven.lat, false), LatIndex(posOdd.lat, true);
    LatRoundIsValid(posEven.lat, false);
    LatRoundIsValid(posOdd.lat, true);
    PairLatRightIff(even, odd, n0, n1);
    var nl := Nl(LatRound(posEven.lat, false));
    if nl == Nl(LatRound(posOdd.lat, true)) {
      PairLonRight(even, odd, nl, LonIndex(posEven.lon, nl, false), LonIndex(posOdd.lon, nl, true), recentOdd);
    }
  }

  /** Within half a quantization step of `truth`, longitude modulo 360. */
  ghost predicate WithinHalfStep(result: LatLon, truth: LatLon, nl: nat, odd: bool) {
    && Abs(result.lat - truth.lat) <= DLat(odd) / 262144.0
    && exists lon: real ::
         && SameMeridian(result.lon, lon)
         && Abs(lon - truth.lon) <= DLon(nl, odd) / 262144.0
  }

  /**
   Global decode of one position's two encodings is refused exactly when the two rounded
   latitudes have different zone counts; otherwise it is within half a step of the truth.
   */
  lemma GlobalRoundTrip(pos: LatLon, recentOdd: bool)
    requires ValidLat(pos.lat)
    ensures var result := GlobalDecode(Encode(pos, false), Encode(pos, true), recentOdd);
            var nl := Nl(LatRound(pos.lat, false));
            if nl != Nl(LatRound(pos.lat, true)) then result == Err(LatitudeZoneMismatch)
            else result.Ok? && WithinHalfStep(result.value, pos, nl, recentOdd)
  {
    hide Nl, LatIndex, LonIndex, GlobalDecode, Encode, SameMeridian, LonZones, RoundedIndex;
    var nl := Nl(LatRound(pos.lat, false));
    LatIndicesOfOnePosition(pos.lat);
    LonIndicesOfOnePosition(pos.lon, nl);
    MovingRoundTrip(pos, pos, recentOdd);
    LatStep(pos.lat, recentOdd);
    LonStep(pos.lon, nl, recentOdd);
  }

  lemma LatStep(lat: real, odd: bool)
    ensures Abs(LatRound(lat, odd) - lat) <= DLat(odd) / 262144.0
  {
    IndexIsNearest(lat, DLat(odd));
  }

  lemma LonStep(lon: real, nl: nat, odd: bool)
    ensures Abs(LonOf(LonIndex(lon, nl, odd), nl, odd) - lon) <= DLon(nl, odd) / 262144.0
  {
    IndexIsNearest(lon, DLon(nl, odd));
  }

  /** Whatever the fields, an accepted pair lies on the globe and mismatched formats are refused. */
  lemma GlobalDecodeRange(even: CprPosition, odd: CprPosition, recentOdd: bool)
    ensures GlobalDecode(even, odd, recentOdd) == Err(ParityMismatch) <==> even.odd || !odd.odd
    ensures var r := GlobalDecode(even, odd, recentOdd);
            r.Ok? ==> ValidLat(r.value.lat) && -180.0 <= r.value.lon < 180.0
  {
    hide Nl, PairLat, PairLon, CprMod;
    var r := GlobalDecode(even, odd, recentOdd);
    if r.Ok? {
      PairLonRange(even, odd, Nl(r.value.lat), recentOdd);
    }
  }

  lemma PairLonRange(even: CprPosition, odd: CprPosition, nl: nat, useOdd: bool)
    ensures -180.0 <= PairLon(even, odd, nl, useOdd) < 180.0
  {
    hide PairLon;
    PairLonOneRightIff(even, odd, nl, even.lonCpr, odd.lonCpr, useOdd);
  }
}
