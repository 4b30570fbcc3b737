/** Local decode picks the one candidate within half a zone, and agrees with global decode. */
module CprLocal {
  import opened Cpr
  import opened CprEncode
  import opened CprGlobal
  import opened CprTheorems

  /** Within half a zone of `reference`, the upper end included. */
  predicate HalfZone(v: real, reference: real, d: real) {
    reference - d / 2.0 < v <= reference + d / 2.0
  }

  /** Zone `zone`, and no other, has its candidate within half a zone of `reference`. */
  ghost predicate UniqueNearest(reference: real, d: real, frac: real, zone: int) {
    forall k: int :: HalfZone(Candidate(d, frac, k), reference, d) <==> k == zone
  }

  lemma CprModFraction(x: real, d: real)
    requires d > 0.0
    ensures CprMod(x, d) / d == x / d - (x / d).Floor as real
  {
    var t := x / d;
    var q := t.Floor as real;
    DivMul(x, d);
    assert x - d * q == d * (t - q);
    NonNegative(d, t - q);
    DivBack(d, t - q);
  }

  lemma NonNegative(d: real, y: real)
    requires d > 0.0 && y >= 0.0
    ensures d * y >= 0.0
  {
  }

  lemma DivBack(d: real, y: real)
    requires d > 0.0
    ensures (d * y) / d == y
  {
  }

  lemma NearestZoneFloor(reference: real, d: real, frac: real)
    requires d > 0.0
    ensures NearestZone(reference, d, frac) == (reference / d - frac + 0.5).Floor
  {
    CprModFraction(reference, d);
    hide CprMod;
    FloorUnique(reference / d - frac + 0.5, NearestZone(reference, d, frac));
  }

  /** Among all zones, the chosen one is the only one whose candidate is within half a zone. */
  lemma NearestZoneIff(reference: real, d: real, frac: real, k: int)
    requires d > 0.0
    ensures k == NearestZone(reference, d, frac) <==> HalfZone(Candidate(d, frac, k), reference, d)
  {
    hide NearestZone;
    NearestZoneFloor(reference, d, frac);
    var t := reference / d;
    var u := k as real + frac;
    DivMul(reference, d);
    assert k == (t - frac + 0.5).Floor <==> t - 0.5 < u <= t + 0.5 by {
      if t - 0.5 < u <= t + 0.5 {
        FloorUnique(t - frac + 0.5, k);
      }
    }
    HalfAbove(d, u, t, reference);
    HalfBelow(d, u, t, reference);
  }

  lemma HalfAbove(d: real, u: real, t: real, x: real)
    requires d > 0.0 && d * t == x
    ensures u <= t + 0.5 <==> d * u <= x + d / 2.0
  {
    HalfStep(d, t, 0.5);
    OrderAt(d, u, t + 0.5, x + d / 2.0);
  }

  lemma HalfBelow(d: real, u: real, t: real, x: real)
    requires d > 0.0 && d * t == x
    ensures t - 0.5 < u <==> x - d / 2.0 < d * u
  {
    HalfStep(d, t, -0.5);
    OrderAt(d, u, t + -0.5, x - d / 2.0);
  }

  lemma HalfStep(d: real, t: real, h: real)
    ensures d * (t + h) == d * t + d * h
  {
  }

  lemma OrderAt(d: real, u: real, b: real, y: real)
    requires d > 0.0 && d * b == y
    ensures u <= b <==> d * u <= y
  {
    OrderScales(d, u, b);
  }

  lemma OrderScales(d: real, a: real, b: real)
    requires d > 0.0
    ensures a <= b <==> d * a <= d * b
  {
    if a > b {
      StrictScales(d, b, a);
    } else {
      MulMono(d, a, b);
    }
  }

  lemma StrictScales(d: real, a: real, b: real)
    requires d > 0.0 && a < b
    ensures d * a < d * b
  {
  }

  lemma NearestZoneIsUnique(reference: real, d: real, frac: real)
    requires d > 0.0
    ensures UniqueNearest(reference, d, frac, NearestZone(reference, d, frac))
  {
    hide NearestZone, HalfZone, Candidate;
    forall k: int
      ensures HalfZone(Candidate(d, frac, k), reference, d) <==> k == NearestZone(reference, d, frac)
    {
      NearestZoneIff(reference, d, frac, k);
    }
  }

  // --- Local decode ------------------------------------------------------------------------

  /**
   Local decode returns the unique latitude candidate within half a zone of the reference
   and then, before wrapping, the unique longitude candidate within half a zone.
   */
  lemma LocalDecodeIsNearest(msg: CprPosition, reference: LatLon, dlat: real)
    returns (j: int, m: int, dlon: real)
    requires dlat > 0.0
    ensures UniqueNearest(reference.lat, dlat, msg.LatFrac(), j)
    ensures LocalDecodeWithDlat(msg, reference, dlat).lat == WrapLat(Candidate(dlat, msg.LatFrac(), j))
    ensures dlon == LocalDlon(Nl(LocalDecodeWithDlat(msg, reference, dlat).lat), msg.odd, dlat)
    ensures UniqueNearest(reference.lon, dlon, msg.LonFrac(), m)
    ensures LocalDecodeWithDlat(msg, reference, dlat).lon == WrapLon(Candidate(dlon, msg.LonFrac(), m))
  {
    hide NearestZone, Nl, LocalDlon, UniqueNearest, Candidate;
    j := NearestZone(reference.lat, dlat, msg.LatFrac());
    NearestZoneIsUnique(reference.lat, dlat, msg.LatFrac());
    var lat := LocalDecodeWithDlat(msg, reference, dlat).lat;
    dlon := LocalDlon(Nl(lat), msg.odd, dlat);
    m := NearestZone(reference.lon, dlon, msg.LonFrac());
    NearestZoneIsUnique(reference.lon, dlon, msg.LonFrac());
  }

  // --- Global, then local -------------------------------------------------------------------

  /** The decoded coordinate sits exactly on one of the message's own candidates. */
  predicate OnZone(v: real, d: real, frac: real, k: int) {
    v == d * (k as real + frac)
  }

  /** A reference that is itself a candidate is its own nearest candidate. */
  lemma CandidateIsNearest(v: real, d: real, frac: real, k: int)
    requires d > 0.0 && OnZone(v, d, frac, k)
    ensures NearestZone(v, d, frac) == k
  {
    hide NearestZone;
    NearestZoneIff(v, d, frac, k);
  }

  lemma TurnOfZones(d: real, z: nat, frac: real, k: int)
    requires d * z as real == 360.0
    ensures d * ((k - z) as real + frac) == d * (k as real + frac) - 360.0
  {
    var u := k as real + frac;
    assert (k - z) as real + frac == u - z as real;
    Distribute(d, u, z as real);
  }

  lemma PairLatOnZone(even: CprPosition, odd: CprPosition, useOdd: bool) returns (k: int)
    ensures OnZone(PairLat(even, odd, useOdd), DLat(useOdd), (if useOdd then odd else even).LatFrac(), k)
  {
    hide PairLat, LatIndexJ;
    PairLatRaw(even, odd, useOdd);
    var z := LatZones(useOdd);
    var frac := (if useOdd then odd else even).LatFrac();
    k := LatIndexJ(even, odd) % z;
    if ZoneLat(useOdd, k, frac) >= 270.0 {
      ZoneSize(z);
      TurnOfZones(DLat(useOdd), z, frac, k);
      k := k - z;
    }
  }

  lemma PairLonOnZone(even: CprPosition, odd: CprPosition, nl: nat, useOdd: bool) returns (k: int)
    ensures OnZone(PairLon(even, odd, nl, useOdd), DLon(nl, useOdd), (if useOdd then odd else even).LonFrac(), k)
  {
    hide PairLon, LonIndexM;
    PairLonRaw(even, odd, nl, useOdd);
    var z := LonZones(nl, useOdd);
    var frac := (if useOdd then odd else even).LonFrac();
    k := LonIndexM(even, odd, nl) % z;
    if ZoneLon(nl, useOdd, k, frac) >= 180.0 {
      ZoneSize(z);
      TurnOfZones(DLon(nl, useOdd), z, frac, k);
      k := k - z;
    }
  }

  lemma DLonAirborne(nl: nat, odd: bool)
    ensures LocalDlon(nl, odd, DLat(odd)) == DLon(nl, odd)
    ensures DLon(nl, odd) > 0.0 && DLat(odd) > 0.0
  {
    assert DLat(odd) / DLat(odd) == 1.0;
  }

  /**
   When a pair decodes globally to `p`, decoding its most recent message locally against
   `p` gives exactly `p` again.
   */
  lemma GlobalThenLocal(even: CprPosition, odd: CprPosition, recentOdd: bool)
    requires GlobalDecode(even, odd, recentOdd).Ok?
    ensures var p := GlobalDecode(even, odd, recentOdd).value;
            LocalDecode(if recentOdd then odd else even, p) == p
  {
    hide Nl, PairLat, PairLon, NearestZone, DLon, DLat;
    var p := GlobalDecode(even, odd, recentOdd).value;
    var msg := if recentOdd then odd else even;
    var nl := Nl(p.lat);
    GlobalDecodeRange(even, odd, recentOdd);
    DLonAirborne(nl, recentOdd);
    var j := PairLatOnZone(even, odd, recentOdd);
    CandidateIsNearest(p.lat, DLat(recentOdd), msg.LatFrac(), j);
    var m := PairLonOnZone(even, odd, nl, recentOdd);
    CandidateIsNearest(p.lon, DLon(nl, recentOdd), msg.LonFrac(), m);
  }

  // --- Encode, then local -------------------------------------------------------------------

  /** The coordinate of index `n` in zones of size `d`: a message carries its last 17 bits. */
  function AtIndex(d: real, n: int): real {
    d * (n as real / 131072.0)
  }

  lemma IndexIsCandidate(d: real, n: int)
    ensures AtIndex(d, n) == Candidate(d, (n % 131072) as real / 131072.0, n / 131072)
  {
    assert n as real / 131072.0 == (n / 131072) as real + (n % 131072) as real / 131072.0;
  }

  lemma DifferentZones(d: real, frac: real, a: int, b: int)
    requires d > 0.0 && a != b
    ensures Candidate(d, frac, a) != Candidate(d, frac, b)
  {
    CandidateGap(d, frac, a, b);
    if Candidate(d, frac, a) == Candidate(d, frac, b) {
      MulCancel(d, (a - b) as real, 0.0);
    }
  }

  /** Local decode chooses the zone of a candidate exactly when it is within half a zone of the reference. */
  lemma NearestIsIndexIff(reference: real, d: real, n: int)
    requires d > 0.0
    ensures var frac := (n % 131072) as real / 131072.0;
            Candidate(d, frac, NearestZone(reference, d, frac)) == AtIndex(d, n) <==> HalfZone(AtIndex(d, n), reference, d)
  {
    var frac := (n % 131072) as real / 131072.0;
    IndexIsCandidate(d, n);
    hide NearestZone, Candidate, AtIndex, HalfZone;
    var zone := NearestZone(reference, d, frac);
    NearestZoneIff(reference, d, frac, n / 131072);
    if zone != n / 131072 {
      DifferentZones(d, frac, zone, n / 131072);
    }
  }

  /** No candidate near a valid reference is far enough north to be wrapped. */
  lemma NearestNeedsNoWrap(msg: CprPosition, reference: real, d: real)
    requires ValidLat(reference) && 0.0 < d <= 7.0
    ensures LocalLat(msg, reference, d) == Candidate(d, msg.LatFrac(), NearestZone(reference, d, msg.LatFrac()))
  {
    hide NearestZone, Candidate;
    NearestZoneIff(reference, d, msg.LatFrac(), NearestZone(reference, d, msg.LatFrac()));
  }

  /**
   For every zone height up to the airborne ones: a message that carries a latitude's index decodes
   to that latitude exactly when it is within half a zone of the reference.
   */
  lemma CarriedLatRightIff(msg: CprPosition, reference: LatLon, d: real, n: int)
    requires ValidLat(reference.lat) && 0.0 < d <= 7.0 && msg.latCpr == n % 131072
    ensures LocalDecodeWithDlat(msg, reference, d).lat == AtIndex(d, n) <==> HalfZone(AtIndex(d, n), reference.lat, d)
  {
    NearestNeedsNoWrap(msg, reference.lat, d);
    NearestIsIndexIff(reference.lat, d, n);
    hide NearestZone, Candidate, AtIndex, HalfZone, Nl, LocalDlon;
  }

  /**
   One message decodes to the latitude it was rounded to exactly when that latitude is
   within half a zone of the reference: farther away another zone is chosen instead.
   */
  lemma LocalLatRightIff(pos: LatLon, reference: LatLon, odd: bool)
    requires ValidLat(pos.lat) && ValidLat(reference.lat)
    ensures LocalDecode(Encode(pos, odd), reference).lat == LatRound(pos.lat, odd)
       <==> HalfZone(LatRound(pos.lat, odd), reference.lat, DLat(odd))
  {
    hide RoundedIndex, Nl, HalfZone, NearestZone, Candidate, LocalDlon;
    CarriedLatRightIff(Encode(pos, odd), reference, DLat(odd), LatIndex(pos.lat, odd));
  }

  /**
   A surface message comes back exactly when its latitude is within half a surface zone of the
   reference, which is less than 0.77 degrees: a reference farther off gives another latitude.
   */
  lemma SurfaceLatRightIff(msg: CprPosition, reference: LatLon, n: int)
    requires ValidLat(reference.lat) && msg.latCpr == n % 131072
    ensures var lat := AtIndex(DLat(msg.odd) / 4.0, n);
            && (LocalDecodeSurface(msg, reference).lat == lat <==> HalfZone(lat, reference.lat, DLat(msg.odd) / 4.0))
            && (Abs(lat - reference.lat) >= 0.77 ==> LocalDecodeSurface(msg, reference).lat != lat)
  {
    hide NearestZone, Candidate, Nl, LocalDlon, AtIndex, LocalDecodeWithDlat;
    CarriedLatRightIff(msg, reference, DLat(msg.odd) / 4.0, n);
  }

  /**
   With latitude and longitude within half a zone of the reference, the whole carried position comes
   back, for airborne and for surface zones.
   */
  lemma CarriedPositionComesBack(msg: CprPosition, reference: LatLon, d: real, n: int, m: int)
    requires ValidLat(reference.lat) && 0.0 < d <= 7.0 && msg.latCpr == n % 131072 && msg.lonCpr == m % 131072
    requires HalfZone(AtIndex(d, n), reference.lat, d)
    requires var dlon := LocalDlon(Nl(AtIndex(d, n)), msg.odd, d); HalfZone(AtIndex(dlon, m), reference.lon, dlon)
    ensures var dlon := LocalDlon(Nl(AtIndex(d, n)), msg.odd, d);
            LocalDecodeWithDlat(msg, reference, d) == LatLon(AtIndex(d, n), WrapLon(AtIndex(dlon, m)))
  {
    CarriedLatRightIff(msg, reference, d, n);
    hide NearestZone, Nl, LocalDlon, AtIndex, HalfZone, WrapLon, WrapLat, LocalLat, Candidate;
    NearestIsIndexIff(reference.lon, LocalDlon(Nl(AtIndex(d, n)), msg.odd, d), m);
  }

  /** With the longitude within half a zone as well, the whole rounded position comes back. */
  lemma LocalRoundTrip(pos: LatLon, reference: LatLon, odd: bool)
    requires ValidLat(pos.lat) && ValidLat(reference.lat)
    requires HalfZone(LatRound(pos.lat, odd), reference.lat, DLat(odd))
    requires var nl := Nl(LatRound(pos.lat, odd));
             HalfZone(LonOf(LonIndex(pos.lon, nl, odd), nl, odd), reference.lon, DLon(nl, odd))
    ensures var nl := Nl(LatRound(pos.lat, odd));
            var lon := LonOf(LonIndex(pos.lon, nl, odd), nl, odd);
            LocalDecode(Encode(pos, odd), reference) == LatLon(LatRound(pos.lat, odd), WrapLon(lon))
  {
    hide NearestZone, Nl, RoundedIndex, HalfZone, WrapLon, LocalDlon, Candidate, LocalDecodeWithDlat, LonIndex;
    var n := LatIndex(pos.lat, odd);
    assert AtIndex(DLat(odd), n) == LatRound(pos.lat, odd);
    var nl := Nl(LatRound(pos.lat, odd));
    var m := LonIndex(pos.lon, nl, odd);
    assert AtIndex(DLon(nl, odd), m) == LonOf(m, nl, odd);
    DLonAirborne(nl, odd);
    hide AtIndex, LatRound, LonOf, DLon;
    CarriedPositionComesBack(Encode(pos, odd), reference, DLat(odd), n, m);
  }

  // --- Range of the longitude -----------------------------------------------------------------

  predicate LonInRange(lon: real) {
    -180.0 <= lon < 180.0
  }

  /** Some candidate lies west of the antimeridian, yet within half a zone of the reference. */
  ghost predicate CandidateBeyond(reference: real, d: real, frac: real) {
    exists k: int :: reference - d / 2.0 < Candidate(d, frac, k) < -180.0
  }

  /** Longitudes are wrapped downwards only, so what lies west of the antimeridian stays there. */
  lemma NearestLonRangeIff(reference: real, d: real, frac: real)
    requires -180.0 <= reference <= 180.0 && 0.0 < d <= 360.0
    ensures var lon := WrapLon(Candidate(d, frac, NearestZone(reference, d, frac)));
            lon < 180.0 && (LonInRange(lon) <==> !CandidateBeyond(reference, d, frac))
  {
    hide NearestZone, Candidate;
    var zone := NearestZone(reference, d, frac);
    NearestZoneIff(reference, d, frac, zone);
    if CandidateBeyond(reference, d, frac) {
      var k: int :| reference - d / 2.0 < Candidate(d, frac, k) < -180.0;
      NearestZoneIff(reference, d, frac, k);
    }
  }

  lemma DlonIsAtMostATurn(nl: nat, odd: bool, dlat: real)
    requires 0.0 < dlat <= DLat(odd)
    ensures LocalDlon(nl, odd, dlat) <= 360.0
  {
    var scale := dlat / DLat(odd);
    MulMono(DLon(nl, odd), scale, 1.0);
  }

  /**
   With the reference in [-180, 180], for airborne and for surface zones, the longitude of a local
   decode is below 180, and it is in [-180, 180) exactly when no candidate within half a zone of
   the reference lies west of the antimeridian. The zone is that of the latitude step. A reference
   at least half a zone east of the antimeridian suffices, and so does any east of Greenwich.
   */
  lemma LocalLongitudeRangeIff(msg: CprPosition, reference: LatLon, dlat: real)
    requires -180.0 <= reference.lon <= 180.0 && 0.0 < dlat <= DLat(msg.odd)
    ensures var lon := LocalDecodeWithDlat(msg, reference, dlat).lon;
            var dlon := LocalDlon(Nl(LocalLat(msg, reference.lat, dlat)), msg.odd, dlat);
            && lon < 180.0
            && (LonInRange(lon) <==> !CandidateBeyond(reference.lon, dlon, msg.LonFrac()))
            && (reference.lon - dlon / 2.0 >= -180.0 ==> LonInRange(lon))
            && (reference.lon >= 0.0 ==> LonInRange(lon))
  {
    hide NearestZone, Nl, LocalDlon, Candidate, LocalLat, WrapLon;
    var lat := LocalLat(msg, reference.lat, dlat);
    DlonIsAtMostATurn(Nl(lat), msg.odd, dlat);
    NearestLonRangeIff(reference.lon, LocalDlon(Nl(lat), msg.odd, dlat), msg.LonFrac());
  }

  /** Beside the pole there is one zone, and half a zone west of -180 is as far as -360. */
  lemma LocalLongitudeMayLeaveRange()
    ensures !LonInRange(LocalDecode(CprPosition(65536, 32768, false), LatLon(87.0, -180.0)).lon)
  {
    var msg, reference := CprPosition(65536, 32768, false), LatLon(87.0, -180.0);
    assert DLat(false) == 6.0 && DLon(1, false) == 360.0;
    PolarLat();
    DLonAirborne(1, false);
    hide NearestZone, LocalDlon, Nl, DLon;
    LocalLongitudeRangeIff(msg, reference, DLat(false));
    assert Candidate(360.0, 0.25, -1) == -270.0;
    assert CandidateBeyond(-180.0, 360.0, 0.25);
  }

  lemma PolarLat()
    ensures LocalDecode(CprPosition(65536, 32768, false), LatLon(87.0, -180.0)).lat == 87.0 && Nl(87.0) == 1
  {
    hide NearestZone, LocalDlon;
    assert DLat(false) == 6.0;
    CandidateIsNearest(87.0, 6.0, 0.5, 14);
  }
}
