/** Global decode undoes the encoder: a Chinese-remainder argument over the zone numbers. */
module CprGlobal {
  import opened BitValue
  import opened Cpr
  import opened CprEncode

  // --- Latitude ----------------------------------------------------------------------

  /** How far apart the two indices are, in whole even-odd beats of 2^17. */
  function LatBeat(n0: int, n1: int): int {
    (59 * n0 - 60 * n1 + 65536) / 131072
  }

  predicate IndicesClose(n0: int, n1: int) {
    -65536 <= 59 * n0 - 60 * n1 < 65536
  }

  predicate CarriesLat(msg: CprPosition, n: int) {
    msg.latCpr == n % 131072
  }

  /** The latitude index recovered from the two fields, in terms of the true indices. */
  lemma LatIndexJValue(even: CprPosition, odd: CprPosition, n0: int, n1: int)
    requires CarriesLat(even, n0) && CarriesLat(odd, n1)
    ensures LatIndexJ(even, odd) == 60 * (n1 / 131072) - 59 * (n0 / 131072) + LatBeat(n0, n1)
  {
    var y0: int := even.latCpr;
    var y1: int := odd.latCpr;
    var k := (59 * y0 - 60 * y1 + 65536) / 131072;
    FloorUnique(59.0 * even.LatFrac() - 60.0 * odd.LatFrac() + 0.5, k);
    assert n0 == 131072 * (n0 / 131072) + y0 && n1 == 131072 * (n1 / 131072) + y1;
  }

  /** Modulo the zones of a message the index is that message's own zone number, up to the beat. */
  lemma LatIndexZone(even: CprPosition, odd: CprPosition, n0: int, n1: int, useOdd: bool)
    requires CarriesLat(even, n0) && CarriesLat(odd, n1)
    ensures LatIndexJ(even, odd) % LatZones(useOdd) == ((if useOdd then n1 else n0) / 131072 + LatBeat(n0, n1)) % LatZones(useOdd)
  {
    hide LatIndexJ, LatBeat;
    LatIndexJValue(even, odd, n0, n1);
    var q0, q1, b := n0 / 131072, n1 / 131072, LatBeat(n0, n1);
    if useOdd {
      ModShift(q1 - q0, 59, q1 + b);
    } else {
      ModShift(q1 - q0, 60, q0 + b);
    }
  }

  /** The latitude of a zone of the pair, before wrapping. */
  function ZoneLat(odd: bool, zone: int, y: real): real {
    DLat(odd) * (zone as real + y)
  }

  lemma PairLatRaw(even: CprPosition, odd: CprPosition, useOdd: bool)
    ensures PairLat(even, odd, useOdd)
         == WrapLat(ZoneLat(useOdd, LatIndexJ(even, odd) % LatZones(useOdd), (if useOdd then odd else even).LatFrac()))
  {
    hide CprMod, LatIndexJ;
    CprModInt(LatIndexJ(even, odd), LatZones(useOdd));
  }

  lemma ZoneLatIsLatOf(odd: bool, zone: int, y: int)
    ensures ZoneLat(odd, zone, y as real / 131072.0) == LatOf(131072 * zone + y, odd)
  {
  }

  /** The latitude the pair gives, in terms of the true indices. */
  lemma PairLatValue(even: CprPosition, odd: CprPosition, n0: int, n1: int, useOdd: bool)
    requires CarriesLat(even, n0) && CarriesLat(odd, n1)
    ensures var n := if useOdd then n1 else n0;
            var zone := (n / 131072 + LatBeat(n0, n1)) % LatZones(useOdd);
            PairLat(even, odd, useOdd) == WrapLat(LatOf(131072 * zone + n % 131072, useOdd))
  {
    hide LatIndexJ, LatBeat, WrapLat, LatOf, ZoneLat, PairLat;
    LatIndexZone(even, odd, n0, n1, useOdd);
    PairLatRaw(even, odd, useOdd);
    var n := if useOdd then n1 else n0;
    ZoneLatIsLatOf(useOdd, (n / 131072 + LatBeat(n0, n1)) % LatZones(useOdd), n % 131072);
  }

  /** The latitude of an index within 90 degrees of the equator, in zone units. */
  lemma IndexRange(n: int, odd: bool)
    requires ValidLat(LatOf(n, odd))
    ensures 4 * (if n < 0 then -n else n) <= 131072 * LatZones(odd)
    ensures n >= 0 ==> 0 <= n / 131072 < LatZones(odd)
    ensures n < 0 ==> 0 <= n / 131072 + LatZones(odd) < LatZones(odd)
  {
  }

  /** Adding whole turns of zones does not change a wrapped latitude. */
  lemma WrapUndoesTurn(n: int, odd: bool)
    requires ValidLat(LatOf(n, odd))
    ensures var zone := (n / 131072) % LatZones(odd);
            WrapLat(LatOf(131072 * zone + n % 131072, odd)) == LatOf(n, odd)
  {
    IndexRange(n, odd);
    var z := LatZones(odd);
    if n >= 0 {
      assert (n / 131072) % z == n / 131072;
    } else {
      assert (n / 131072) % z == n / 131072 + z;
    }
  }

  lemma SameLat(m: int, n: int, odd: bool)
    ensures LatOf(m, odd) == LatOf(n, odd) ==> m == n
    ensures LatOf(m, odd) - 360.0 == LatOf(n, odd) ==> m == n + 131072 * LatZones(odd)
  {
  }

  /** A wrapped latitude determines its zone. */
  lemma ZoneFromWrap(n: int, zone: int, odd: bool)
    requires ValidLat(LatOf(n, odd)) && 0 <= zone < LatZones(odd)
    requires WrapLat(LatOf(131072 * zone + n % 131072, odd)) == LatOf(n, odd)
    ensures zone == (n / 131072) % LatZones(odd)
  {
    IndexRange(n, odd);
    SameLat(131072 * zone + n % 131072, n, odd);
    hide LatOf;
  }

  /**
   Both latitudes come out as encoded exactly when the two indices are within half a beat
   of each other, however far the aircraft moved between the messages.
   */
  lemma PairLatRightIff(even: CprPosition, odd: CprPosition, n0: int, n1: int)
    requires CarriesLat(even, n0) && CarriesLat(odd, n1)
    requires ValidLat(LatOf(n0, false)) && ValidLat(LatOf(n1, true))
    ensures (PairLat(even, odd, false) == LatOf(n0, false) && PairLat(even, odd, true) == LatOf(n1, true))
       <==> IndicesClose(n0, n1)
  {
    PairLatValue(even, odd, n0, n1, false);
    PairLatValue(even, odd, n0, n1, true);
    var b := LatBeat(n0, n1);
    var q0, q1 := n0 / 131072, n1 / 131072;
    if IndicesClose(n0, n1) {
      assert b == 0;
      WrapUndoesTurn(n0, false);
      WrapUndoesTurn(n1, true);
    }
    if PairLat(even, odd, false) == LatOf(n0, false) && PairLat(even, odd, true) == LatOf(n1, true) {
      ZoneFromWrap(n0, (q0 + b) % 60, false);
      ZoneFromWrap(n1, (q1 + b) % 59, true);
      IndexRange(n0, false);
      IndexRange(n1, true);
      BeatIsZero(q0, q1, b);
    }
  }

  /** The Chinese-remainder step: 60 and 59 have no common factor. */
  lemma BeatIsZero(q0: int, q1: int, b: int)
    requires (q0 + b) % 60 == q0 % 60 && (q1 + b) % 59 == q1 % 59
    requires -1770 <= b <= 1770
    ensures b == 0
  {
    assert b % 60 == 0;
    assert b % 59 == 0;
    var u, v := b / 60, b / 59;
    assert b == 60 * u && b == 59 * v;
    assert u == 59 * (v - u);
  }

  // --- Longitude ---------------------------------------------------------------------

  predicate CarriesLon(msg: CprPosition, n: int) {
    msg.lonCpr == n % 131072
  }

  predicate LonIndicesClose(nl: nat, n0: int, n1: int) {
    -65536 <= LonZones(nl, true) * n0 - LonZones(nl, false) * n1 < 65536
  }

  /** Same meridian: the two differ by whole turns. */
  ghost predicate SameMeridian(a: real, b: real) {
    exists k: int :: TurnsApart(a, b, k)
  }

  predicate TurnsApart(a: real, b: real, k: int) {
    a == b + 360.0 * k as real
  }

  lemma ModShift(k: int, z: nat, a: int)
    requires z >= 1
    ensures (k * z + a) % z == a % z
  {
    var q, r := a / z, a % z;
    assert k * z + a == (k + q) * z + r;
    DivModUnique(k + q, z, r);
  }

  lemma NeighbourProduct(z: int, q0: int, q1: int)
    ensures (z + 1) * q1 - z * q0 == (q1 - q0) * z + q1
    ensures (z + 1) * q1 - z * q0 == (q1 - q0) * (z + 1) + q0
  {
  }

  lemma ModOf(m: int, k: int, z: nat, a: int)
    requires z > 0 && m == k * z + a
    ensures m % z == a % z
  {
    ModShift(k, z, a);
  }

  /** The zone number in the pair's longitude index, for neighbouring zone counts. */
  lemma LonZoneNumber(zo: nat, ze: nat, q0: int, q1: int) returns (m: int)
    requires zo >= 1 && (ze == zo + 1 || (zo == 1 && ze == 1))
    ensures m == ze * q1 - zo * q0
    ensures m % zo == q1 % zo
    ensures m % ze == q0 % ze
  {
    m := ze * q1 - zo * q0;
    if ze == zo + 1 {
      NeighbourProduct(zo, q0, q1);
      ModOf(m, q1 - q0, zo, q1);
      ModOf(m, q1 - q0, ze, q0);
    }
  }

  lemma FracTimes(y: int, z: nat)
    ensures (y as real / 131072.0) * z as real == (y * z) as real / 131072.0
  {
  }

  lemma ProductSplit(z: nat, n: int)
    ensures z * n == 131072 * (z * (n / 131072)) + z * (n % 131072)
  {
    assert n == 131072 * (n / 131072) + n % 131072;
  }

  function LonIndexM(even: CprPosition, odd: CprPosition, nl: nat): int {
    (even.LonFrac() * LonZones(nl, true) as real - odd.LonFrac() * LonZones(nl, false) as real + 0.5).Floor
  }

  /** How far apart the two indices are, in whole even-odd beats of 2^17. */
  function LonBeat(nl: nat, n0: int, n1: int): int {
    (LonZones(nl, true) * n0 - LonZones(nl, false) * n1 + 65536) / 131072
  }

  /** The longitude index recovered from the two fields, in terms of the true indices. */
  lemma LonIndexMValue(even: CprPosition, odd: CprPosition, nl: nat, n0: int, n1: int)
    requires CarriesLon(even, n0) && CarriesLon(odd, n1)
    ensures LonIndexM(even, odd, nl)
         == LonZones(nl, false) * (n1 / 131072) - LonZones(nl, true) * (n0 / 131072) + LonBeat(nl, n0, n1)
  {
    var zo, ze := LonZones(nl, true), LonZones(nl, false);
    var x0, x1 := even.lonCpr, odd.lonCpr;
    FracTimes(x0, zo);
    FracTimes(x1, ze);
    ProductSplit(zo, n0);
    ProductSplit(ze, n1);
    var a, b := x0 * zo, x1 * ze;
    var p, q := zo * (n0 / 131072), ze * (n1 / 131072);
    assert a == zo * (n0 % 131072) && b == ze * (n1 % 131072);
    var m := LonBeat(nl, n0, n1) + q - p;
    assert zo * n0 - ze * n1 == a - b + 131072 * (p - q);
    assert 131072 * m <= a - b + 65536 < 131072 * m + 131072;
    FloorUnique(a as real / 131072.0 - b as real / 131072.0 + 0.5, m);
  }

  /** Modulo the zones of a message the index is that message's own zone number, up to the beat. */
  lemma LonIndexZone(even: CprPosition, odd: CprPosition, nl: nat, n0: int, n1: int, useOdd: bool)
    requires CarriesLon(even, n0) && CarriesLon(odd, n1)
    ensures LonZones(nl, useOdd) >= 1
    ensures LonIndexM(even, odd, nl) % LonZones(nl, useOdd)
         == ((if useOdd then n1 else n0) / 131072 + LonBeat(nl, n0, n1)) % LonZones(nl, useOdd)
  {
    hide LonIndexM, LonBeat;
    LonIndexMValue(even, odd, nl, n0, n1);
    var m := LonZoneNumber(LonZones(nl, true), LonZones(nl, false), n0 / 131072, n1 / 131072);
    SumMod(m, (if useOdd then n1 else n0) / 131072, LonBeat(nl, n0, n1), LonZones(nl, useOdd));
  }

  /** Equal remainders stay equal when the same number is added. */
  lemma SumMod(a: int, b: int, c: int, z: nat)
    requires z >= 1 && a % z == b % z
    ensures (a + c) % z == (b + c) % z
  {
    var k := a / z - b / z;
    assert a == a / z * z + a % z && b == b / z * z + b % z;
    assert k * z == a / z * z - b / z * z;
    assert a + c == k * z + (b + c);
    ModShift(k, z, b + c);
  }

  lemma LonOfParts(nl: nat, n: int, odd: bool)
    ensures LonOf(n, nl, odd) == DLon(nl, odd) * ((n / 131072) as real + (n % 131072) as real / 131072.0)
  {
    assert n == 131072 * (n / 131072) + n % 131072;
    assert n as real / 131072.0 == (n / 131072) as real + (n % 131072) as real / 131072.0;
  }

  /** The longitude of a zone of the pair, before wrapping. */
  function ZoneLon(nl: nat, odd: bool, zone: int, y: real): real {
    DLon(nl, odd) * (zone as real + y)
  }

  lemma PairLonRaw(even: CprPosition, odd: CprPosition, nl: nat, useOdd: bool)
    requires LonZones(nl, useOdd) >= 1
    ensures PairLon(even, odd, nl, useOdd)
         == WrapLon(ZoneLon(nl, useOdd, LonIndexM(even, odd, nl) % LonZones(nl, useOdd),
                            (if useOdd then odd else even).LonFrac()))
  {
    hide CprMod;
    CprModInt(LonIndexM(even, odd, nl), LonZones(nl, useOdd));
  }

  lemma WrapLonIsMeridian(raw: real, lon: real)
    requires 0.0 <= raw < 360.0
    ensures SameMeridian(WrapLon(raw), lon) <==> SameMeridian(raw, lon)
    ensures -180.0 <= WrapLon(raw) < 180.0
  {
    if raw >= 180.0 {
      if k: int :| TurnsApart(raw, lon, k) {
        assert TurnsApart(WrapLon(raw), lon, k - 1);
      }
      if k: int :| TurnsApart(WrapLon(raw), lon, k) {
        assert TurnsApart(raw, lon, k + 1);
      }
    }
  }

  lemma MulCancel(d: real, a: real, b: real)
    requires d > 0.0 && d * a == d * b
    ensures a == b
  {
  }

  lemma CandidateGap(d: real, y: real, r: int, q: int)
    ensures Candidate(d, y, r) - Candidate(d, y, q) == d * (r - q) as real
  {
    var u, t := r as real + y, q as real + y;
    Distribute(d, u, t);
    assert u - t == (r - q) as real;
  }

  lemma Distribute(d: real, u: real, t: real)
    ensures d * (u - t) == d * u - d * t
  {
  }

  /** Zones of which `z` make a turn: `e` of them are `k` turns exactly when `e` is `k` times `z`. */
  lemma TurnSize(d: real, z: nat, e: int, k: int)
    requires d > 0.0 && d * z as real == 360.0
    ensures d * e as real == 360.0 * k as real <==> e == k * z
  {
    assert (k * z) as real == k as real * z as real;
    assert d * (k * z) as real == 360.0 * k as real;
    if d * e as real == 360.0 * k as real {
      MulCancel(d, e as real, (k * z) as real);
    }
  }

  /** Two places in zones of one size are on one meridian exactly when whole turns of zones apart. */
  lemma ZonesApartIff(d: real, z: nat, y: real, r: int, q: int)
    requires z >= 1 && d > 0.0 && d * z as real == 360.0
    ensures SameMeridian(Candidate(d, y, r), Candidate(d, y, q)) <==> (r - q) % z == 0
  {
    CandidateGap(d, y, r, q);
    hide Candidate;
    var u, v, e := Candidate(d, y, r), Candidate(d, y, q), r - q;
    if e % z == 0 {
      TurnSize(d, z, e, e / z);
      assert TurnsApart(u, v, e / z);
    }
    if SameMeridian(u, v) {
      var k: int :| TurnsApart(u, v, k);
      TurnSize(d, z, e, k);
      DivModUnique(k, z, 0);
    }
  }

  lemma LonOfCandidate(n: int, nl: nat, odd: bool)
    ensures LonOf(n, nl, odd) == Candidate(DLon(nl, odd), (n % 131072) as real / 131072.0, n / 131072)
  {
    LonOfParts(nl, n, odd);
  }

  lemma DLonTurn(nl: nat, odd: bool)
    ensures LonZones(nl, odd) >= 1 && DLon(nl, odd) > 0.0 && DLon(nl, odd) * LonZones(nl, odd) as real == 360.0
  {
    ZoneSize(LonZones(nl, odd));
  }

  lemma MulLess(d: real, a: real, b: real)
    requires d > 0.0 && 0.0 <= a < b
    ensures 0.0 <= d * a < d * b
  {
  }

  lemma RawLonRange(z: nat, r: nat, y: real)
    requires r < z && 0.0 <= y < 1.0
    ensures 0.0 <= (360.0 / z as real) * (r as real + y) < 360.0
  {
    var d, v := 360.0 / z as real, r as real + y;
    ZoneSize(z);
    MulLess(d, v, z as real);
  }

  lemma ZoneLonSame(nl: nat, odd: bool, r: nat, n: int)
    ensures LonZones(nl, odd) >= 1
    ensures SameMeridian(ZoneLon(nl, odd, r, (n % 131072) as real / 131072.0), LonOf(n, nl, odd))
       <==> (r - n / 131072) % LonZones(nl, odd) == 0
  {
    var y, q, d, z := (n % 131072) as real / 131072.0, n / 131072, DLon(nl, odd), LonZones(nl, odd);
    DLonTurn(nl, odd);
    LonOfCandidate(n, nl, odd);
    assert ZoneLon(nl, odd, r, y) == Candidate(d, y, r);
    hide LonOf, LonZones, SameMeridian, DLon, ZoneLon, Candidate;
    ZonesApartIff(d, z, y, r, q);
  }

  /** A place in one of the message's zones: on the encoded meridian exactly when whole turns of zones away. */
  lemma ZoneLonIff(nl: nat, odd: bool, r: nat, n: int)
    requires r < LonZones(nl, odd)
    ensures var lon := ZoneLon(nl, odd, r, (n % 131072) as real / 131072.0);
            && 0.0 <= lon < 360.0
            && (SameMeridian(lon, LonOf(n, nl, odd)) <==> (r - n / 131072) % LonZones(nl, odd) == 0)
  {
    hide LonOf, LonZones, SameMeridian;
    RawLonRange(LonZones(nl, odd), r, (n % 131072) as real / 131072.0);
    ZoneLonSame(nl, odd, r, n);
  }

  /** Adding `b` and reducing moves a zone number by whole turns exactly when `b` is whole turns. */
  lemma BeatTurns(q: int, b: int, z: nat)
    requires z >= 1
    ensures ((q + b) % z - q) % z == 0 <==> b % z == 0
  {
    var k := (q + b) / z;
    assert q + b == k * z + (q + b) % z;
    assert (q + b) % z - q == (0 - k) * z + b;
    ModShift(0 - k, z, b);
  }

  /**
   The pair's longitude lies in [-180, 180), and it is the encoded meridian exactly when the beat
   is a multiple of that message's zone count.
   */
  lemma PairLonOneRightIff(even: CprPosition, odd: CprPosition, nl: nat, n0: int, n1: int, useOdd: bool)
    requires CarriesLon(even, n0) && CarriesLon(odd, n1)
    ensures -180.0 <= PairLon(even, odd, nl, useOdd) < 180.0
    ensures SameMeridian(PairLon(even, odd, nl, useOdd), LonOf(if useOdd then n1 else n0, nl, useOdd))
       <==> LonBeat(nl, n0, n1) % LonZones(nl, useOdd) == 0
  {
    hide PairLon, LonOf, LonZones, LonIndexM, WrapLon, LonBeat, SameMeridian, ZoneLon;
    var n := if useOdd then n1 else n0;
    LonIndexZone(even, odd, nl, n0, n1, useOdd);
    PairLonRaw(even, odd, nl, useOdd);
    var z, b := LonZones(nl, useOdd), LonBeat(nl, n0, n1);
    var r := (n / 131072 + b) % z;
    ZoneLonIff(nl, useOdd, r, n);
    WrapLonIsMeridian(ZoneLon(nl, useOdd, r, (n % 131072) as real / 131072.0), LonOf(n, nl, useOdd));
    BeatTurns(n / 131072, b, z);
  }

  /** Neighbouring numbers have no common factor: a multiple of both is one of their product. */
  lemma NeighboursDivide(zo: nat, ze: nat, b: int)
    requires zo >= 1 && (ze == zo + 1 || (zo == 1 && ze == 1))
    ensures ze * zo >= 1
    ensures b % zo == 0 && b % ze == 0 <==> b % (ze * zo) == 0
  {
    ProductAtLeast(ze, zo);
    if b % zo == 0 && b % ze == 0 && ze == zo + 1 {
      var u, v := b / ze, b / zo;
      assert b == ze * u && b == zo * v;
      assert u == zo * (v - u);
      TripleProduct(ze, zo, v - u);
      DivModUnique(v - u, ze * zo, 0);
    }
    if b % (ze * zo) == 0 {
      var k := b / (ze * zo);
      TripleProduct(ze, zo, k);
      assert b == (ze * zo) * k;
      DivModUnique(ze * k, zo, 0);
      DivModUnique(zo * k, ze, 0);
    }
  }

  lemma ProductAtLeast(a: nat, b: nat)
    requires a >= 1 && b >= 1
    ensures a * b >= 1
  {
  }

  lemma TripleProduct(a: int, b: int, c: int)
    ensures a * (b * c) == c * (a * b) && (a * b) * c == (a * c) * b && (a * b) * c == (b * c) * a
  {
  }

  /**
   Both longitudes of a pair are the encoded meridians exactly when the beat is a multiple of the
   product of the two zone counts, however far the aircraft moved between the messages.
   */
  lemma PairLonRightIff(even: CprPosition, odd: CprPosition, nl: nat, n0: int, n1: int)
    requires CarriesLon(even, n0) && CarriesLon(odd, n1)
    ensures LonZones(nl, false) * LonZones(nl, true) >= 1
    ensures (SameMeridian(PairLon(even, odd, nl, false), LonOf(n0, nl, false))
             && SameMeridian(PairLon(even, odd, nl, true), LonOf(n1, nl, true)))
       <==> LonBeat(nl, n0, n1) % (LonZones(nl, false) * LonZones(nl, true)) == 0
  {
    hide PairLon, LonOf, LonBeat, SameMeridian;
    PairLonOneRightIff(even, odd, nl, n0, n1, false);
    PairLonOneRightIff(even, odd, nl, n0, n1, true);
    NeighboursDivide(LonZones(nl, true), LonZones(nl, false), LonBeat(nl, n0, n1));
  }

  /** Indices within half a beat of each other give the encoded meridian, wrapped into [-180, 180). */
  lemma PairLonRight(even: CprPosition, odd: CprPosition, nl: nat, n0: int, n1: int, useOdd: bool)
    requires CarriesLon(even, n0) && CarriesLon(odd, n1) && LonIndicesClose(nl, n0, n1)
    ensures SameMeridian(PairLon(even, odd, nl, useOdd), LonOf(if useOdd then n1 else n0, nl, useOdd))
    ensures -180.0 <= PairLon(even, odd, nl, useOdd) < 180.0
  {
    assert LonBeat(nl, n0, n1) == 0;
    hide PairLon, LonOf, LonZones, LonBeat, SameMeridian;
    PairLonOneRightIff(even, odd, nl, n0, n1, useOdd);
  }
}
