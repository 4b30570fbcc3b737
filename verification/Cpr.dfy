/**
 Compact Position Reporting for airborne and surface positions: the number of longitude
 zones, global decode of an even/odd pair and local decode against a reference. The code
 computes in f64; here every quantity is an exact real.
 */
module Cpr {
  datatype Result<+T, +E> = Ok(value: T) | Err(error: E)

  /** A 17-bit CPR field. */
  type Field = x: int | 0 <= x < 131072

  datatype CprPosition = CprPosition(latCpr: Field, lonCpr: Field, odd: bool) {
    function LatFrac(): real { latCpr as real / 131072.0 }
    function LonFrac(): real { lonCpr as real / 131072.0 }
  }

  datatype LatLon = LatLon(lat: real, lon: real)

  datatype CprError = ParityMismatch | LatitudeZoneMismatch | LatitudeOutOfRange

  // --- Longitude zones -----------------------------------------------------------

  type ZoneCount = n: int | 1 <= n <= 59 witness 1

  /** Latitudes at which the number of longitude zones drops, and the number below each: ten bands at a time. */
  const NL_59_TO_50: seq<(real, ZoneCount)> :=
    [(10.47047130, 59), (14.82817437, 58), (18.18626357, 57), (21.02939493, 56),
     (23.54504405, 55), (25.82924707, 54), (27.93898710, 53), (29.91135686, 52),
     (31.77209708, 51), (33.53993436, 50)]
  const NL_49_TO_40: seq<(real, ZoneCount)> :=
    [(35.22899598, 49), (36.85025108, 48), (38.41241892, 47), (39.92256684, 46),
     (41.38651832, 45), (42.80914085, 44), (44.19454951, 43), (45.54626722, 42),
     (46.86733275, 41), (48.16039128, 40)]
  const NL_39_TO_30: seq<(real, ZoneCount)> :=
    [(49.42776439, 39), (50.67150166, 38), (51.89342469, 37), (53.09516153, 36),
     (54.27817484, 35), (55.44378444, 34), (56.59318756, 33), (57.72747346, 32),
     (58.84763782, 31), (59.95459277, 30)]
  const NL_29_TO_20: seq<(real, ZoneCount)> :=
    [(61.04917774, 29), (62.13216659, 28), (63.20427492, 27), (64.26616523, 26),
     (65.31845330, 25), (66.36171008, 24), (67.39646774, 23), (68.42322022, 22),
     (69.44242631, 21), (70.45451075, 20)]
  const NL_19_TO_10: seq<(real, ZoneCount)> :=
    [(71.45986473, 19), (72.45884545, 18), (73.45177442, 17), (74.43893416, 16),
     (75.42056257, 15), (76.39684391, 14), (77.36789461, 13), (78.33374083, 12),
     (79.29428227, 11), (80.24923213, 10)]
  const NL_9_TO_2: seq<(real, ZoneCount)> :=
    [(81.19810684, 9), (82.14007367, 8), (83.07199445, 7), (83.99173503, 6),
     (84.89166192, 5), (85.75541621, 4), (86.53536950, 3), (87.0, 2)]

  const NL_TRANSITIONS: seq<(real, ZoneCount)> :=
    NL_59_TO_50 + NL_49_TO_40 + NL_39_TO_30 + NL_29_TO_20 + NL_19_TO_10 + NL_9_TO_2

  function Abs(x: real): real {
    if x < 0.0 then -x else x
  }

  /** The zone count of the first band, from entry `i` on, that lies above `abs`. */
  function NlFrom(abs: real, i: nat): ZoneCount
    requires i <= |NL_TRANSITIONS|
    decreases |NL_TRANSITIONS| - i
  {
    if i == |NL_TRANSITIONS| then 1
    else if abs < NL_TRANSITIONS[i].0 then NL_TRANSITIONS[i].1
    else NlFrom(abs, i + 1)
  }

  function Nl(lat: real): ZoneCount {
    if Abs(lat) >= 87.0 then 1 else NlFrom(Abs(lat), 0)
  }

  method ComputeNl(lat: real) returns (n: ZoneCount)
    ensures n == Nl(lat)
  {
    var abs := if lat < 0.0 then -lat else lat;
    if abs >= 87.0 {
      return 1;
    }
    for i := 0 to |NL_TRANSITIONS|
      invariant NlFrom(abs, 0) == NlFrom(abs, i)
    {
      if abs < NL_TRANSITIONS[i].0 {
        return NL_TRANSITIONS[i].1;
      }
    }
    n := 1;
  }

  // --- Helpers ---------------------------------------------------------------------

  /** Remainder in [0, m); the guard is the code's, for float noise. */
  function CprMod(x: real, m: real): real
    requires m > 0.0
  {
    var r := x - m * (x / m).Floor as real;
    if r < 0.0 then r + m else r
  }

  function LatZones(odd: bool): nat {
    if odd then 59 else 60
  }

  function DLat(odd: bool): real {
    360.0 / LatZones(odd) as real
  }

  /** Zones around a parallel with `nl` zones; odd messages use one fewer, but at least one. */
  function LonZones(nl: nat, odd: bool): nat {
    if odd then (if nl >= 2 then nl - 1 else 1) else (if nl >= 1 then nl else 1)
  }

  function DLon(nl: nat, odd: bool): real {
    360.0 / LonZones(nl, odd) as real
  }

  function WrapLat(lat: real): real {
    if lat >= 270.0 then lat - 360.0 else lat
  }

  function WrapLon(lon: real): real {
    if lon >= 180.0 then lon - 360.0 else lon
  }

  predicate ValidLat(lat: real) {
    -90.0 <= lat <= 90.0
  }

  // --- Global decode -----------------------------------------------------------------

  function LatIndexJ(even: CprPosition, odd: CprPosition): int {
    (59.0 * even.LatFrac() - 60.0 * odd.LatFrac() + 0.5).Floor
  }

  /** The latitude that the given one of the two messages stands for. */
  function PairLat(even: CprPosition, odd: CprPosition, useOdd: bool): real {
    var j := LatIndexJ(even, odd);
    var msg := if useOdd then odd else even;
    WrapLat(DLat(useOdd) * (CprMod(j as real, LatZones(useOdd) as real) + msg.LatFrac()))
  }

  function PairLon(even: CprPosition, odd: CprPosition, nl: nat, useOdd: bool): real {
    var zonesEven, zonesOdd := LonZones(nl, false) as real, LonZones(nl, true) as real;
    var m := (even.LonFrac() * zonesOdd - odd.LonFrac() * zonesEven + 0.5).Floor;
    var msg := if useOdd then odd else even;
    WrapLon(DLon(nl, useOdd) * (CprMod(m as real, LonZones(nl, useOdd) as real) + msg.LonFrac()))
  }

  function GlobalDecode(even: CprPosition, odd: CprPosition, mostRecentIsOdd: bool): Result<LatLon, CprError> {
    if even.odd || !odd.odd then Err(ParityMismatch)
    else
      var latEven, latOdd := PairLat(even, odd, false), PairLat(even, odd, true);
      if !ValidLat(latEven) || !ValidLat(latOdd) then Err(LatitudeOutOfRange)
      else if Nl(latEven) != Nl(latOdd) then Err(LatitudeZoneMismatch)
      else
        var lat := if mostRecentIsOdd then latOdd else latEven;
        Ok(LatLon(lat, PairLon(even, odd, Nl(lat), mostRecentIsOdd)))
  }

  // --- Local decode ------------------------------------------------------------------

  /** The zone number that puts `frac` nearest to `reference`, in zones of size `d`. */
  function NearestZone(reference: real, d: real, frac: real): int
    requires d > 0.0
  {
    (reference / d).Floor + (0.5 + CprMod(reference, d) / d - frac).Floor
  }

  /** The coordinate a fraction stands for in zone `k`. */
  function Candidate(d: real, frac: real, k: int): real {
    d * (k as real + frac)
  }

  /** Surface positions scale the longitude zone by the factor that scales the latitude zone. */
  function LocalDlon(nl: nat, odd: bool, dlat: real): (d: real)
    requires dlat > 0.0
    ensures d > 0.0
  {
    var scale := dlat / DLat(odd);
    ProductPositive(DLon(nl, odd), scale);
    DLon(nl, odd) * scale
  }

  lemma ProductPositive(a: real, b: real)
    requires a > 0.0 && b > 0.0
    ensures a * b > 0.0
  {
  }

  /** The latitude step: the candidate nearest to the reference. */
  function LocalLat(msg: CprPosition, reference: real, dlat: real): real
    requires dlat > 0.0
  {
    WrapLat(Candidate(dlat, msg.LatFrac(), NearestZone(reference, dlat, msg.LatFrac())))
  }

  function LocalDecodeWithDlat(msg: CprPosition, reference: LatLon, dlat: real): LatLon
    requires dlat > 0.0
  {
    var lat := LocalLat(msg, reference.lat, dlat);
    var dlon := LocalDlon(Nl(lat), msg.odd, dlat);
    var xz := msg.LonFrac();
    LatLon(lat, WrapLon(Candidate(dlon, xz, NearestZone(reference.lon, dlon, xz))))
  }

  function LocalDecode(msg: CprPosition, reference: LatLon): LatLon {
    LocalDecodeWithDlat(msg, reference, DLat(msg.odd))
  }

  function LocalDecodeSurface(msg: CprPosition, reference: LatLon): LatLon {
    LocalDecodeWithDlat(msg, reference, DLat(msg.odd) / 4.0)
  }
}
