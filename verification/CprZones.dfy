/**
 What the zone count of a latitude is, by the boundary latitudes alone: 59 up to the first, one less
 at each. Nothing here speaks of how the table is searched or what stands beside the latitudes.
 */
module CprZones {
  import opened Cpr

  /** Every entry of one part of the table: increasing latitudes, and counts falling from `top` by ones. */
  predicate IsPart(part: seq<(real, ZoneCount)>, top: int, from: real, to: real) {
    && (forall i :: 0 <= i < |part| ==> part[i].1 == top - i && from <= part[i].0 <= to)
    && (forall i :: 0 < i < |part| ==> part[i - 1].0 < part[i].0)
  }

  lemma Part59()
    ensures |NL_59_TO_50| == 10 && IsPart(NL_59_TO_50, 59, 10.47047130, 33.53993436)
  {
  }

  lemma Part49()
    ensures |NL_49_TO_40| == 10 && IsPart(NL_49_TO_40, 49, 35.22899598, 48.16039128)
  {
  }

  lemma Part39()
    ensures |NL_39_TO_30| == 10 && IsPart(NL_39_TO_30, 39, 49.42776439, 59.95459277)
  {
  }

  lemma Part29()
    ensures |NL_29_TO_20| == 10 && IsPart(NL_29_TO_20, 29, 61.04917774, 70.45451075)
  {
  }

  lemma Part19()
    ensures |NL_19_TO_10| == 10 && IsPart(NL_19_TO_10, 19, 71.45986473, 80.24923213)
  {
  }

  lemma Part9()
    ensures |NL_9_TO_2| == 8 && IsPart(NL_9_TO_2, 9, 81.19810684, 87.0)
  {
  }

  lemma JoinParts(a: seq<(real, ZoneCount)>, b: seq<(real, ZoneCount)>, top: int, from: real, mid: real, next: real, to: real)
    requires IsPart(a, top, from, mid) && IsPart(b, top - |a|, next, to) && from <= mid < next <= to
    ensures IsPart(a + b, top, from, to)
  {
    var whole := a + b;
    forall i | 0 < i < |whole|
      ensures whole[i - 1].0 < whole[i].0
    {
      if i < |a| {
        assert whole[i] == a[i] && whole[i - 1] == a[i - 1];
      } else if i > |a| {
        assert whole[i] == b[i - |a|] && whole[i - 1] == b[i - |a| - 1];
      } else {
        assert whole[i] == b[0] && whole[i - 1] == a[|a| - 1];
      }
    }
  }

  lemma LastBoundary()
    ensures |NL_9_TO_2| == 8 && NL_9_TO_2[7].0 == 87.0
  {
  }

  /** 58 boundaries in increasing order, the last of them 87 degrees, and beside each one count less. */
  lemma TableIsOrdered()
    ensures |NL_TRANSITIONS| == 58 && IsPart(NL_TRANSITIONS, 59, 10.47047130, 87.0)
    ensures NL_TRANSITIONS[57].0 == 87.0
  {
    Part59();
    Part49();
    Part39();
    Part29();
    Part19();
    Part9();
    LastBoundary();
    hide NL_59_TO_50, NL_49_TO_40, NL_39_TO_30, NL_29_TO_20, NL_19_TO_10, NL_9_TO_2, IsPart;
    JoinParts(NL_59_TO_50, NL_49_TO_40, 59, 10.47047130, 33.53993436, 35.22899598, 48.16039128);
    JoinParts(NL_59_TO_50 + NL_49_TO_40, NL_39_TO_30, 59, 10.47047130, 48.16039128, 49.42776439, 59.95459277);
    JoinParts(NL_59_TO_50 + NL_49_TO_40 + NL_39_TO_30, NL_29_TO_20, 59, 10.47047130, 59.95459277, 61.04917774, 70.45451075);
    JoinParts(NL_59_TO_50 + NL_49_TO_40 + NL_39_TO_30 + NL_29_TO_20, NL_19_TO_10, 59, 10.47047130, 70.45451075, 71.45986473, 80.24923213);
    JoinParts(NL_59_TO_50 + NL_49_TO_40 + NL_39_TO_30 + NL_29_TO_20 + NL_19_TO_10, NL_9_TO_2, 59, 10.47047130, 80.24923213, 81.19810684, 87.0);
  }

  /** `abs` lies in band `k`: at or above the boundaries below it and under its own. */
  predicate InBand(abs: real, k: nat)
    requires k <= |NL_TRANSITIONS|
  {
    && (k == 0 || NL_TRANSITIONS[k - 1].0 <= abs)
    && (k == |NL_TRANSITIONS| || abs < NL_TRANSITIONS[k].0)
  }

  lemma {:induction false} Increasing(i: nat, j: nat)
    requires i <= j < |NL_TRANSITIONS|
    ensures NL_TRANSITIONS[i].0 <= NL_TRANSITIONS[j].0
  {
    TableIsOrdered();
    hide NL_TRANSITIONS;
    if i < j {
      Increasing(i, j - 1);
    }
  }

  lemma {:induction false} SearchFindsBand(abs: real, i: nat, k: nat)
    requires i <= k <= |NL_TRANSITIONS| && InBand(abs, k)
    ensures NlFrom(abs, i) == 59 - k
    decreases k - i
  {
    TableIsOrdered();
    if i < k {
      Increasing(i, k - 1);
      SearchFindsBand(abs, i + 1, k);
    }
    hide NL_TRANSITIONS;
  }

  /** Between the `k`-th boundary and the next, on either side of the equator, there are 59 - `k` zones. */
  lemma ZonesOfBand(lat: real, k: nat)
    requires k <= |NL_TRANSITIONS| && InBand(Abs(lat), k)
    ensures |NL_TRANSITIONS| == 58 && Nl(lat) == 59 - k
  {
    TableIsOrdered();
    SearchFindsBand(Abs(lat), 0, k);
    if Abs(lat) >= 87.0 && k < 58 {
      Increasing(k, 57);
    }
    hide NL_TRANSITIONS, NlFrom;
  }

  lemma {:induction false} BandFrom(abs: real, i: nat) returns (k: nat)
    requires i <= |NL_TRANSITIONS| && (i == 0 || NL_TRANSITIONS[i - 1].0 <= abs)
    ensures i <= k <= |NL_TRANSITIONS| && InBand(abs, k)
    decreases |NL_TRANSITIONS| - i
  {
    hide NL_TRANSITIONS;
    if i == |NL_TRANSITIONS| || abs < NL_TRANSITIONS[i].0 {
      k := i;
    } else {
      k := BandFrom(abs, i + 1);
    }
  }

  /**
   The zone count is 59 - `k` exactly in band `k`; it is the same on both sides of the equator and
   never rises towards the poles.
   */
  lemma ZonesIff(lat: real, k: nat)
    requires k <= |NL_TRANSITIONS|
    ensures Nl(lat) == 59 - k <==> InBand(Abs(lat), k)
  {
    hide NL_TRANSITIONS, Nl, InBand, Abs;
    if InBand(Abs(lat), k) {
      ZonesOfBand(lat, k);
    } else {
      var band := BandFrom(Abs(lat), 0);
      ZonesOfBand(lat, band);
    }
  }

  lemma ZonesFall(a: real, b: real)
    requires Abs(a) <= Abs(b)
    ensures Nl(a) >= Nl(b)
    ensures Nl(a) == Nl(-a)
  {
    var i := BandFrom(Abs(a), 0);
    var j := BandFrom(Abs(b), 0);
    TableIsOrdered();
    ZonesOfBand(a, i);
    ZonesOfBand(-a, i);
    ZonesOfBand(b, j);
    if i > j {
      Increasing(j, i - 1);
    }
    hide NL_TRANSITIONS, Nl;
  }

  lemma QuarterOf(d: real)
    requires d > 0.0
    ensures d / d == 1.0 && (d / 4.0) / d == 0.25
  {
  }

  lemma QuarterZone(zones: nat)
    requires zones > 0
    ensures (360.0 / zones as real) * 0.25 == 90.0 / zones as real
  {
  }

  /** Airborne zones are those of the zone count, surface zones a quarter of them. */
  lemma ZoneScale(nl: nat, odd: bool)
    ensures LocalDlon(nl, odd, DLat(odd)) == DLon(nl, odd)
    ensures LocalDlon(nl, odd, DLat(odd) / 4.0) == DLon(nl, odd) * 0.25
  {
    assert DLat(odd) > 0.0;
    QuarterOf(DLat(odd));
    hide DLat, DLon;
  }

  /**
   How wide a longitude zone is: a whole turn over the zone count, one zone fewer for odd messages but
   at least one; and on the surface a quarter of that.
   */
  lemma ZoneWidths(lat: real, odd: bool)
    ensures var zones := if !odd then Nl(lat) else if Nl(lat) > 1 then Nl(lat) - 1 else 1;
            && DLon(Nl(lat), odd) == 360.0 / zones as real
            && LocalDlon(Nl(lat), odd, DLat(odd)) == 360.0 / zones as real
            && LocalDlon(Nl(lat), odd, DLat(odd) / 4.0) == 90.0 / zones as real
    ensures DLat(false) == 6.0 && DLat(true) == 360.0 / 59.0
  {
    hide Nl, LocalDlon;
    ZoneScale(Nl(lat), odd);
    QuarterZone(LonZones(Nl(lat), odd));
  }
}
