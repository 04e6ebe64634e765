/**
 * The Modified Voltage Potential resolution of one conflict pair: the velocity change
 * that pushes the predicted miss vector at the closest point of approach out of the
 * protected zone, horizontally, and the vertical change that resolves the vertical
 * intrusion within a time to solve. The computation is staged: the approach geometry,
 * the head-on guard, the horizontal gain and steering, and the vertical plan, each a
 * function of the stage before.
 */
module Vo110Mvp {
  import opened PyBuiltins
  import opened Geometry

  /**
   * What MVP reads about one pair: the protected-zone radius and half height of both
   * aircraft, the resolution factors, the ownship's look-ahead time, the bearing
   * (degrees) and distance to the intruder, the times to the closest point of approach
   * and to loss of separation, both altitudes and both velocities.
   */
  datatype PairState = PairState(
    rpz1: real, rpz2: real, hpz1: real, hpz2: real,
    resofach: real, resofacv: real, dtlook: real,
    qdr: real, dist: real, tcpa: real, tLOS: real,
    alt1: real, alt2: real, v1: Vec3, v2: Vec3)

  /** Below this predicted horizontal miss distance the conflict is treated as head-on. */
  const HeadOnThreshold: real := 0.001

  /** The larger of the two protected-zone radii, scaled. */
  function RpzM(p: PairState): (r: real)
    ensures r >= p.rpz1 * p.resofach && r >= p.rpz2 * p.resofach
    ensures r == p.rpz1 * p.resofach || r == p.rpz2 * p.resofach
  {
    Max(p.rpz1 * p.resofach, p.rpz2 * p.resofach)
  }

  /** The larger of the two protected-zone half heights, scaled. */
  function HpzM(p: PairState): (r: real)
    ensures r >= p.hpz1 * p.resofacv && r >= p.hpz2 * p.resofacv
    ensures r == p.hpz1 * p.resofacv || r == p.hpz2 * p.resofacv
  {
    Max(p.hpz1 * p.resofacv, p.hpz2 * p.resofacv)
  }

  /**
   * The approach geometry: the intruder's relative position and velocity, the
   * predicted relative position at the closest point of approach and its horizontal
   * length.
   */
  datatype Approach = Approach(drel: Vec3, vrel: Vec3, dcpa: Vec3, dabsH: real)

  function ApproachOf(p: PairState, m: Math): (a: Approach)
    ensures a.dcpa == Add(a.drel, Scale(a.vrel, p.tcpa))
    ensures a.drel.z == p.alt2 - p.alt1 && a.vrel == Sub(p.v2, p.v1)
  {
    var drel := Vec3(m.sinDeg(p.qdr) * p.dist, m.cosDeg(p.qdr) * p.dist, p.alt2 - p.alt1);
    var vrel := Sub(p.v2, p.v1);
    var dcpa := Add(drel, Scale(vrel, p.tcpa));
    Approach(drel, vrel, dcpa, m.sqrt(dcpa.x * dcpa.x + dcpa.y * dcpa.y))
  }

  predicate HeadOn(a: Approach) {
    a.dabsH <= HeadOnThreshold
  }

  /** The horizontal miss vector and its length after the head-on guard. */
  datatype Miss = Miss(x: real, y: real, dabsH: real)

  /**
   * A head-on conflict gets an artificial miss vector of length `HeadOnThreshold`
   * perpendicular to the line of sight (which needs a non-zero distance); any other
   * keeps the predicted one.
   */
  function Guard(a: Approach, dist: real): (g: Miss)
    requires HeadOn(a) ==> dist != 0.0
    ensures g.dabsH >= HeadOnThreshold
    ensures HeadOn(a) ==>
      g.x * dist == a.drel.y * HeadOnThreshold && g.y * dist == -a.drel.x * HeadOnThreshold
    ensures HeadOn(a) ==>
      g.dabsH == HeadOnThreshold && g.x * a.drel.x + g.y * a.drel.y == 0.0
    ensures !HeadOn(a) ==> g == Miss(a.dcpa.x, a.dcpa.y, a.dabsH)
  {
    if HeadOn(a) then
      PerpendicularAlgebra(a.drel.x, a.drel.y, dist, HeadOnThreshold);
      Miss(a.drel.y / dist * HeadOnThreshold, -a.drel.x / dist * HeadOnThreshold, HeadOnThreshold)
    else
      Miss(a.dcpa.x, a.dcpa.y, a.dabsH)
  }

  lemma PerpendicularAlgebra(x: real, y: real, dist: real, t: real)
    requires dist != 0.0
    ensures (y / dist * t) * x + (-x / dist * t) * y == 0.0
  {
    assert y / dist * t == y * (t / dist);
    assert -x / dist * t == -x * (t / dist);
  }

  /**
   * With trigonometry that keeps `sin^2 + cos^2 == 1` at the bearing, the artificial
   * head-on miss vector has exactly the threshold length.
   */
  lemma HeadOnMissLength(a: Approach, dist: real, s: real, c: real)
    requires HeadOn(a) && dist != 0.0
    requires a.drel.x == s * dist && a.drel.y == c * dist && s * s + c * c == 1.0
    ensures Guard(a, dist).x * Guard(a, dist).x + Guard(a, dist).y * Guard(a, dist).y ==
      HeadOnThreshold * HeadOnThreshold
  {
    var t := HeadOnThreshold;
    assert (c * dist) / dist == c;
    assert -(s * dist) / dist == -s;
    assert Guard(a, dist) == Miss(c * t, -s * t, t);
    assert (c * t) * (c * t) + (-s * t) * (-s * t) == (s * s + c * c) * (t * t);
  }

  /**
   * The artificial head-on miss vector lies on the right of the line of sight: for a
   * positive distance and a horizontal separation that is not zero, its cross product
   * with `drel` is positive, so it is neither the mirrored vector nor the zero vector.
   */
  lemma HeadOnMissSide(a: Approach, dist: real)
    requires HeadOn(a) && dist > 0.0 && (a.drel.x != 0.0 || a.drel.y != 0.0)
    ensures Guard(a, dist).x * a.drel.y - Guard(a, dist).y * a.drel.x > 0.0
  {
    var g := Guard(a, dist);
    var k := HeadOnThreshold / dist;
    assert g.x == a.drel.y * k && g.y == -a.drel.x * k;
    assert g.x * a.drel.y - g.y * a.drel.x == k * (a.drel.x * a.drel.x + a.drel.y * a.drel.y);
    assert a.drel.x * a.drel.x + a.drel.y * a.drel.y > 0.0;
    MulPositive(k, a.drel.x * a.drel.x + a.drel.y * a.drel.y);
  }

  /** The intruder is outside the zone and the miss distance short of it: the erratum applies. */
  predicate Grazing(rpzM: real, dist: real, g: Miss) {
    rpzM < dist && g.dabsH < dist
  }

  /** The extra factor that keeps the resolution from grazing the protected zone. */
  function Erratum(rpzM: real, dist: real, g: Miss, m: Math): real
    requires Grazing(rpzM, dist, g) && g.dabsH > 0.0
  {
    m.cos(m.arcsin(rpzM / dist) - m.arcsin(g.dabsH / dist))
  }

  /**
   * How far the miss distance is to grow: `rpz_m / erratum - dabsH` when grazing, else
   * the intrusion `rpz_m` minus the miss distance predicted before the guard.
   */
  function Gain(rpzM: real, dist: real, a: Approach, g: Miss, m: Math): (r: real)
    requires g.dabsH > 0.0
    requires Grazing(rpzM, dist, g) ==> Erratum(rpzM, dist, g, m) != 0.0
    ensures !Grazing(rpzM, dist, g) ==> r == rpzM - a.dabsH
  {
    if Grazing(rpzM, dist, g) then rpzM / Erratum(rpzM, dist, g, m) - g.dabsH
    else rpzM - a.dabsH
  }

  /**
   * In grazing geometry both ratios `rpz_m / dist` and `dabsH / dist` lie in (0, 1), so with
   * the real `arcsin` and `cos` the erratum is in (0, 1]. Such an erratum only enlarges the
   * gain: the miss distance is grown at least to `rpz_m`, so the resolution does not
   * graze the protected zone.
   */
  lemma ErratumEnlargesGain(rpzM: real, dist: real, a: Approach, g: Miss, m: Math)
    requires g.dabsH > 0.0 && rpzM >= 0.0 && Grazing(rpzM, dist, g)
    requires 0.0 < Erratum(rpzM, dist, g, m) <= 1.0
    ensures Gain(rpzM, dist, a, g, m) >= rpzM - g.dabsH
  {
    DivideByAtMostOne(rpzM, Erratum(rpzM, dist, g, m));
  }

  lemma DivideByAtMostOne(x: real, e: real)
    requires x >= 0.0 && 0.0 < e <= 1.0
    ensures x / e >= x
  {
    var q := x / e;
    assert q * e == x;
    assert q >= 0.0;
    MulNonNegative(q, 1.0 - e);
    assert q - x == q * (1.0 - e);
  }

  /**
   * The horizontal velocity change for a miss vector `g`: the vector scaled by `gain`
   * over `|tcpa| * dabsH`. It is parallel to the miss vector, points along it when there
   * is distance to gain and against it when the aircraft are further apart than needed,
   * and is zero when there is nothing to gain.
   */
  function Steer(gain: real, g: Miss, tcpa: real): (r: (real, real))
    requires tcpa != 0.0 && g.dabsH > 0.0
    ensures r.0 * g.y == r.1 * g.x
    ensures gain > 0.0 ==> r.0 * g.x + r.1 * g.y >= 0.0
    ensures gain < 0.0 ==> r.0 * g.x + r.1 * g.y <= 0.0
    ensures gain == 0.0 ==> r == (0.0, 0.0)
  {
    var a := Abs(tcpa) * g.dabsH;
    MulPositive(Abs(tcpa), g.dabsH);
    HorizontalAlgebra(gain, g.x, g.y, a);
    ((gain * g.x) / a, (gain * g.y) / a)
  }

  lemma MulPositive(a: real, b: real)
    requires a > 0.0 && b > 0.0
    ensures a * b > 0.0
  {
  }

  /** Scaling a vector `(x, y)` by `gain / a` with `a > 0`: parallel, with the sign of `gain`. */
  lemma HorizontalAlgebra(gain: real, x: real, y: real, a: real)
    requires a > 0.0
    ensures (gain * x) / a * y == (gain * y) / a * x
    ensures gain > 0.0 ==> (gain * x) / a * x + (gain * y) / a * y >= 0.0
    ensures gain < 0.0 ==> (gain * x) / a * x + (gain * y) / a * y <= 0.0
    ensures gain == 0.0 ==> (gain * x) / a == 0.0 && (gain * y) / a == 0.0
  {
    QuotientScales(gain, x, a);
    QuotientScales(gain, y, a);
    QuotientSign(gain, a);
    var k := gain / a;
    assert k * x * x + k * y * y == k * (x * x + y * y);
    SquaresNonNegative(x, y);
    if k > 0.0 {
      MulNonNegative(k, x * x + y * y);
    } else if k < 0.0 {
      MulNonNegative(-k, x * x + y * y);
    }
  }

  lemma QuotientScales(g: real, x: real, a: real)
    requires a != 0.0
    ensures (g * x) / a == (g / a) * x
  {
  }

  lemma QuotientSign(g: real, a: real)
    requires a > 0.0
    ensures g / a > 0.0 <==> g > 0.0
    ensures g / a < 0.0 <==> g < 0.0
  {
  }

  lemma SquaresNonNegative(x: real, y: real)
    ensures x * x + y * y >= 0.0
  {
  }

  lemma MulNonNegative(a: real, b: real)
    requires a >= 0.0 && b >= 0.0
    ensures a * b >= 0.0
  {
  }

  /** `|r|^2`. */
  function NormSq(r: (real, real)): real {
    r.0 * r.0 + r.1 * r.1
  }

  /**
   * Away from head-on and grazing geometry, and with a square root that is exact at the
   * miss vector, the horizontal velocity change grows the miss distance by exactly the
   * intrusion over `|tcpa|`: `|dvH|^2 * tcpa^2 == iH^2`.
   */
  lemma SteerCloses(rpzM: real, dist: real, a: Approach, tcpa: real, m: Math, g: Miss)
    requires tcpa != 0.0 && !HeadOn(a) && g == Guard(a, dist) && !Grazing(rpzM, dist, g)
    requires a.dabsH * a.dabsH == a.dcpa.x * a.dcpa.x + a.dcpa.y * a.dcpa.y
    ensures NormSq(Steer(Gain(rpzM, dist, a, g, m), g, tcpa)) * (tcpa * tcpa) ==
      (rpzM - a.dabsH) * (rpzM - a.dabsH)
  {
    KeptSteerCloses(rpzM, dist, a, tcpa, m, g);
  }

  /** The same for the miss vector kept as predicted. */
  lemma KeptSteerCloses(rpzM: real, dist: real, a: Approach, tcpa: real, m: Math, g: Miss)
    requires tcpa != 0.0 && !HeadOn(a) && g == Miss(a.dcpa.x, a.dcpa.y, a.dabsH)
    requires !Grazing(rpzM, dist, g)
    requires a.dabsH * a.dabsH == a.dcpa.x * a.dcpa.x + a.dcpa.y * a.dcpa.y
    ensures NormSq(Steer(Gain(rpzM, dist, a, g, m), g, tcpa)) * (tcpa * tcpa) ==
      (rpzM - a.dabsH) * (rpzM - a.dabsH)
  {
    var iH := rpzM - a.dabsH;
    assert Gain(rpzM, dist, a, g, m) == iH;
    var r := Steer(iH, g, tcpa);
    SteerLength(iH, g, tcpa, r);
  }

  /** When `dabsH` is the exact length of the miss vector, the change has length `|gain / tcpa|`. */
  lemma SteerLength(gain: real, g: Miss, tcpa: real, r: (real, real))
    requires tcpa != 0.0 && g.dabsH > 0.0
    requires g.x * g.x + g.y * g.y == g.dabsH * g.dabsH
    requires r == Steer(gain, g, tcpa)
    ensures NormSq(r) * (tcpa * tcpa) == gain * gain
  {
    SteerComponents(gain, g, tcpa);
    ClosesAlgebra(gain, g.x, g.y, tcpa, g.dabsH, r);
  }

  lemma SteerComponents(gain: real, g: Miss, tcpa: real)
    requires tcpa != 0.0 && g.dabsH > 0.0
    ensures Steer(gain, g, tcpa).0 == (gain * g.x) / (Abs(tcpa) * g.dabsH)
    ensures Steer(gain, g, tcpa).1 == (gain * g.y) / (Abs(tcpa) * g.dabsH)
  {
  }

  lemma ClosesAlgebra(iH: real, x: real, y: real, tcpa: real, d: real, r: (real, real))
    requires tcpa != 0.0 && d > 0.0
    requires r.0 == (iH * x) / (Abs(tcpa) * d) && r.1 == (iH * y) / (Abs(tcpa) * d)
    ensures x * x + y * y == d * d ==> NormSq(r) * (tcpa * tcpa) == iH * iH
  {
    var t := Abs(tcpa);
    assert t * t == tcpa * tcpa;
    MulPositive(t, d);
    var k := iH / (t * d);
    QuotientScales(iH, x, t * d);
    QuotientScales(iH, y, t * d);
    assert (k * x) * (k * x) + (k * y) * (k * y) == (k * k) * (x * x + y * y);
    assert k * (t * d) == iH;
    SquareOfProduct(k, t, d);
  }

  lemma SquareOfProduct(k: real, t: real, d: real)
    ensures (k * (t * d)) * (k * (t * d)) == ((k * k) * (d * d)) * (t * t)
  {
  }

  /** The vertical intrusion and the time in which to resolve it. */
  datatype VerticalPlan = VerticalPlan(iV: real, tsolV: real)

  /**
   * With a vertical closing speed the whole half height is to be gained, in the time the
   * vertical gap takes to close; without one the remaining vertical overlap, by loss of
   * separation. A time beyond the look-ahead falls back to the full half height by loss
   * of separation.
   */
  function VerticalTiming(a: Approach, hpzM: real, tLOS: real, dtlook: real): (r: VerticalPlan)
    // What a caller relies on: the time to solve is within the look-ahead or is tLOS,
    // and the vertical intrusion is the zone height, less |dz| without vertical speed.
    ensures r.tsolV <= dtlook || r.tsolV == tLOS
    ensures r.tsolV > dtlook ==> r == VerticalPlan(hpzM, tLOS)
    ensures r.iV == hpzM || (a.vrel.z == 0.0 && r.iV == hpzM - Abs(a.drel.z))
    // The four cases of the code, which together determine the result.
    ensures a.vrel.z != 0.0 && Abs(a.drel.z / a.vrel.z) <= dtlook ==>
      r == VerticalPlan(hpzM, Abs(a.drel.z / a.vrel.z))
    ensures a.vrel.z != 0.0 && Abs(a.drel.z / a.vrel.z) > dtlook ==> r == VerticalPlan(hpzM, tLOS)
    ensures a.vrel.z == 0.0 && tLOS <= dtlook ==> r == VerticalPlan(hpzM - Abs(a.drel.z), tLOS)
    ensures a.vrel.z == 0.0 && tLOS > dtlook ==> r == VerticalPlan(hpzM, tLOS)
  {
    var vz, dz := a.vrel.z, a.drel.z;
    var iV := if Abs(vz) > 0.0 then hpzM else hpzM - Abs(dz);
    var tsolV := if Abs(vz) > 0.0 then Abs(dz / vz) else tLOS;
    if tsolV > dtlook then VerticalPlan(hpzM, tLOS) else VerticalPlan(iV, tsolV)
  }

  /**
   * The vertical velocity change `dv3`: of size `iV / tsolV`, against the relative
   * vertical speed `vz` when there is one, so that the aircraft with the larger climb or
   * descent rate reduces it.
   */
  function VerticalRate(v: VerticalPlan, vz: real): (r: real)
    requires v.tsolV != 0.0
    ensures Abs(r) == Abs(v.iV / v.tsolV)
    ensures vz == 0.0 ==> r == v.iV / v.tsolV
    ensures vz != 0.0 && v.iV / v.tsolV > 0.0 ==> r * vz < 0.0
    ensures vz != 0.0 && v.iV / v.tsolV == 0.0 ==> r == 0.0
    ensures vz != 0.0 ==> r == -(v.iV / v.tsolV) * Sign(vz)
  {
    var rate := v.iV / v.tsolV;
    if Abs(vz) > 0.0 then
      assert -vz / Abs(vz) == (if vz > 0.0 then -1.0 else 1.0);
      rate * (-vz / Abs(vz))
    else
      rate
  }

  /** A non-negative half height resolved in a positive time opposes the vertical closing speed. */
  lemma VerticalOpposes(a: Approach, hpzM: real, tLOS: real, dtlook: real, vz: real, r: real)
    requires hpzM >= 0.0 && vz == a.vrel.z && vz != 0.0
    requires VerticalTiming(a, hpzM, tLOS, dtlook).tsolV > 0.0
    requires r == VerticalRate(VerticalTiming(a, hpzM, tLOS, dtlook), vz)
    ensures r * vz <= 0.0
  {
    var v := VerticalTiming(a, hpzM, tLOS, dtlook);
    assert v.iV == hpzM;
    if v.iV / v.tsolV == 0.0 {
    } else {
      assert v.iV / v.tsolV > 0.0;
    }
  }

  /** When MVP is defined: no division by zero on the way to `dv` and `tsolV`. */
  predicate MvpDefined(p: PairState, m: Math) {
    var a := ApproachOf(p, m);
    p.tcpa != 0.0 &&
    (HeadOn(a) ==> p.dist != 0.0) &&
    (Grazing(RpzM(p), p.dist, Guard(a, p.dist)) ==> Erratum(RpzM(p), p.dist, Guard(a, p.dist), m) != 0.0) &&
    VerticalTiming(a, HpzM(p), p.tLOS, p.dtlook).tsolV != 0.0
  }

  datatype MvpResult = MvpResult(dv: Vec3, tsolV: real)

  /**
   * `MVP(...)`: the pair's velocity change and the time to solve vertically. The
   * horizontal change is parallel to the guarded miss vector, the time to solve is
   * within the look-ahead or the time to loss of separation.
   */
  function Mvp(p: PairState, m: Math): (r: MvpResult)
    requires MvpDefined(p, m)
    ensures r.dv.x * Guard(ApproachOf(p, m), p.dist).y == r.dv.y * Guard(ApproachOf(p, m), p.dist).x
    ensures r.tsolV <= p.dtlook || r.tsolV == p.tLOS
  {
    var a := ApproachOf(p, m);
    var g := Guard(a, p.dist);
    var h := Steer(Gain(RpzM(p), p.dist, a, g, m), g, p.tcpa);
    var v := VerticalTiming(a, HpzM(p), p.tLOS, p.dtlook);
    MvpResult(Vec3(h.0, h.1, VerticalRate(v, a.vrel.z)), v.tsolV)
  }

  /**
   * The vertical part of MVP opposes the relative vertical speed: the aircraft closing
   * faster vertically is slowed, given a non-negative half height and a positive time to
   * solve.
   */
  lemma MvpVerticalOpposes(p: PairState, m: Math)
    requires MvpDefined(p, m) && HpzM(p) >= 0.0 && p.v2.z != p.v1.z
    requires Mvp(p, m).tsolV > 0.0
    ensures Mvp(p, m).dv.z * (p.v2.z - p.v1.z) <= 0.0
  {
    VerticalOpposes(ApproachOf(p, m), HpzM(p), p.tLOS, p.dtlook, p.v2.z - p.v1.z, Mvp(p, m).dv.z);
  }
}
