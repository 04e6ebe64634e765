/**
 * The ADS-L field codecs of the ADS-L plugin: altitude, ground speed and vertical speed
 * in the exponent/base scheme of ExpBase, and ground track as a uniform 512-step
 * quantizer, with the drone-type test.
 */
module Adsl {
  import opened Wrappers
  import opened PyBuiltins
  import opened ExpBase

  /** 2**12, the range of the 12-bit altitude base. */
  const AltRange: nat := 4096
  /** 2**6, the range of the 6-bit ground-speed and vertical-speed bases. */
  const SpeedRange: nat := 64
  /** Altitudes are sent in metres above -320. */
  const AltOffset: int := 320
  const GsScale: real := 0.25
  const VsScale: real := 0.125
  /** `GT_RES = 360/512`, degrees per ground-track step. */
  const GtRes: real := 360.0 / 512.0

  lemma RangesArePowers()
    ensures Pow2(12) == AltRange && Pow2(6) == SpeedRange
  {
  }

  // ---------------------------------------------------------------- altitude

  /** The altitude a pair stands for: the decoder formula less the offset. */
  function AltValue(f: Fields): int {
    FieldsMagnitude(f, AltRange) - AltOffset
  }

  /** `decode_alt`: exponent from bits 12-13, base from bits 0-11. */
  function DecodeAlt(v: int): (alt: int)
    ensures -320 <= alt <= 61112
  {
    var f := Unpack(v, AltRange);
    MagnitudeLinear(f.exponent, f.base, AltRange);
    AltValue(f)
  }

  /** `encode_alt`: None where `alt + 320 <= 0` leaves no exponent (the IndexError). */
  function EncodeAlt(alt: real): (r: Option<Fields>)
    ensures r.None? <==> alt + 320.0 <= 0.0
  {
    Encode(alt + AltOffset as real, AltRange)
  }

  /**
   * `encode_decode_alt`: the altitude the receiver recovers. It fails where the encoder
   * does and is never below the -320 m offset.
   */
  function EncodeDecodeAlt(alt: real): (r: Option<int>)
    ensures r.None? <==> alt + 320.0 <= 0.0
    ensures r.Some? ==> r.value >= -320
  {
    match EncodeAlt(alt)
    case None => None
    case Some(f) =>
      MagnitudeLinear(f.exponent, f.base, AltRange);
      Some(AltValue(f))
  }

  /** Packing a pair that fits the fields and decoding the word gives the formula's value. */
  lemma DecodeAltOfPacked(e: nat, b: int)
    requires e < 4 && 0 <= b < 4096
    ensures DecodeAlt(e * 4096 + b) == AltValue(Fields(e, b))
  {
    UnpackPack(Fields(e, b), AltRange);
  }

  /** Only the low 14 bits of the word are read. */
  lemma DecodeAltIgnoresHigh(v: int)
    ensures DecodeAlt(v) == DecodeAlt(v % 16384)
  {
    UnpackIgnoresHigh(v, AltRange);
  }

  /** Over the 14-bit words decoding is strictly increasing, so distinct words mean distinct altitudes. */
  lemma DecodeAltIncreasing(v: int, w: int)
    requires 0 <= v < w < 16384
    ensures DecodeAlt(v) < DecodeAlt(w)
  {
    PackUnpack(v, AltRange);
    PackUnpack(w, AltRange);
    MagnitudeIncreasing(Unpack(v, AltRange), Unpack(w, AltRange), AltRange);
  }

  /** The altitude recovered is within half a step 2^e of the input. */
  lemma EncodeDecodeAltError(alt: real)
    requires alt + 320.0 > 0.0
    ensures EncodeDecodeAlt(alt).Some?
    ensures Abs(EncodeDecodeAlt(alt).value as real - alt) <= Pow2(EncodeAlt(alt).value.exponent) as real / 2.0
  {
    var m := alt + 320.0;
    var q := Quantize(m, AltRange).value;
    assert EncodeAlt(alt) == Encode(m, AltRange);
    assert EncodeDecodeAlt(alt) == Some(q - 320);
    assert (q - 320) as real - alt == q as real - m;
  }

  /** Re-encoding a recovered altitude reproduces it, for every altitude above -319.5. */
  lemma EncodeDecodeAltIdempotent(alt: real)
    requires alt + 320.0 > 0.5
    ensures EncodeDecodeAlt(alt).Some?
    ensures EncodeDecodeAlt(EncodeDecodeAlt(alt).value as real) == EncodeDecodeAlt(alt)
  {
    var m := alt + 320.0;
    QuantizePositive(m, AltRange);
    QuantizeIdempotent(m, AltRange);
    var v := Quantize(m, AltRange).value;
    assert EncodeDecodeAlt(alt) == Some(v - 320);
    assert (v - 320) as real + 320.0 == v as real;
  }

  /**
   * An altitude whose normalised value is exactly a threshold T(k) has unrounded base 4096
   * at exponent k - 1 and the carry gives exponent k, base 0 (the first is 4096 - 320 = 3776 m).
   */
  lemma EncodeAltCarries(k: nat)
    requires 1 <= k <= 4
    ensures EncodeAlt(Threshold(k, AltRange) as real - 320.0) == Some(Fields(k, 0))
  {
    var m := Threshold(k, AltRange) as real;
    EncodeAtThreshold(k, AltRange);
    assert EncodeAlt(m - 320.0) == Encode(m, AltRange);
  }

  /**
   * Just below it the base 4095.75 rounds to 4096 with no carry: the pair does not fit
   * the 12-bit field, though its formula value is that of (1, 0).
   */
  lemma EncodeAltRoundsUpWithoutCarry()
    ensures EncodeAlt(3775.75) == Some(Fields(0, 4096))
    ensures !Packable(EncodeAlt(3775.75).value, AltRange)
    ensures AltValue(Fields(0, 4096)) == AltValue(Fields(1, 0))
  {
    RoundsUpWithoutCarry(0, AltRange, 4095.75, 4095.75);
    CarryMagnitude(0, AltRange);
  }

  /** Above 15 * 4096 - 320 the base exceeds 4095 and no longer fits. */
  lemma EncodeAltOverflows(alt: real)
    requires alt > 61120.0
    ensures EncodeAlt(alt).Some? && EncodeAlt(alt).value.exponent == 3
    ensures EncodeAlt(alt).value.base >= 4096
  {
    EncodeOverflowsAtTop(alt + 320.0, AltRange);
  }

  // ------------------------------------------------------------ ground speed

  /** The decoder result of `decode_gs` and `decode_vs`: `(value, exponent, base)`. */
  datatype Decoded = Decoded(value: real, exponent: int, base: int)

  /** The ground speed a pair stands for. */
  function GsValue(f: Fields): real {
    FieldsMagnitude(f, SpeedRange) as real * GsScale
  }

  /** `decode_gs`: exponent from bits 6-7, base from bits 0-5, value in steps of 0.25 m/s. */
  function DecodeGs(v: int): (r: Decoded)
    ensures 0 <= r.exponent < 4 && 0 <= r.base < 64
    ensures 0.0 <= r.value <= 238.0
    ensures r.value == GsValue(Fields(r.exponent, r.base))
  {
    var f := Unpack(v, SpeedRange);
    MagnitudeLinear(f.exponent, f.base, SpeedRange);
    Decoded(GsValue(f), f.exponent, f.base)
  }

  /**
   * `encode_gs`: a negative speed is taken as normalised value 1; zero has no exponent
   * and the source then reads an unset `e_star`, so the model returns None.
   */
  function EncodeGs(gs: real): (r: Option<Fields>)
    ensures r.None? <==> gs == 0.0
  {
    var m := if gs < 0.0 then 1.0 else gs / GsScale;
    Encode(m, SpeedRange)
  }

  /**
   * `encode_decode_gs_single`: the ground speed the receiver recovers. It fails only for
   * zero and is never negative, whatever the sign of the input.
   */
  function EncodeDecodeGsSingle(gs: real): (r: Option<real>)
    ensures r.None? <==> gs == 0.0
    ensures r.Some? ==> r.value >= 0.0
  {
    match EncodeGs(gs)
    case None => None
    case Some(f) =>
      MagnitudeLinear(f.exponent, f.base, SpeedRange);
      Some(GsValue(f))
  }

  lemma DecodeGsOfPacked(e: nat, b: int)
    requires e < 4 && 0 <= b < 64
    ensures DecodeGs(e * 64 + b) == Decoded(GsValue(Fields(e, b)), e, b)
  {
    UnpackPack(Fields(e, b), SpeedRange);
  }

  /** Every negative ground speed is sent as (0, 1) and read back as 0.25 m/s. */
  lemma EncodeGsNegative(gs: real)
    requires gs < 0.0
    ensures EncodeGs(gs) == Some(Fields(0, 1))
    ensures EncodeDecodeGsSingle(gs) == Some(0.25)
  {
    MagnitudeLinear(0, 1, SpeedRange);
    EncodeMagnitude(0, 1, SpeedRange);
  }

  /** A positive ground speed is recovered within half a step, 2^e * 0.125 m/s. */
  lemma EncodeDecodeGsError(gs: real)
    requires gs > 0.0
    ensures EncodeDecodeGsSingle(gs).Some?
    ensures Abs(EncodeDecodeGsSingle(gs).value - gs) <= Pow2(EncodeGs(gs).value.exponent) as real * 0.125
  {
    var m := gs / GsScale;
    assert EncodeGs(gs) == Encode(m, SpeedRange);
    EncodeError(m, SpeedRange);
    var f := Encode(m, SpeedRange).value;
    var v := FieldsMagnitude(f, SpeedRange) as real;
    assert EncodeDecodeGsSingle(gs) == Some(v * GsScale);
    ScaleError(v, m, Pow2(f.exponent) as real, GsScale);
    assert m * GsScale == gs;
  }

  /** An error bound on normalised values carries over to scaled values. */
  lemma ScaleError(v: real, m: real, q: real, s: real)
    requires s > 0.0 && Abs(v - m) <= q / 2.0
    ensures Abs(v * s - m * s) <= q * s / 2.0
  {
    if v >= m {
      MulMonotone(v - m, q / 2.0, s);
    } else {
      MulMonotone(m - v, q / 2.0, s);
    }
  }

  // ---------------------------------------------------------- vertical speed

  /** The pair `encode_vs` returns: `(sign, e_star, round(base))`. */
  datatype VsFields = VsFields(sign: int, fields: Fields)

  /** The vertical speed a sign and pair stand for. */
  function VsValue(sign: int, f: Fields): real {
    var magnitude := FieldsMagnitude(f, SpeedRange) as real * VsScale;
    if sign != 0 then -magnitude else magnitude
  }

  /** `decode_vs`: sign from bit 8, exponent from bits 6-7, base from bits 0-5. */
  function DecodeVs(v: int): (r: Decoded)
    ensures 0 <= r.exponent < 4 && 0 <= r.base < 64
    ensures -119.0 <= r.value <= 119.0
    ensures r.value < 0.0 ==> (v / 256) % 2 == 1
    ensures r.value == VsValue((v / 256) % 2, Fields(r.exponent, r.base))
  {
    var sign := (v / 256) % 2;
    var f := Unpack(v, SpeedRange);
    MagnitudeLinear(f.exponent, f.base, SpeedRange);
    Decoded(VsValue(sign, f), f.exponent, f.base)
  }

  /** `encode_vs`: the sign of the input and the magnitude encoded; zero fails. */
  function EncodeVs(vs: real): (r: Option<VsFields>)
    ensures r.None? <==> vs == 0.0
    ensures r.Some? ==> (r.value.sign == 1 <==> vs < 0.0) && (r.value.sign == 0 <==> vs >= 0.0)
  {
    var sign := if vs < 0.0 then 1 else 0;
    match Encode(Abs(vs) / VsScale, SpeedRange)
    case None => None
    case Some(f) => Some(VsFields(sign, f))
  }

  lemma DecodeVsOfPacked(s: int, e: nat, b: int)
    requires 0 <= s < 2 && e < 4 && 0 <= b < 64
    ensures DecodeVs(s * 256 + e * 64 + b) == Decoded(VsValue(s, Fields(e, b)), e, b)
  {
    var v := s * 256 + e * 64 + b;
    UnpackPack(Fields(e, b), SpeedRange);
    DivModUnique(v, 64, s * 4 + e, b);
    DivModUnique(s * 4 + e, 4, s, e);
    DivModUnique(v, 256, s, e * 64 + b);
    DivModUnique(s, 2, 0, s);
  }

  /** Negating a vertical speed flips the sign only. */
  lemma EncodeVsOdd(vs: real)
    requires vs != 0.0
    ensures EncodeVs(-vs).value.fields == EncodeVs(vs).value.fields
    ensures EncodeVs(-vs).value.sign == 1 - EncodeVs(vs).value.sign
  {
  }

  /** A nonzero vertical speed is recovered, with its sign, within half a step 2^e * 0.0625 m/s. */
  lemma EncodeVsError(vs: real)
    requires vs != 0.0
    ensures EncodeVs(vs).Some?
    ensures var r := EncodeVs(vs).value;
      Abs(VsValue(r.sign, r.fields) - vs) <= Pow2(r.fields.exponent) as real * 0.0625
  {
    var m := Abs(vs) / VsScale;
    EncodeError(m, SpeedRange);
    var r := EncodeVs(vs).value;
    var v := FieldsMagnitude(r.fields, SpeedRange) as real;
    ScaleError(v, m, Pow2(r.fields.exponent) as real, VsScale);
    assert m * VsScale == Abs(vs);
  }

  // ------------------------------------------------------------ ground track

  /** `encode_ground_track`: `int(round(t / GT_RES)) % 512`; None passes through. */
  function EncodeGroundTrack(t: Option<real>): (r: Option<int>)
    ensures r.None? <==> t.None?
    ensures r.Some? ==> 0 <= r.value < 512
  {
    match t
    case None => None
    case Some(x) => Some(Round(x / GtRes) % 512)
  }

  /** `decode_ground_track`: `k * GT_RES`; None passes through. */
  function DecodeGroundTrack(k: Option<int>): (r: Option<real>)
    ensures r.None? <==> k.None?
  {
    match k
    case None => None
    case Some(n) => Some(n as real * GtRes)
  }

  /** `encode_decode_trk_single`: None passes through, and every track is recovered within [0, 360). */
  function EncodeDecodeTrkSingle(t: Option<real>): (r: Option<real>)
    ensures r.None? <==> t.None?
    ensures r.Some? ==> 0.0 <= r.value < 360.0
  {
    DecodeGroundTrack(EncodeGroundTrack(t))
  }

  /** Tracks a full turn apart encode alike. */
  lemma EncodeGroundTrackPeriodic(t: real)
    ensures EncodeGroundTrack(Some(t + 360.0)) == EncodeGroundTrack(Some(t))
  {
    assert (t + 360.0) / GtRes == t / GtRes + (2 * 256) as real;
    RoundShiftEven(t / GtRes, 256);
    var n := Round(t / GtRes);
    DivModUnique(n + 512, 512, n / 512 + 1, n % 512);
  }

  /** Every encoded track decodes to a value that encodes back to it. */
  lemma EncodeDecodeGroundTrack(k: int)
    requires 0 <= k < 512
    ensures EncodeGroundTrack(DecodeGroundTrack(Some(k))) == Some(k)
  {
    assert k as real * GtRes / GtRes == k as real;
    RoundOfInteger(k);
  }

  /** Below the last half step a track is recovered within half a step, 0.3515625 degrees. */
  lemma EncodeDecodeTrkError(t: real)
    requires 0.0 <= t < 360.0 - GtRes / 2.0
    ensures Abs(EncodeDecodeTrkSingle(Some(t)).value - t) <= GtRes / 2.0
  {
    var x := t / GtRes;
    var n := Round(x);
    assert x < 511.5;
    assert 0 <= n < 512;
    ScaleError(n as real, x, 1.0, GtRes);
    assert x * GtRes == t;
  }

  /** In the last half step below 360 the track wraps to 0. */
  lemma EncodeDecodeTrkWraps(t: real)
    requires 360.0 - GtRes / 2.0 < t < 360.0
    ensures EncodeDecodeTrkSingle(Some(t)) == Some(0.0)
  {
    var x := t / GtRes;
    assert 511.5 < x < 512.0;
    RoundUnique(x, 512);
  }

  // -------------------------------------------------------------- drone types

  /** The listed drone type names, before upper-casing. */
  const DroneNames: seq<string> := ["M600", "Amzn", "Mnet", "Phan4", "M100", "M200", "Mavic", "Horsefly"]

  /** `drone_list` after `[type.upper() for type in drone_list]`, written out. */
  function DroneTypes(): (ts: seq<string>)
    ensures ts == ["M600", "AMZN", "MNET", "PHAN4", "M100", "M200", "MAVIC", "HORSEFLY"]
  {
    var ts := seq(|DroneNames|, i requires 0 <= i < |DroneNames| => Upper(DroneNames[i]));
    assert ts[0] == "M600" by { UpperOf(DroneNames[0], "M600"); }
    assert ts[1] == "AMZN" by { UpperOf(DroneNames[1], "AMZN"); }
    assert ts[2] == "MNET" by { UpperOf(DroneNames[2], "MNET"); }
    assert ts[3] == "PHAN4" by { UpperOf(DroneNames[3], "PHAN4"); }
    assert ts[4] == "M100" by { UpperOf(DroneNames[4], "M100"); }
    assert ts[5] == "M200" by { UpperOf(DroneNames[5], "M200"); }
    assert ts[6] == "MAVIC" by { UpperOf(DroneNames[6], "MAVIC"); }
    assert ts[7] == "HORSEFLY" by { UpperOf(DroneNames[7], "HORSEFLY"); }
    ts
  }

  /** `is_drone`: a type is a drone exactly when it equals one of the listed names upper-cased. */
  function IsDrone(acType: string): (r: bool)
    ensures r <==> exists i :: 0 <= i < |DroneNames| && acType == Upper(DroneNames[i])
  {
    var ts := seq(|DroneNames|, i requires 0 <= i < |DroneNames| => Upper(DroneNames[i]));
    assert ts == DroneTypes();
    InUpperList(ts, DroneNames, acType);
    acType in DroneTypes()
  }

  lemma InUpperList(ts: seq<string>, names: seq<string>, x: string)
    requires |ts| == |names| && forall i :: 0 <= i < |names| ==> ts[i] == Upper(names[i])
    ensures x in ts <==> exists i :: 0 <= i < |names| && x == Upper(names[i])
  {
    if x in ts {
      var i :| 0 <= i < |ts| && ts[i] == x;
      assert x == Upper(names[i]);
    }
    if exists i :: 0 <= i < |names| && x == Upper(names[i]) {
      var i :| 0 <= i < |names| && x == Upper(names[i]);
      assert ts[i] == x;
    }
  }

  lemma UpperOf(s: string, t: string)
    requires |s| == |t| && forall i :: 0 <= i < |s| ==> UpperChar(s[i]) == t[i]
    ensures Upper(s) == t
  {
  }

  /** Matching is case-sensitive against the upper-cased names. */
  lemma IsDroneCaseSensitive()
    ensures IsDrone("AMZN") && IsDrone("HORSEFLY") && IsDrone("M600")
    ensures !IsDrone("Amzn") && !IsDrone("amzn") && !IsDrone("B737")
  {
    assert "Amzn"[1] != "AMZN"[1];
    assert "amzn"[0] != "AMZN"[0];
  }

  /** Only names already in upper case can be drone types. */
  lemma IsDroneUpper(acType: string)
    requires IsDrone(acType)
    ensures Upper(acType) == acType
  {
    var i :| 0 <= i < |DroneNames| && acType == Upper(DroneNames[i]);
    UpperIdempotent(DroneNames[i]);
  }

  /** Every listed name, upper-cased, is a drone type. */
  lemma IsDroneListed(i: int)
    requires 0 <= i < |DroneNames|
    ensures IsDrone(Upper(DroneNames[i]))
  {
  }
}
