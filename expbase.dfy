/**
 * The exponent/base quantisation scheme of ADS-L shared by altitude, ground speed and
 * vertical speed. A 2-bit exponent e and a base b below P = 2^bits stand for the
 * normalised magnitude 2^e * (P + b) - P, so exponent e covers the band above the
 * threshold T(e) = 2^e * P - P in steps of 2^e.
 */
module ExpBase {
  import opened Wrappers
  import opened PyBuiltins

  function Pow2(n: nat): (r: nat)
    ensures r >= 1
  {
    if n == 0 then 1 else 2 * Pow2(n - 1)
  }

  /** The candidate exponents, in increasing order (`exp_list`). */
  const ExpList: seq<nat> := [0, 1, 2, 3]

  /** T(e): an exponent is usable for magnitudes strictly above its threshold. */
  function Threshold(e: nat, P: nat): int {
    Pow2(e) * P - P
  }

  /** The closed-form decoder of an exponent/base pair. */
  function Magnitude(e: nat, b: int, P: nat): int {
    Pow2(e) * (P + b) - P
  }

  /** The pair an encoder returns: `(e_star, round(base))`. */
  datatype Fields = Fields(exponent: nat, base: int)

  function FieldsMagnitude(f: Fields, P: nat): int {
    Magnitude(f.exponent, f.base, P)
  }

  /** A pair that fits the 2-bit exponent field and a base field of range P. */
  predicate Packable(f: Fields, P: nat) {
    f.exponent <= 3 && 0 <= f.base < P
  }

  lemma ThresholdsOf(P: nat)
    ensures Threshold(0, P) == 0
    ensures Threshold(1, P) == P
    ensures Threshold(2, P) == 3 * P
    ensures Threshold(3, P) == 7 * P
    ensures Threshold(4, P) == 15 * P
  {
    assert Pow2(1) == 2 && Pow2(2) == 4 && Pow2(3) == 8 && Pow2(4) == 16;
    assert Threshold(0, P) == P - P;
    assert Threshold(1, P) == 2 * P - P;
    assert Threshold(2, P) == 4 * P - P;
    assert Threshold(3, P) == 8 * P - P;
    assert Threshold(4, P) == 16 * P - P;
  }

  lemma ThresholdsAsReal(P: nat)
    ensures Threshold(0, P) as real == 0.0
    ensures Threshold(1, P) as real == P as real
    ensures Threshold(2, P) as real == 3.0 * P as real
    ensures Threshold(3, P) as real == 7.0 * P as real
    ensures Threshold(4, P) as real == 15.0 * P as real
  {
    ThresholdsOf(P);
  }

  /** `[e for e in es if m > T(e)]`. */
  function Exceeded(m: real, P: nat, es: seq<nat>): seq<nat> {
    if es == [] then []
    else (if m > Threshold(es[0], P) as real then [es[0]] else []) + Exceeded(m, P, es[1..])
  }

  /** Over `exp_list` the comprehension keeps the exponents 0 up to the band of m. */
  lemma ExceededOfExpList(m: real, P: nat)
    ensures Exceeded(m, P, ExpList) ==
      if m <= 0.0 then []
      else if m <= P as real then [0]
      else if m <= 3.0 * P as real then [0, 1]
      else if m <= 7.0 * P as real then [0, 1, 2]
      else [0, 1, 2, 3]
  {
    ThresholdsOf(P);
    var p := P as real;
    assert ExpList[1..] == [1, 2, 3];
    assert [1, 2, 3][1..] == [2, 3];
    assert [2, 3][1..] == [3];
    assert [3][1..] == [];
    var e3 := Exceeded(m, P, [3]);
    var e2 := Exceeded(m, P, [2, 3]);
    var e1 := Exceeded(m, P, [1, 2, 3]);
    var e0 := Exceeded(m, P, ExpList);
    assert e3 == (if m > 7.0 * p then [3] else []) + Exceeded(m, P, []);
    assert e2 == (if m > 3.0 * p then [2] else []) + e3;
    assert e1 == (if m > p then [1] else []) + e2;
    assert e0 == (if m > 0.0 then [0] else []) + e1;
    if m <= 0.0 {
      assert e0 == [];
    } else if m <= p {
      assert e0 == [0];
    } else if m <= 3.0 * p {
      assert e0 == [0, 1];
    } else if m <= 7.0 * p {
      assert e0 == [0, 1, 2];
    } else {
      assert e0 == [0, 1, 2, 3];
    }
  }

  /**
   * `[e for e in exp_list if m > T(e)][-1]`: the last exponent the comprehension keeps, or
   * None where it keeps none (the source's IndexError).
   */
  function LastExceeded(m: real, P: nat): (r: Option<nat>)
    ensures r.None? <==> forall e :: e in ExpList ==> m <= Threshold(e, P) as real
    ensures r.Some? ==> r.value in ExpList && m > Threshold(r.value, P) as real
    ensures r.Some? ==> forall e :: e in ExpList && m > Threshold(e, P) as real ==> e <= r.value
  {
    ExceededOfExpList(m, P);
    ThresholdsAsReal(P);
    var ex := Exceeded(m, P, ExpList);
    if ex == [] then None else Some(ex[|ex| - 1])
  }

  /**
   * The exponent the encoders choose, band by band against the thresholds T(0..3) =
   * 0, P, 3P, 7P: the largest e <= 3 with m > T(e).
   */
  function ChooseExponent(m: real, P: nat): (r: Option<nat>)
    ensures r.None? <==> m <= 0.0
    ensures r.Some? ==> r.value <= 3 && m > Threshold(r.value, P) as real
    ensures r.Some? && r.value < 3 ==> m <= Threshold(r.value + 1, P) as real
  {
    ThresholdsAsReal(P);
    var p := P as real;
    if m > 7.0 * p then Some(3)
    else if m > 3.0 * p then Some(2)
    else if m > p then Some(1)
    else if m > 0.0 then Some(0)
    else None
  }

  /** The band-by-band choice is the last element of the source's comprehension. */
  lemma ChooseExponentIsLastExceeded(m: real, P: nat)
    ensures LastExceeded(m, P) == ChooseExponent(m, P)
  {
    ExceededOfExpList(m, P);
    ThresholdsOf(P);
  }

  /** The exponent bands do not overlap: the postconditions of ChooseExponent fix its result. */
  lemma ChooseExponentUnique(m: real, P: nat, e: nat)
    requires e <= 3 && m > Threshold(e, P) as real
    requires e < 3 ==> m <= Threshold(e + 1, P) as real
    ensures ChooseExponent(m, P) == Some(e)
  {
    ThresholdsOf(P);
    var p := P as real;
    if e == 0 {
      assert 0.0 < m <= p;
    } else if e == 1 {
      assert p < m <= 3.0 * p;
    } else if e == 2 {
      assert 3.0 * p < m <= 7.0 * p;
    } else {
      assert 7.0 * p < m;
    }
  }

  /** `(m + P) / 2^e - P`, the base before rounding. */
  function UnroundedBase(m: real, e: nat, P: nat): real {
    (m + P as real) / Pow2(e) as real - P as real
  }

  lemma UnroundedBaseScaled(m: real, e: nat, P: nat)
    ensures Pow2(e) as real * (UnroundedBase(m, e, P) + P as real) == m + P as real
  {
    var q := Pow2(e) as real;
    assert (m + P as real) / q * q == m + P as real;
  }

  lemma CastAffine(q: int, P: int, b: int)
    ensures (q * (P + b) - P) as real == q as real * (P as real + b as real) - P as real
  {
  }

  /**
   * One encoder step shared by `encode_alt`, `encode_gs` and `encode_vs` on the
   * normalised magnitude m: choose the exponent, compute the base, take the carry when
   * the unrounded base is exactly P, and round the base otherwise.
   */
  function Encode(m: real, P: nat): (r: Option<Fields>)
    ensures r.None? <==> m <= 0.0
    ensures r.Some? ==> r.value.exponent <= 4 && r.value.base >= 0
  {
    match ChooseExponent(m, P)
    case None => None
    case Some(e) =>
      var base := UnroundedBase(m, e, P);
      BaseIsPositive(m, e, P);
      if base == P as real then Some(Fields(e + 1, 0)) else Some(Fields(e, Round(base)))
  }

  lemma BaseIsPositive(m: real, e: nat, P: nat)
    requires m > Threshold(e, P) as real
    ensures UnroundedBase(m, e, P) > 0.0
  {
    var base := UnroundedBase(m, e, P);
    UnroundedBaseScaled(m, e, P);
    CastAffine(Pow2(e), P, 0);
    PositiveAlgebra(Pow2(e) as real, P as real, base, m);
  }

  lemma PositiveAlgebra(q: real, p: real, base: real, m: real)
    requires q > 0.0 && q * (base + p) == m + p && m > q * (p + 0.0) - p
    ensures base > 0.0
  {
    if base <= 0.0 {
      MulMonotone(base + p, p, q);
      assert false;
    }
  }

  /**
   * `encode` followed by the source's decoding formula, on the normalised magnitude: it
   * fails where the encoder does, and otherwise gives a non-negative magnitude within
   * half a step of the input.
   */
  function Quantize(m: real, P: nat): (r: Option<int>)
    ensures r.None? <==> m <= 0.0
    ensures r.Some? ==> r.value >= 0
    ensures r.Some? ==> Abs(r.value as real - m) <= Pow2(Encode(m, P).value.exponent) as real / 2.0
  {
    match Encode(m, P)
    case None => None
    case Some(f) =>
      EncodeError(m, P);
      MagnitudeLinear(f.exponent, f.base, P);
      Some(FieldsMagnitude(f, P))
  }

  /** Quantisation error: the decoded magnitude is within half a step 2^e of the input. */
  lemma EncodeError(m: real, P: nat)
    requires m > 0.0
    ensures Encode(m, P).Some?
    ensures Abs(FieldsMagnitude(Encode(m, P).value, P) as real - m) <= Pow2(Encode(m, P).value.exponent) as real / 2.0
  {
    var e := ChooseExponent(m, P).value;
    var base := UnroundedBase(m, e, P);
    var f := if base == P as real then Fields(e + 1, 0) else Fields(e, Round(base));
    assert Encode(m, P) == Some(f);
    FieldsError(m, e, P, f);
  }

  lemma FieldsError(m: real, e: nat, P: nat, f: Fields)
    requires f == if UnroundedBase(m, e, P) == P as real then Fields(e + 1, 0) else Fields(e, Round(UnroundedBase(m, e, P)))
    ensures Abs(FieldsMagnitude(f, P) as real - m) <= Pow2(f.exponent) as real / 2.0
  {
    var base := UnroundedBase(m, e, P);
    UnroundedBaseScaled(m, e, P);
    if base == P as real {
      CarryAt(e, P, base, m);
    } else {
      ErrorAt(e, Round(base), P, base, m);
    }
  }

  lemma CarryAt(e: nat, P: nat, base: real, m: real)
    requires base == P as real
    requires Pow2(e) as real * (base + P as real) == m + P as real
    ensures Magnitude(e + 1, 0, P) as real == m
  {
    CarryInt(Pow2(e), Pow2(e + 1), P, Magnitude(e + 1, 0, P), base, m);
  }

  lemma ErrorAt(e: nat, rb: int, P: nat, base: real, m: real)
    requires Abs(rb as real - base) <= 0.5
    requires Pow2(e) as real * (base + P as real) == m + P as real
    ensures Abs(Magnitude(e, rb, P) as real - m) <= Pow2(e) as real / 2.0
  {
    ErrorInt(Pow2(e), P, rb, Magnitude(e, rb, P), base, m);
  }

  lemma CarryInt(q: int, q2: int, P: int, mag: int, base: real, m: real)
    requires q2 == 2 * q && base == P as real
    requires q as real * (base + P as real) == m + P as real
    requires mag == q2 * (P + 0) - P
    ensures mag as real == m
  {
    CastAffine(q2, P, 0);
  }

  lemma ErrorInt(q: int, P: int, rb: int, mag: int, base: real, m: real)
    requires q >= 1 && Abs(rb as real - base) <= 0.5
    requires q as real * (base + P as real) == m + P as real
    requires mag == q * (P + rb) - P
    ensures Abs(mag as real - m) <= q as real / 2.0
  {
    CastAffine(q, P, rb);
    ErrorAlgebra(q as real, P as real, base, rb as real, m, mag as real);
  }

  lemma ErrorAlgebra(q: real, p: real, base: real, rb: real, m: real, mag: real)
    requires q > 0.0 && Abs(rb - base) <= 0.5
    requires q * (base + p) == m + p
    requires mag == q * (p + rb) - p
    ensures Abs(mag - m) <= q / 2.0
  {
    ScaledHalf(q, rb - base, mag - m);
  }

  lemma ScaledHalf(q: real, d: real, p: real)
    requires q > 0.0 && Abs(d) <= 0.5 && p == q * d
    ensures Abs(p) <= q / 2.0
  {
    if d >= 0.0 {
      MulMonotone(d, 0.5, q);
    } else {
      MulMonotone(-d, 0.5, q);
    }
  }

  /** A magnitude exactly at T(k), 1 <= k <= 4, carries into exponent k with base 0. */
  lemma EncodeAtThreshold(k: nat, P: nat)
    requires 1 <= k <= 4 && P >= 1
    ensures Encode(Threshold(k, P) as real, P) == Some(Fields(k, 0))
  {
    var m := Threshold(k, P) as real;
    ThresholdsOf(P);
    ChooseExponentUnique(m, P, k - 1);
    var q := Pow2(k - 1) as real;
    var p := P as real;
    UnroundedBaseScaled(m, k - 1, P);
    assert Pow2(k) == 2 * Pow2(k - 1);
    assert q * (UnroundedBase(m, k - 1, P) + p) == q * (2.0 * p);
    CancelScale(q, UnroundedBase(m, k - 1, P) + p, 2.0 * p);
  }

  lemma CancelScale(q: real, a: real, b: real)
    requires q > 0.0 && q * a == q * b
    ensures a == b
  {
    if a < b {
      MulStrictMonotone(a, b, q);
    } else if b < a {
      MulStrictMonotone(b, a, q);
    }
  }

  /** The two spellings of a carried value agree: base P at exponent e is base 0 at e + 1. */
  lemma CarryMagnitude(e: nat, P: nat)
    ensures Magnitude(e, P, P) == Magnitude(e + 1, 0, P) == Threshold(e + 1, P)
  {
    assert Pow2(e + 1) == 2 * Pow2(e);
    assert Pow2(e) * (P + P) == 2 * Pow2(e) * P;
  }

  /**
   * The shape of an encoder result: exponent 4 is only reached by the carry, with base 0,
   * and below exponent 3 the base is at most P.
   */
  lemma EncodeShape(m: real, P: nat)
    requires m > 0.0
    ensures Encode(m, P).value.exponent == 4 ==> Encode(m, P).value.base == 0
    ensures Encode(m, P).value.exponent < 3 ==> Encode(m, P).value.base <= P
  {
    var e := ChooseExponent(m, P).value;
    var base := UnroundedBase(m, e, P);
    if base != P as real && e < 3 {
      EncodeNoCarry(m, P, e, base);
      BaseAtMostRange(m, e, P);
      assert Round(base) as real <= base + 0.5;
    }
  }

  /** Where the unrounded base is not P the encoder rounds it at the chosen exponent. */
  lemma EncodeNoCarry(m: real, P: nat, e: nat, base: real)
    requires ChooseExponent(m, P) == Some(e) && UnroundedBase(m, e, P) == base && base != P as real
    ensures Encode(m, P) == Some(Fields(e, Round(base)))
  {
  }

  lemma BaseAtMostRange(m: real, e: nat, P: nat)
    requires e < 3 && m <= Threshold(e + 1, P) as real
    ensures UnroundedBase(m, e, P) <= P as real
  {
    UnroundedBaseScaled(m, e, P);
    CastAffine(Pow2(e + 1), P, 0);
    assert Pow2(e + 1) == 2 * Pow2(e);
    BelowRangeAlgebra(Pow2(e) as real, Pow2(e + 1) as real, P as real, UnroundedBase(m, e, P), m);
  }

  lemma BelowRangeAlgebra(q: real, q2: real, p: real, base: real, m: real)
    requires q > 0.0 && q2 == 2.0 * q
    requires q * (base + p) == m + p && m <= q2 * (p + 0.0) - p
    ensures base <= p
  {
    if base > p {
      MulStrictMonotone(2.0 * p, base + p, q);
      assert false;
    }
  }

  /**
   * Decoding then encoding reproduces every pair that fits the fields, and at exponent 3
   * every larger base other than P; the one exception is (0, 0), whose magnitude 0 has no
   * exponent.
   */
  lemma EncodeMagnitude(e: nat, b: int, P: nat)
    requires P >= 1 && e <= 3 && b >= 0 && b != P && (e < 3 ==> b < P)
    requires e > 0 || b > 0
    ensures Encode(Magnitude(e, b, P) as real, P) == Some(Fields(e, b))
  {
    if b == 0 {
      EncodeAtThreshold(e, P);
    } else {
      var m := Magnitude(e, b, P) as real;
      CastAffine(Pow2(e), P, b);
      BandAt(e, P, b as real, m);
      RoundOfInteger(b);
    }
  }

  /**
   * A magnitude 2^e * (P + b) - P with b > 0 (and b <= P below exponent 3) lies in the
   * band of exponent e and has unrounded base exactly b.
   */
  lemma BandAt(e: nat, P: nat, b: real, m: real)
    requires e <= 3 && b > 0.0 && (e < 3 ==> b <= P as real)
    requires m == Pow2(e) as real * (P as real + b) - P as real
    ensures ChooseExponent(m, P) == Some(e)
    ensures UnroundedBase(m, e, P) == b
  {
    BandThresholds(e, P, b, m);
    ChooseExponentUnique(m, P, e);
  }

  lemma BandThresholds(e: nat, P: nat, b: real, m: real)
    requires e <= 3 && b > 0.0 && (e < 3 ==> b <= P as real)
    requires m == Pow2(e) as real * (P as real + b) - P as real
    ensures m > Threshold(e, P) as real
    ensures e < 3 ==> m <= Threshold(e + 1, P) as real
    ensures UnroundedBase(m, e, P) == b
  {
    AboveThreshold(Pow2(e), P, Threshold(e, P), b, m);
    if e < 3 {
      assert Pow2(e + 1) == 2 * Pow2(e);
      BelowNextThreshold(Pow2(e), Pow2(e + 1), P, Threshold(e + 1, P), b, m);
    }
    BaseOfMagnitude(Pow2(e) as real, P as real, b, m);
  }

  lemma AboveThreshold(q: int, P: int, t: int, b: real, m: real)
    requires q >= 1 && b > 0.0 && t == q * P - P
    requires m == q as real * (P as real + b) - P as real
    ensures m > t as real
  {
    CastAffine(q, P, 0);
    MulStrictMonotone(P as real, P as real + b, q as real);
  }

  lemma BelowNextThreshold(q: int, q2: int, P: int, t: int, b: real, m: real)
    requires q >= 1 && q2 == 2 * q && b <= P as real && t == q2 * P - P
    requires m == q as real * (P as real + b) - P as real
    ensures m <= t as real
  {
    CastAffine(q2, P, 0);
    MulMonotone(P as real + b, 2.0 * P as real, q as real);
  }

  lemma BaseOfMagnitude(q: real, p: real, b: real, m: real)
    requires q >= 1.0 && m == q * (p + b) - p
    ensures (m + p) / q - p == b
  {
    assert m + p == q * (p + b);
  }

  /**
   * The carry is tested before rounding: an unrounded base in (P - 1/2, P) below exponent 3
   * rounds to P with no carry, a base that does not fit its field (CarryMagnitude gives the
   * value it decodes to).
   */
  lemma RoundsUpWithoutCarry(e: nat, P: nat, base: real, m: real)
    requires e < 3 && P >= 1 && P as real - 0.5 < base < P as real
    requires m == Pow2(e) as real * (P as real + base) - P as real
    ensures Encode(m, P) == Some(Fields(e, P))
    ensures !Packable(Encode(m, P).value, P)
  {
    BandAt(e, P, base, m);
    EncodeNoCarry(m, P, e, base);
    RoundUnique(base, P);
  }

  /** Above T(4) = 15P the exponent stays 3 and the base no longer fits its field. */
  lemma EncodeOverflowsAtTop(m: real, P: nat)
    requires P >= 1 && m > 15.0 * P as real
    ensures Encode(m, P).Some? && Encode(m, P).value.exponent == 3
    ensures Encode(m, P).value.base >= P
    ensures !Packable(Encode(m, P).value, P)
  {
    ThresholdsOf(P);
    assert Pow2(3) == 8;
    ChooseExponentUnique(m, P, 3);
    var base := UnroundedBase(m, 3, P);
    UnroundedBaseScaled(m, 3, P);
    assert 8.0 * (base + P as real) == m + P as real;
    assert base > P as real;
    assert Round(base) as real >= base - 0.5;
  }

  /**
   * Every pair of the shape the encoder produces that decodes to a positive magnitude
   * quantizes back to that magnitude.
   */
  lemma QuantizeMagnitude(f: Fields, P: nat)
    requires P >= 1 && f.exponent <= 4 && f.base >= 0
    requires f.exponent == 4 ==> f.base == 0
    requires f.exponent < 3 ==> f.base <= P
    requires FieldsMagnitude(f, P) > 0
    ensures Quantize(FieldsMagnitude(f, P) as real, P) == Some(FieldsMagnitude(f, P))
  {
    var v := FieldsMagnitude(f, P);
    if f.base == 0 {
      assert v == Threshold(f.exponent, P);
      EncodeAtThreshold(f.exponent, P);
      QuantizeOfEncode(v, f, P);
    } else if f.base == P {
      CarryMagnitude(f.exponent, P);
      EncodeAtThreshold(f.exponent + 1, P);
      QuantizeOfEncode(v, Fields(f.exponent + 1, 0), P);
    } else {
      EncodeMagnitude(f.exponent, f.base, P);
      QuantizeOfEncode(v, f, P);
    }
  }

  lemma QuantizeOfEncode(v: int, g: Fields, P: nat)
    requires Encode(v as real, P) == Some(g) && FieldsMagnitude(g, P) == v
    ensures Quantize(v as real, P) == Some(v)
  {
  }

  /** Quantizing a positive quantized value changes nothing. */
  lemma QuantizeIdempotent(m: real, P: nat)
    requires P >= 1 && m > 0.0
    requires Quantize(m, P).value > 0
    ensures Quantize(Quantize(m, P).value as real, P) == Quantize(m, P)
  {
    var f := Encode(m, P).value;
    EncodeShape(m, P);
    assert Quantize(m, P) == Some(FieldsMagnitude(f, P));
    QuantizeMagnitude(f, P);
  }

  /** The closed forms of the decoder for each exponent a field word can hold. */
  lemma MagnitudeLinear(e: nat, b: int, P: nat)
    requires e <= 4
    ensures Magnitude(e, b, P) ==
      if e == 0 then b
      else if e == 1 then P + 2 * b
      else if e == 2 then 3 * P + 4 * b
      else if e == 3 then 7 * P + 8 * b
      else 15 * P + 16 * b
  {
    assert Pow2(1) == 2 && Pow2(2) == 4 && Pow2(3) == 8 && Pow2(4) == 16;
  }

  /**
   * A positive input above one half quantizes to a positive magnitude: rounding at
   * exponent 0 keeps at least 1, and every higher exponent starts at T(1) = P.
   */
  lemma QuantizePositive(m: real, P: nat)
    requires P >= 1 && m > 0.5
    ensures Quantize(m, P).Some? && Quantize(m, P).value > 0
  {
    var f := Encode(m, P).value;
    MagnitudeLinear(f.exponent, f.base, P);
    if f.exponent == 0 {
      var e := ChooseExponent(m, P).value;
      assert e == 0;
      var base := UnroundedBase(m, 0, P);
      assert Pow2(0) == 1;
      assert base == m;
      EncodeNoCarry(m, P, 0, base);
      assert f.base == Round(m);
    }
    assert FieldsMagnitude(f, P) > 0;
    assert Quantize(m, P) == Some(FieldsMagnitude(f, P));
  }

  /** `(v >> bits) & 3` and `v & (P - 1)`: the exponent and base fields of a word. */
  function Unpack(v: int, P: nat): (f: Fields)
    requires P >= 1
    ensures Packable(f, P)
  {
    Fields((v / P) % 4, v % P)
  }

  /** The word whose fields are f: exponent above the base. */
  function Pack(f: Fields, P: nat): int {
    f.exponent * P + f.base
  }

  lemma UnpackPack(f: Fields, P: nat)
    requires P >= 1 && Packable(f, P)
    ensures Unpack(Pack(f, P), P) == f
  {
    DivModUnique(Pack(f, P), P, f.exponent, f.base);
    DivModUnique(f.exponent, 4, 0, f.exponent);
  }

  lemma PackUnpack(v: int, P: nat)
    requires P >= 1 && 0 <= v < 4 * P
    ensures Pack(Unpack(v, P), P) == v
  {
    DivModUnique(v / P, 4, 0, v / P);
  }

  /** Bits above the exponent field do not matter. */
  lemma UnpackIgnoresHigh(v: int, P: nat)
    requires P >= 1
    ensures Unpack(v, P) == Unpack(v % (4 * P), P)
  {
    var low := v % (4 * P);
    var k := v / (4 * P);
    var q := low / P;
    var r := low % P;
    assert v == (q + 4 * k) * P + r;
    DivModUnique(v, P, q + 4 * k, r);
    DivModUnique(q + 4 * k, 4, q / 4 + k, q % 4);
  }

  lemma DivModUnique(v: int, P: int, q: int, r: int)
    requires P > 0 && 0 <= r < P && v == q * P + r
    ensures v / P == q && v % P == r
  {
    var q0 := v / P;
    if q > q0 {
      MulAtLeast(q - q0, P);
      assert false;
    } else if q < q0 {
      MulAtLeast(q0 - q, P);
      assert false;
    }
  }

  lemma MulAtLeast(d: int, P: int)
    requires d >= 1 && P > 0
    ensures d * P >= P
    decreases d
  {
    if d > 1 {
      MulAtLeast(d - 1, P);
      assert d * P == (d - 1) * P + P;
    }
  }

  /** Decoding is strictly increasing in the word: larger words stand for larger magnitudes. */
  lemma MagnitudeIncreasing(f: Fields, g: Fields, P: nat)
    requires P >= 1 && Packable(f, P) && Packable(g, P)
    requires Pack(f, P) < Pack(g, P)
    ensures FieldsMagnitude(f, P) < FieldsMagnitude(g, P)
  {
    MagnitudeLinear(f.exponent, f.base, P);
    MagnitudeLinear(g.exponent, g.base, P);
    if f.exponent > g.exponent {
      MulAtLeast(f.exponent - g.exponent, P);
      assert false;
    }
  }
}
