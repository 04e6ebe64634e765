/**
 * The few Python built-ins the core relies on, over exact reals and integers:
 * `round` (ties to even), floored `%` and `//` on floats, and `str.upper`.
 */
module PyBuiltins {

  function Abs(x: real): real {
    if x < 0.0 then -x else x
  }

  /** Python's `round(x)` for a float `x`: the nearest integer, ties going to the even one. */
  function Round(x: real): (r: int)
    ensures Abs(r as real - x) <= 0.5
    ensures Abs(r as real - x) == 0.5 ==> r % 2 == 0
  {
    var f := x.Floor;
    var d := x - f as real;
    if d < 0.5 then f
    else if d > 0.5 then f + 1
    else if f % 2 == 0 then f else f + 1
  }

  /** The two postconditions of Round single out its result. */
  lemma RoundUnique(x: real, n: int)
    requires Abs(n as real - x) < 0.5 || (Abs(n as real - x) == 0.5 && n % 2 == 0)
    ensures Round(x) == n
  {
  }

  lemma RoundOfInteger(n: int)
    ensures Round(n as real) == n
  {
    RoundUnique(n as real, n);
  }

  /** Shifting by an even integer commutes with rounding half to even. */
  lemma RoundShiftEven(x: real, k: int)
    ensures Round(x + (2 * k) as real) == Round(x) + 2 * k
  {
    var r := Round(x);
    assert Abs((r + 2 * k) as real - (x + (2 * k) as real)) == Abs(r as real - x);
    assert (r + 2 * k) % 2 == r % 2;
    RoundUnique(x + (2 * k) as real, r + 2 * k);
  }

  lemma MulMonotone(a: real, b: real, m: real)
    requires a <= b && m > 0.0
    ensures a * m <= b * m
  {
  }

  lemma MulStrictMonotone(a: real, b: real, m: real)
    requires a < b && m > 0.0
    ensures a * m < b * m
  {
  }

  /** Python's `x // m` for floats and a positive divisor: the floor of the quotient. */
  function FloorDiv(x: real, m: real): (q: int)
    requires m > 0.0
    ensures q as real * m <= x < (q + 1) as real * m
  {
    var k := (x / m).Floor;
    assert k as real <= x / m < k as real + 1.0;
    MulMonotone(k as real, x / m, m);
    MulStrictMonotone(x / m, k as real + 1.0, m);
    assert x / m * m == x;
    assert x < (k as real + 1.0) * m;
    k
  }

  /** Python's `x % m` for floats and a positive divisor: the remainder of floored division. */
  function FloorMod(x: real, m: real): (r: real)
    requires m > 0.0
    ensures 0.0 <= r < m
    ensures r == x - FloorDiv(x, m) as real * m
  {
    x - FloorDiv(x, m) as real * m
  }

  /** `str.upper` on one character, for the ASCII letters the core's names use. */
  function UpperChar(c: char): (u: char)
    ensures 'a' <= c <= 'z' ==> 'A' <= u <= 'Z' && u as int - 'A' as int == c as int - 'a' as int
    ensures !('a' <= c <= 'z') ==> u == c
  {
    if 'a' <= c <= 'z' then (c as int - 'a' as int + 'A' as int) as char else c
  }

  /**
   * `str.upper` on ASCII text: no lower-case letter is left, each one becomes the capital
   * in the same place of the alphabet, and every other character is kept.
   */
  function Upper(s: string): (u: string)
    ensures |u| == |s|
    ensures forall i :: 0 <= i < |u| ==> !('a' <= u[i] <= 'z')
    ensures forall i :: 0 <= i < |s| && 'a' <= s[i] <= 'z' ==> u[i] as int == s[i] as int - ('a' as int - 'A' as int)
    ensures forall i :: 0 <= i < |s| && !('a' <= s[i] <= 'z') ==> u[i] == s[i]
  {
    seq(|s|, i requires 0 <= i < |s| => UpperChar(s[i]))
  }

  /** Upper-casing twice is upper-casing once. */
  lemma UpperIdempotent(s: string)
    ensures Upper(Upper(s)) == Upper(s)
  {
  }
}
