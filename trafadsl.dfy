/**
 * The aircraft-id lookup and the clock formatting of the ADS-L traffic plugin.
 */
module TrafAdsl {
  import opened PyBuiltins

  /** What `id2idx` is given: one callsign, or a list of them. */
  datatype AcId = Single(acid: string) | Many(acids: seq<string>)

  /** What `id2idx` returns: one index, or one index per callsign; -1 marks a callsign not found. */
  datatype Lookup = Index(i: int) | Indices(found: seq<int>)

  /** `xs.index(x)`, with the `ValueError` caught as -1: the first position of `x`. */
  function FirstIndex(xs: seq<string>, x: string): (r: int)
    ensures -1 <= r < |xs|
    ensures r == -1 <==> x !in xs
    ensures r >= 0 ==> xs[r] == x && forall j :: 0 <= j < r ==> xs[j] != x
    decreases |xs|
  {
    if |xs| == 0 then -1
    else if xs[0] == x then 0
    else
      var r := FirstIndex(xs[1..], x);
      if r == -1 then -1 else r + 1
  }

  /**
   * `dict((v, i) for i, v in enumerate(ids))`: later entries overwrite earlier ones, so
   * every callsign maps to its last position.
   */
  function LastIndexMap(ids: seq<string>): (m: map<string, int>)
    ensures forall x :: x in m <==> x in ids
    ensures forall x :: x in m ==> 0 <= m[x] < |ids| && ids[m[x]] == x
    ensures forall x, j :: x in m && m[x] < j < |ids| ==> ids[j] != x
    decreases |ids|
  {
    if |ids| == 0 then map[]
    else
      var front := ids[..|ids| - 1];
      assert forall j :: 0 <= j < |front| ==> front[j] == ids[j];
      assert ids == front + [ids[|ids| - 1]];
      LastIndexMap(front)[ids[|ids| - 1] := |ids| - 1]
  }

  /**
   * `id2idx(acid)` against the traffic's callsigns `ids`: for one callsign, `#` and `*`
   * refer to the last created aircraft and any other callsign is looked up upper-cased;
   * a list is looked up as given.
   */
  function Id2Idx(ids: seq<string>, acid: AcId): (r: Lookup)
    ensures acid.Single? ==> r.Index?
    ensures acid.Many? ==> r.Indices? && |r.found| == |acid.acids|
  {
    match acid
    case Single(s) =>
      if s == "#" || s == "*" then Index(|ids| - 1)
      else Index(FirstIndex(ids, Upper(s)))
    case Many(xs) =>
      var tmp := LastIndexMap(ids);
      Indices(seq(|xs|, k requires 0 <= k < |xs| => if xs[k] in tmp then tmp[xs[k]] else -1))
  }

  /**
   * One callsign: the shortcuts name the last aircraft, -1 when there is none; any other
   * callsign finds the first aircraft whose callsign is its upper-cased form, or -1.
   */
  lemma Id2IdxSingle(ids: seq<string>, s: string)
    ensures var r := Id2Idx(ids, Single(s)).i;
      if s == "#" || s == "*" then r == |ids| - 1
      else
        (r == -1 <==> Upper(s) !in ids) &&
        (r >= 0 ==> 0 <= r < |ids| && ids[r] == Upper(s) && forall j :: 0 <= j < r ==> ids[j] != Upper(s))
  {
  }

  /**
   * A list: each entry is -1 exactly when the callsign, taken as given, is absent, and
   * otherwise the last position holding it.
   */
  lemma Id2IdxMany(ids: seq<string>, xs: seq<string>, k: nat)
    requires k < |xs|
    ensures var r := Id2Idx(ids, Many(xs)).found[k];
      (r == -1 <==> xs[k] !in ids) &&
      (r >= 0 ==> 0 <= r < |ids| && ids[r] == xs[k] && forall j :: r < j < |ids| ==> ids[j] != xs[k])
  {
  }

  /**
   * The two paths disagree: a duplicated callsign is found at its first position alone
   * and its last in a list, and a lower-case callsign is found alone but not in a list.
   */
  lemma Id2IdxPathsDiffer()
    ensures Id2Idx(["KL1", "KL2", "KL1"], Single("kl1")) == Index(0)
    ensures Id2Idx(["KL1", "KL2", "KL1"], Many(["KL1"])) == Indices([2])
    ensures Id2Idx(["KL1", "KL2", "KL1"], Many(["kl1"])) == Indices([-1])
  {
    var ids := ["KL1", "KL2", "KL1"];
    assert Upper("kl1") == "KL1";
    assert ids[1] != "KL1";
    Id2IdxMany(ids, ["KL1"], 0);
    assert "kl1" !in ids by { assert "kl1"[0] != ids[0][0] && "kl1"[0] != ids[1][0] && "kl1"[0] != ids[2][0]; }
  }

  function DigitChar(d: int): (c: char)
    requires 0 <= d < 10
    ensures '0' <= c <= '9' && c as int - '0' as int == d
  {
    ('0' as int + d) as char
  }

  /** The decimal digits of `n`, most significant first, without leading zeros. */
  function Digits(n: nat): (s: string)
    ensures |s| >= 1
    ensures forall i :: 0 <= i < |s| ==> '0' <= s[i] <= '9'
    ensures n > 0 ==> s[0] != '0'
    ensures n < 10 ==> |s| == 1
    ensures n < 100 ==> |s| <= 2
    decreases n
  {
    if n < 10 then [DigitChar(n)] else Digits(n / 10) + [DigitChar(n % 10)]
  }

  /** The value of a string of decimal digits. */
  function DecimalValue(s: string): nat
    requires forall i :: 0 <= i < |s| ==> '0' <= s[i] <= '9'
    decreases |s|
  {
    if |s| == 0 then 0 else 10 * DecimalValue(s[..|s| - 1]) + (s[|s| - 1] as int - '0' as int)
  }

  /** Reading the digits back gives the number. */
  lemma {:induction false} DecimalValueOfDigits(n: nat)
    ensures DecimalValue(Digits(n)) == n
    decreases n
  {
    if n >= 10 {
      var s := Digits(n);
      assert s[..|s| - 1] == Digits(n / 10);
      DecimalValueOfDigits(n / 10);
    }
  }

  /** A leading zero adds nothing to the value. */
  lemma {:induction false} DecimalValueLeadingZero(s: string)
    requires forall i :: 0 <= i < |s| ==> '0' <= s[i] <= '9'
    ensures DecimalValue("0" + s) == DecimalValue(s)
    decreases |s|
  {
    if |s| > 0 {
      var t := "0" + s;
      assert t[..|t| - 1] == "0" + s[..|s| - 1];
      DecimalValueLeadingZero(s[..|s| - 1]);
    }
  }

  /**
   * `'{:02d}'.format(n)`: at least two characters, zero-padded after the sign; a negative
   * number has a minus sign and its digits, which already make two characters.
   */
  function Pad2(n: int): (s: string)
    ensures |s| >= 2
    ensures n >= 0 ==> forall i :: 0 <= i < |s| ==> '0' <= s[i] <= '9'
    ensures 0 <= n < 100 ==> |s| == 2
    ensures n < 0 ==> s[0] == '-'
  {
    if n < 0 then "-" + Digits(-n)
    else if n < 10 then "0" + Digits(n)
    else Digits(n)
  }

  /** A padded non-negative number reads back as itself. */
  lemma Pad2Value(n: nat)
    ensures DecimalValue(Pad2(n)) == n
  {
    DecimalValueOfDigits(n);
    if n < 10 {
      DecimalValueLeadingZero(Digits(n));
    }
  }

  /**
   * The whole minutes and the whole remaining seconds of `seconds`, as `seconds // 60`
   * and `int(seconds % 60)`: together they make up the whole seconds, and the remainder
   * is below a minute, for negative inputs too.
   */
  function MinutesSeconds(seconds: real): (r: (int, int))
    ensures r.0 * 60 + r.1 == seconds.Floor
    ensures 0 <= r.1 < 60
  {
    var q := FloorDiv(seconds, 60.0);
    var rem := FloorMod(seconds, 60.0);
    var f := rem.Floor;
    assert (q * 60 + f) as real <= seconds < (q * 60 + f + 1) as real;
    (q, f)
  }

  /** `seconds_to_minutes(seconds)`: both parts formatted with `'{:02d}'`. */
  function SecondsToMinutes(seconds: real): (r: (string, string))
    ensures |r.1| == 2
    ensures seconds >= 0.0 ==> |r.0| >= 2 && forall i :: 0 <= i < |r.0| ==> '0' <= r.0[i] <= '9'
  {
    var ms := MinutesSeconds(seconds);
    (Pad2(ms.0), Pad2(ms.1))
  }

  /** For a non-negative time, both strings read back as the minutes and seconds it is made of. */
  lemma SecondsToMinutesReadsBack(seconds: real)
    requires seconds >= 0.0
    ensures var r := SecondsToMinutes(seconds);
      DecimalValue(r.0) * 60 + DecimalValue(r.1) == seconds.Floor &&
      DecimalValue(r.1) < 60
  {
    var ms := MinutesSeconds(seconds);
    assert ms.0 >= 0;
    Pad2Value(ms.0);
    Pad2Value(ms.1);
  }
}
