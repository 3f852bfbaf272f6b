/**
 * The C text helpers the hotplug handler relies on: `atoi` as the C library computes it,
 * `(int) strtol(s, NULL, 10)` with a 64-bit `long`, and the prefix test `is_prefixed_with`.
 */
module CText {
  import opened Common

  const LongMax: int := 0x7fff_ffff_ffff_ffff
  const LongMin: int := -0x8000_0000_0000_0000

  /** `isspace` in the C locale. */
  predicate IsSpace(c: char)
  {
    c == ' ' || c == '\t' || c == '\n' || c == '\U{000B}' || c == '\U{000C}' || c == '\r'
  }

  predicate IsDigit(c: char)
  {
    '0' as int <= c as int <= '9' as int
  }

  /** `s` without its leading white space. */
  function SkipSpaces(s: string): (r: string)
    ensures |r| <= |s| && r == s[|s| - |r|..]
    ensures |r| > 0 ==> !IsSpace(r[0])
  {
    if |s| > 0 && IsSpace(s[0]) then SkipSpaces(s[1..]) else s
  }

  /** Number of leading decimal digits of `s`. */
  function DigitRun(s: string): (n: nat)
    ensures n <= |s|
    ensures forall k :: 0 <= k < n ==> IsDigit(s[k])
    ensures n < |s| ==> !IsDigit(s[n])
  {
    if |s| > 0 && IsDigit(s[0]) then 1 + DigitRun(s[1..]) else 0
  }

  /** The value of a string of decimal digits, most significant first. */
  function DecValue(ds: string): nat
    requires forall k :: 0 <= k < |ds| ==> IsDigit(ds[k])
  {
    if |ds| == 0 then 0 else 10 * DecValue(ds[..|ds| - 1]) + DigitValue(ds[|ds| - 1])
  }

  function DigitValue(c: char): nat
    requires IsDigit(c)
  {
    c as int - '0' as int
  }

  /** `strtol(s, NULL, 10)`: optional white space and sign, then digits; saturates at the `long` range. */
  function Strtol(s: string): (r: int)
    ensures LongMin <= r <= LongMax
  {
    var t := SkipSpaces(s);
    var neg := |t| > 0 && t[0] == '-';
    var body := if |t| > 0 && (t[0] == '-' || t[0] == '+') then t[1..] else t;
    var mag: int := DecValue(body[..DigitRun(body)]);
    var v: int := if neg then -mag else mag;
    if v > LongMax then LongMax else if v < LongMin then LongMin else v
  }

  /** `atoi`: the `long` result converted to a 32-bit `int`, keeping its low 32 bits. */
  function Atoi(s: string): (r: int)
    ensures -TwoTo31 <= r < TwoTo31
  {
    Int32Of(U32(Strtol(s)))
  }

  /** The decimal digits of `n`, without leading zeros. */
  function Decimal(n: nat): (s: string)
    ensures |s| > 0 && forall k :: 0 <= k < |s| ==> IsDigit(s[k])
  {
    if n < 10 then [('0' as int + n) as char] else Decimal(n / 10) + [('0' as int + n % 10) as char]
  }

  lemma {:induction false} DecValueDecimal(n: nat)
    ensures DecValue(Decimal(n)) == n
  {
    if n >= 10 {
      var s := Decimal(n);
      assert s[..|s| - 1] == Decimal(n / 10);
      DecValueDecimal(n / 10);
    }
  }

  /**
   * `atoi` reads back a number written in decimal, reduced to 32 bits as the conversion to `int`
   * does; numbers below 2^31 come back unchanged.
   */
  lemma AtoiDecimal(n: nat)
    requires n <= LongMax
    ensures Atoi(Decimal(n)) == Int32Of(n % TwoTo32)
    ensures n < TwoTo31 ==> Atoi(Decimal(n)) == n
  {
    StrtolDecimal(n);
  }

  /** `strtol` reads back a number written in decimal that fits a `long`. */
  lemma StrtolDecimal(n: nat)
    requires n <= LongMax
    ensures Strtol(Decimal(n)) == n
  {
    StrtolDigits(Decimal(n));
    DecValueDecimal(n);
  }

  /** A string of digits alone reads as its value, saturated at the `long` maximum. */
  lemma StrtolDigits(s: string)
    requires |s| > 0 && forall k :: 0 <= k < |s| ==> IsDigit(s[k])
    ensures Strtol(s) == if DecValue(s) > LongMax then LongMax else DecValue(s)
  {
    SkipSpacesAtDigit(s);
    DigitRunAll(s);
    assert s[..|s|] == s;
  }

  lemma SkipSpacesAtDigit(s: string)
    requires |s| > 0 && IsDigit(s[0])
    ensures SkipSpaces(s) == s
  {
  }

  lemma DigitRunAll(s: string)
    requires forall k :: 0 <= k < |s| ==> IsDigit(s[k])
    ensures DigitRun(s) == |s|
  {
  }

  /** Text with no digits after the white space and sign (empty, or not a number) reads as 0. */
  lemma AtoiNoDigits(s: string)
    requires var t := SkipSpaces(s);
      var body := if |t| > 0 && (t[0] == '-' || t[0] == '+') then t[1..] else t;
      |body| == 0 || !IsDigit(body[0])
    ensures Atoi(s) == 0
  {
  }

  /** Empty text, text that is not a number, and a number with 32 zero low bits all read as 0. */
  lemma AtoiReadsZero(n: nat)
    requires n <= LongMax && n % TwoTo32 == 0
    ensures Atoi("") == 0 && Atoi("none") == 0 && Atoi(Decimal(n)) == 0
  {
    AtoiNoDigits("");
    assert !IsSpace('n') && !IsDigit('n');
    AtoiNoDigits("none");
    AtoiDecimal(n);
  }

  /** `is_prefixed_with(s, p)`: `s` starts with `p`. */
  predicate IsPrefix(p: string, s: string)
  {
    |p| <= |s| && s[..|p|] == p
  }
}
