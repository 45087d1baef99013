/**
 * The two integer conversions of the project file: `std::stoi`, which
 * reads the integer settings, and printf's `%d`, which writes them.
 * `std::stoi` skips leading white space, reads an optional sign and the
 * longest run of decimal digits after it, and ignores whatever follows; it
 * throws when there is no digit or the value does not fit in an int.
 */
module Numbers {
  import opened Text

  const IntMin: int := -0x8000_0000
  const IntMax: int := 0x7fff_ffff

  /** The values of a 32-bit C int. */
  predicate InInt32(x: int)
  {
    IntMin <= x <= IntMax
  }

  /** The characters `isspace` accepts in the C locale. */
  predicate IsSpace(c: char)
  {
    c == ' ' || c == '\t' || c == '\n' || c == '\r' || c == '\U{000B}' || c == '\U{000C}'
  }

  predicate IsDigit(c: char)
  {
    '0' <= c <= '9'
  }

  predicate AllDigits(s: string)
  {
    forall j :: 0 <= j < |s| ==> IsDigit(s[j])
  }

  /** The number of leading white-space characters of s. */
  function SpaceRun(s: string): (r: nat)
    ensures r <= |s|
    ensures forall j :: 0 <= j < r ==> IsSpace(s[j])
    ensures r < |s| ==> !IsSpace(s[r])
  {
    if |s| == 0 || !IsSpace(s[0]) then 0 else 1 + SpaceRun(s[1..])
  }

  /** The number of leading decimal digits of s. */
  function DigitRun(s: string): (r: nat)
    ensures r <= |s|
    ensures AllDigits(s[..r])
    ensures r < |s| ==> !IsDigit(s[r])
  {
    if |s| == 0 || !IsDigit(s[0]) then 0
    else
      var r := 1 + DigitRun(s[1..]);
      assert forall j :: 1 <= j < r ==> s[..r][j] == s[1..][..r - 1][j - 1];
      r
  }

  /** The value of a string of decimal digits, most significant first. */
  function DigitsValue(d: string): (r: nat)
    requires AllDigits(d)
    ensures |d| > 0 && d[0] != '0' ==> r > 0
  {
    if |d| == 0 then 0
    else
      assert AllDigits(d[..|d| - 1]);
      DigitsValue(d[..|d| - 1]) * 10 + (d[|d| - 1] as int - '0' as int)
  }

  /**
   * std::stoi: the leading integer of s, or None when std::stoi throws
   * (no digit after the optional sign, or a value outside the range of int).
   */
  function Stoi(s: string): (r: Option<int>)
    ensures r.Some? ==> InInt32(r.value)
  {
    var t := s[SpaceRun(s)..];
    if |t| > 0 && t[0] == '-' then Magnitude(t[1..], true)
    else if |t| > 0 && t[0] == '+' then Magnitude(t[1..], false)
    else Magnitude(t, false)
  }

  /** The part of Stoi after the sign: the leading digits of u, negated when `negative`. */
  function Magnitude(u: string, negative: bool): (r: Option<int>)
    ensures r.Some? ==> InInt32(r.value)
  {
    var n := DigitRun(u);
    if n == 0 then None
    else
      var m: int := DigitsValue(u[..n]);
      var v := if negative then -m else m;
      if InInt32(v) then Some(v) else None
  }

  /** The decimal digit for 0 <= d < 10. */
  function Digit(d: int): (c: char)
    requires 0 <= d < 10
    ensures IsDigit(c) && c as int - '0' as int == d
  {
    ('0' as int + d) as char
  }

  /** The decimal digits of n without leading zeros, as `%d` prints them. */
  function NatDigits(n: nat): (r: string)
    ensures |r| > 0 && AllDigits(r)
    ensures r[0] != '-' && !IsSpace(r[0])
    decreases n
  {
    if n < 10 then [Digit(n)]
    else
      var r := NatDigits(n / 10) + [Digit(n % 10)];
      assert r[0] == NatDigits(n / 10)[0];
      r
  }

  /** printf's `%d`. */
  function Decimal(x: int): (r: string)
    ensures |r| > 0 && !IsSpace(r[0])
  {
    if x < 0 then "-" + NatDigits(-x) else NatDigits(x)
  }

  /** Reading back the digits of n gives n. */
  lemma {:induction false} NatDigitsValue(n: nat)
    ensures DigitsValue(NatDigits(n)) == n
    decreases n
  {
    if n >= 10 {
      var d := NatDigits(n);
      NatDigitsValue(n / 10);
      assert d[..|d| - 1] == NatDigits(n / 10);
    }
  }

  /** A run of digits followed by anything but a digit is read whole. */
  lemma {:induction false} DigitRunOfDigits(d: string, tail: string)
    requires AllDigits(d)
    requires |tail| == 0 || !IsDigit(tail[0])
    ensures DigitRun(d + tail) == |d|
    ensures (d + tail)[..|d|] == d
    decreases |d|
  {
    if |d| > 0 {
      assert (d + tail)[1..] == d[1..] + tail;
      DigitRunOfDigits(d[1..], tail);
    }
  }

  /** The digits before a tail that does not start with a digit make up the magnitude. */
  lemma MagnitudeOfDigits(d: string, tail: string, negative: bool, v: int)
    requires AllDigits(d) && |d| > 0
    requires |tail| == 0 || !IsDigit(tail[0])
    requires v == (if negative then -(DigitsValue(d) as int) else DigitsValue(d)) && InInt32(v)
    ensures Magnitude(d + tail, negative) == Some(v)
  {
    DigitRunOfDigits(d, tail);
    MagnitudeIs(d + tail, negative, d, v);
  }

  /** Magnitude of u, whose leading run of digits is d. */
  lemma MagnitudeIs(u: string, negative: bool, d: string, v: int)
    requires |d| > 0 && DigitRun(u) == |d| && u[..|d|] == d
    requires v == (if negative then -(DigitsValue(d) as int) else DigitsValue(d)) && InInt32(v)
    ensures Magnitude(u, negative) == Some(v)
  {
  }

  /** std::stoi of text starting with a digit reads it unsigned. */
  lemma StoiOfDigitFirst(s: string)
    requires |s| > 0 && IsDigit(s[0])
    ensures Stoi(s) == Magnitude(s, false)
  {
    assert SpaceRun(s) == 0;
    assert s[0..] == s;
  }

  /** std::stoi of text starting with '-' reads the rest negated. */
  lemma StoiOfMinusFirst(s: string)
    requires |s| > 0 && s[0] == '-'
    ensures Stoi(s) == Magnitude(s[1..], true)
  {
    assert SpaceRun(s) == 0;
    assert s[0..] == s;
  }

  /** std::stoi of a run of digits and a tail that does not start with a digit. */
  lemma StoiOfDigits(d: string, tail: string)
    requires AllDigits(d) && |d| > 0
    requires |tail| == 0 || !IsDigit(tail[0])
    requires InInt32(DigitsValue(d))
    ensures Stoi(d + tail) == Some(DigitsValue(d))
  {
    StoiOfDigitFirst(d + tail);
    MagnitudeOfDigits(d, tail, false, DigitsValue(d));
  }

  /**
   * std::stoi reads back every int that `%d` writes, whatever follows the
   * number unless it is another digit: a value ending in "\r" still reads.
   */
  lemma StoiDecimal(x: int, tail: string)
    requires InInt32(x)
    requires |tail| == 0 || !IsDigit(tail[0])
    ensures Stoi(Decimal(x) + tail) == Some(x)
  {
    if x < 0 {
      StoiNegativeDecimal(x, tail);
    } else {
      NatDigitsValue(x);
      StoiOfDigits(NatDigits(x), tail);
    }
  }

  /** `%d` of a negative value is a minus sign and the digits of its magnitude. */
  lemma NegativeDecimal(x: int, tail: string)
    requires x < 0
    ensures |Decimal(x) + tail| > 0 && (Decimal(x) + tail)[0] == '-'
    ensures (Decimal(x) + tail)[1..] == NatDigits(-x) + tail
  {
  }

  /** The negative half of StoiDecimal. */
  lemma StoiNegativeDecimal(x: int, tail: string)
    requires InInt32(x) && x < 0
    requires |tail| == 0 || !IsDigit(tail[0])
    ensures Stoi(Decimal(x) + tail) == Some(x)
  {
    NegativeDecimal(x, tail);
    StoiOfMinusFirst(Decimal(x) + tail);
    NatDigitsValue(-x);
    MagnitudeOfDigits(NatDigits(-x), tail, true, x);
  }

  /** `%d` writes a minus sign and digits only, so never a line break. */
  lemma DecimalHasNoNewline(x: int)
    ensures '\n' !in Decimal(x)
  {
    var d := NatDigits(if x < 0 then -x else x);
    assert forall j :: 0 <= j < |d| ==> d[j] != '\n';
    if x < 0 {
      assert forall j :: 1 <= j < |Decimal(x)| ==> Decimal(x)[j] == d[j - 1];
    }
  }

  /** A value without any digit makes std::stoi throw. */
  lemma StoiNeedsDigit(s: string)
    requires forall j :: 0 <= j < |s| ==> !IsDigit(s[j])
    ensures Stoi(s) == None
  {
  }
}
