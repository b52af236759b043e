/**
 * Base-10 integers in ASCII: the `%d` verb the server formats replies with,
 * and the 64-bit signed base-10 parse it applies to length lines.
 */
module Decimal {
  import opened Ascii

  const MinInt64: int := -0x8000_0000_0000_0000
  const MaxInt64: int := 0x7fff_ffff_ffff_ffff

  const PLUS: byte := 43   // '+'
  const MINUS: byte := 45  // '-'
  const ZERO: byte := 48   // '0'

  /**
   * Go's `+` on two 64-bit signed integers: the sum wraps around modulo 2^64
   * into the signed range, so a sum past either end changes sign.
   */
  function AddInt64(a: int, b: int): (r: int)
    requires MinInt64 <= a <= MaxInt64 && MinInt64 <= b <= MaxInt64
    ensures MinInt64 <= r <= MaxInt64
    ensures MinInt64 <= a + b <= MaxInt64 ==> r == a + b
    ensures a + b > MaxInt64 ==> r < 0 && r == a + b - 0x1_0000_0000_0000_0000
    ensures a + b < MinInt64 ==> r >= 0 && r == a + b + 0x1_0000_0000_0000_0000
  {
    var s := a + b;
    if s > MaxInt64 then s - 0x1_0000_0000_0000_0000
    else if s < MinInt64 then s + 0x1_0000_0000_0000_0000
    else s
  }

  predicate IsDigit(b: byte)
  {
    ZERO <= b <= ZERO + 9
  }

  predicate AllDigits(s: Bytes)
  {
    forall i | 0 <= i < |s| :: IsDigit(s[i])
  }

  /** The shortest decimal spelling of n, most significant digit first. */
  function Digits(n: nat): (r: Bytes)
    ensures |r| > 0 && AllDigits(r)
    decreases n
  {
    if n < 10 then [ZERO + n as byte] else Digits(n / 10) + [ZERO + (n % 10) as byte]
  }

  /** `fmt.Sprintf("%d", n)`: an optional minus sign followed by the digits of |n|. */
  function Format(n: int): (r: Bytes)
    ensures |r| > 0 && CR !in r && LF !in r
  {
    var r := if n < 0 then [MINUS] + Digits(-n) else Digits(n);
    assert forall i | 0 <= i < |r| :: r[i] == MINUS || IsDigit(r[i]);
    r
  }

  /** The value of a string of decimal digits (0 for the empty string). */
  function DigitsValue(s: Bytes): nat
    requires AllDigits(s)
  {
    if s == [] then 0 else DigitsValue(s[..|s| - 1]) * 10 + (s[|s| - 1] - ZERO) as int
  }

  /**
   * The digits of s read left to right into a value, failing at the first
   * byte that is not a digit (the empty string reads as 0).
   */
  function ReadDigits(s: Bytes): (r: Option<nat>)
  {
    if s == [] then Some(0)
    else
      match ReadDigits(s[..|s| - 1])
      case None => None
      case Some(v) => if IsDigit(s[|s| - 1]) then Some(v * 10 + (s[|s| - 1] - ZERO) as int) else None
  }

  /** Reading digits succeeds exactly on strings of digits, with their decimal value. */
  lemma {:induction false} ReadDigitsValue(s: Bytes)
    ensures ReadDigits(s) == if AllDigits(s) then Some(DigitsValue(s)) else None
  {
    if s != [] {
      var init := s[..|s| - 1];
      ReadDigitsValue(init);
      assert AllDigits(s) <==> AllDigits(init) && IsDigit(s[|s| - 1]) by {
        if AllDigits(init) && IsDigit(s[|s| - 1]) {
          forall i | 0 <= i < |s| ensures IsDigit(s[i]) {
            if i < |s| - 1 { assert s[i] == init[i]; }
          }
        }
      }
    }
  }

  /**
   * `strconv.ParseInt(s, 10, 64)`: an optional '+' or '-' sign, then one or more
   * decimal digits (leading zeros allowed), whose value must fit in 64 signed bits.
   */
  function Parse(s: Bytes): (r: Option<int>)
    ensures r.Some? ==> MinInt64 <= r.value <= MaxInt64
  {
    var signed := |s| > 0 && (s[0] == PLUS || s[0] == MINUS);
    var body := if signed then s[1..] else s;
    if |body| == 0 then None
    else
      match ReadDigits(body)
      case None => None
      case Some(v) =>
        var n: int := if signed && s[0] == MINUS then -(v as int) else v;
        if MinInt64 <= n <= MaxInt64 then Some(n) else None
  }

  lemma {:induction false} DigitsValueOfDigits(n: nat)
    ensures DigitsValue(Digits(n)) == n
    decreases n
  {
    var d := Digits(n);
    if n >= 10 {
      assert d[..|d| - 1] == Digits(n / 10);
      DigitsValueOfDigits(n / 10);
    }
  }

  /** Parsing what `%d` printed gives the number back, for every 64-bit integer. */
  lemma ParseFormat(n: int)
    requires MinInt64 <= n <= MaxInt64
    ensures Parse(Format(n)) == Some(n)
  {
    if n < 0 {
      ParseNegative(Digits(-n));
      DigitsValueOfDigits(-n);
    } else {
      ParseUnsigned(Digits(n));
      DigitsValueOfDigits(n);
    }
  }

  /** A number outside 64 signed bits is rejected even when spelled canonically. */
  lemma ParseFormatOutOfRange(n: int)
    requires n < MinInt64 || MaxInt64 < n
    ensures Parse(Format(n)) == None
  {
    if n < 0 {
      ParseNegative(Digits(-n));
      DigitsValueOfDigits(-n);
    } else {
      ParseUnsigned(Digits(n));
      DigitsValueOfDigits(n);
    }
  }

  /** Digits without a sign parse as their value, when it fits. */
  lemma ParseUnsigned(s: Bytes)
    requires |s| > 0 && AllDigits(s)
    ensures Parse(s) == if DigitsValue(s) <= MaxInt64 then Some(DigitsValue(s)) else None
  {
    assert IsDigit(s[0]);
    ReadDigitsValue(s);
  }

  /** A minus sign followed by digits parses as the negated value, when it fits. */
  lemma ParseNegative(s: Bytes)
    requires |s| > 0 && AllDigits(s)
    ensures Parse([MINUS] + s) == if MinInt64 <= -(DigitsValue(s) as int) then Some(-(DigitsValue(s) as int)) else None
  {
    assert ([MINUS] + s)[1..] == s;
    ReadDigitsValue(s);
  }

  /** A '+' sign in front of digits changes nothing. */
  lemma ParsePlus(s: Bytes)
    requires |s| > 0 && AllDigits(s)
    ensures Parse([PLUS] + s) == Parse(s)
  {
    assert ([PLUS] + s)[1..] == s;
    assert IsDigit(s[0]);
  }

  /** An empty line, and a sign with no digits after it, are not numbers. */
  lemma ParseEmpty()
    ensures Parse([]) == None && Parse([PLUS]) == None && Parse([MINUS]) == None
  {
    assert [PLUS][1..] == [];
    assert [MINUS][1..] == [];
  }

  /**
   * Any byte that is not a digit rejects the line, except a single leading
   * sign that is followed by at least one more byte.
   */
  lemma ParseRejectsNonDigit(s: Bytes, i: nat)
    requires i < |s| && !IsDigit(s[i])
    requires i == 0 ==> |s| == 1 || (s[0] != PLUS && s[0] != MINUS)
    ensures Parse(s) == None
  {
    var signed := |s| > 0 && (s[0] == PLUS || s[0] == MINUS);
    var body := if signed then s[1..] else s;
    ReadDigitsValue(body);
    if signed && i > 0 {
      assert body[i - 1] == s[i];
    }
  }
}
