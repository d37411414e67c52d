/**
 * The decimal text of Java `int` values: `String.valueOf(int)` writes it and
 * `Integer.parseInt` reads it back. Only ASCII digits are considered.
 */
module Decimal {
  import opened Wrappers

  const IntMin: int := -0x8000_0000
  const IntMax: int := 0x7fff_ffff

  /** The values a Java `int` can hold. */
  predicate IsInt(n: int) {
    IntMin <= n <= IntMax
  }

  /** `n + 1` on an `int`: the largest value wraps around to the smallest. */
  function Increment(n: int): (r: int)
    ensures IsInt(n) ==> IsInt(r)
  {
    if n == IntMax then IntMin else n + 1
  }

  predicate IsDigit(c: char) {
    '0' <= c <= '9'
  }

  predicate AllDigits(s: string) {
    forall i :: 0 <= i < |s| ==> IsDigit(s[i])
  }

  function DigitValue(c: char): (d: nat)
    requires IsDigit(c)
    ensures d < 10
  {
    c as int - '0' as int
  }

  function DigitChar(d: nat): (c: char)
    requires d < 10
    ensures IsDigit(c) && DigitValue(c) == d
  {
    (d + '0' as int) as char
  }

  /** The digits of `n`, most significant first, without leading zeros. */
  function Digits(n: nat): (s: string)
    ensures |s| > 0 && AllDigits(s)
    ensures |s| > 1 ==> s[0] != '0'
  {
    if n < 10 then [DigitChar(n)] else Digits(n / 10) + [DigitChar(n % 10)]
  }

  /** String.valueOf(int): a minus sign for a negative value, then its digits. */
  function IntToString(n: int): (s: string)
    ensures |s| > 0 && AllDigits(s[1..])
    ensures s[0] == '-' <==> n < 0
    ensures s[0] != '-' ==> IsDigit(s[0])
    ensures ',' !in s
  {
    var s := if n < 0 then "-" + Digits(-n) else Digits(n);
    assert forall i :: 0 <= i < |s| ==> s[i] == '-' || IsDigit(s[i]);
    s
  }

  /** The value of a run of digits, leading zeros allowed; None when a character is not a digit. */
  function ValueOf(s: string): Option<nat> {
    if s == [] then Some(0)
    else
      var last := s[|s| - 1];
      match ValueOf(s[..|s| - 1])
      case None => None
      case Some(high) => if IsDigit(last) then Some(high * 10 + DigitValue(last)) else None
  }

  /**
   * Integer.parseInt: an optional '-' or '+', then one or more digits, and a
   * value an `int` can hold; anything else is a NumberFormatException (None).
   */
  function ParseInt(s: string): (r: Option<int>)
    ensures r.Some? ==> IsInt(r.value)
  {
    if |s| == 0 then None
    else
      var body := if s[0] == '-' || s[0] == '+' then s[1..] else s;
      if |body| == 0 then None
      else match ValueOf(body)
        case None => None
        case Some(magnitude) =>
          var v: int := if s[0] == '-' then -(magnitude as int) else magnitude;
          if IsInt(v) then Some(v) else None
  }

  /** A text has a value exactly when every character of it is a digit. */
  lemma {:induction false} ValueOfDigitsOnly(s: string)
    ensures ValueOf(s).Some? <==> AllDigits(s)
  {
    if s != [] {
      var init := s[..|s| - 1];
      ValueOfDigitsOnly(init);
      assert forall i :: 0 <= i < |init| ==> init[i] == s[i];
    }
  }

  lemma {:induction false} ValueOfDigits(n: nat)
    ensures ValueOf(Digits(n)) == Some(n)
  {
    if n >= 10 {
      var high := Digits(n / 10);
      var s := high + [DigitChar(n % 10)];
      assert s[..|s| - 1] == high;
      ValueOfDigits(n / 10);
    }
  }

  /**
   * parseInt reads back what valueOf writes exactly when the value fits an
   * `int`; a wider value (a `long`) is refused.
   */
  lemma ParseIntToString(n: int)
    ensures ParseInt(IntToString(n)).Some? <==> IsInt(n)
    ensures IsInt(n) ==> ParseInt(IntToString(n)) == Some(n)
  {
    if n < 0 {
      ParseNegative(n);
    } else {
      ParseNonNegative(n);
    }
  }

  lemma ParseNegative(n: int)
    requires n < 0
    ensures ParseInt(IntToString(n)) == if IsInt(n) then Some(n) else None
  {
    var s := IntToString(n);
    assert s[0] == '-' && s[1..] == Digits(-n);
    ValueOfDigits(-n);
  }

  lemma ParseNonNegative(n: nat)
    ensures ParseInt(IntToString(n)) == if IsInt(n) then Some(n) else None
  {
    var s := IntToString(n);
    assert s == Digits(n) && s[0] != '-' && s[0] != '+';
    ValueOfDigits(n);
  }

  /** A leading zero does not change the value of a run of digits. */
  lemma {:induction false} ValueOfLeadingZero(s: string)
    ensures ValueOf("0" + s) == ValueOf(s)
  {
    if s != [] {
      var init := s[..|s| - 1];
      ValueOfLeadingZero(init);
      assert ("0" + s)[..|"0" + s| - 1] == "0" + init;
    }
  }

  /**
   * parseInt accepts a plus sign and leading zeros: before a text that starts
   * with a digit, neither changes the value read ("+007" is 7).
   */
  lemma ParseIntLenient(s: string)
    requires |s| > 0 && IsDigit(s[0])
    ensures ParseInt("+" + s) == ParseInt(s)
    ensures ParseInt("0" + s) == ParseInt(s)
    ensures ParseInt("+007") == Some(7)
  {
    assert ("+" + s)[1..] == s;
    ValueOfLeadingZero(s);
    var body := "007";
    assert "+007"[1..] == body;
    assert body[..2] == "00" && "00"[..1] == "0" && "0"[..0] == [];
  }
}
