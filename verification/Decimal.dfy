/** Decimal text, as strconv and fmt read and write it on a platform with 64-bit ints. */
module Decimal {
  import opened Common

  const INT64_MAX: int := 0x7FFF_FFFF_FFFF_FFFF

  type Int64 = i: int | -INT64_MAX - 1 <= i <= INT64_MAX

  predicate IsDigit(c: char) {
    '0' <= c <= '9'
  }

  predicate AllDigits(s: string) {
    forall i :: 0 <= i < |s| ==> IsDigit(s[i])
  }

  function DigitChar(d: nat): (c: char)
    requires d < 10
    ensures IsDigit(c)
  {
    '0' + d as char
  }

  /** %d of a non-negative number. */
  function Digits(n: nat): (s: string)
    ensures s != [] && AllDigits(s)
  {
    if n < 10 then [DigitChar(n)] else Digits(n / 10) + [DigitChar(n % 10)]
  }

  function DigitsValue(s: string): nat
    requires AllDigits(s)
  {
    if s == [] then 0 else 10 * DigitsValue(s[..|s| - 1]) + (s[|s| - 1] - '0') as nat
  }

  lemma {:induction false} DigitsRoundTrip(n: nat)
    ensures DigitsValue(Digits(n)) == n
  {
    if n >= 10 {
      DigitsRoundTrip(n / 10);
      assert Digits(n)[..|Digits(n)| - 1] == Digits(n / 10);
    }
  }

  /** %d. */
  function FormatInt(i: int): string {
    if i < 0 then "-" + Digits(-i) else Digits(i)
  }

  /** strconv.Atoi: an optional sign, digits, and a value that fits an int. */
  function Atoi(s: string): Option<Int64> {
    var negative := s != [] && s[0] == '-';
    var digits := if s != [] && (s[0] == '-' || s[0] == '+') then s[1..] else s;
    if digits == [] || !AllDigits(digits) then None
    else
      var magnitude: int := DigitsValue(digits);
      var value := if negative then -magnitude else magnitude;
      if -INT64_MAX - 1 <= value <= INT64_MAX then Some(value) else None
  }

  lemma AtoiOfFormatInt(i: Int64)
    ensures Atoi(FormatInt(i)) == Some(i)
  {
    var n: int := i;
    if n < 0 {
      DigitsRoundTrip(-n);
      assert FormatInt(n)[1..] == Digits(-n);
    } else {
      AtoiOfDigits(Digits(n));
      DigitsRoundTrip(n);
    }
  }

  /** On plain digits, Atoi fails only for numbers above the int range. */
  lemma AtoiOfDigits(s: string)
    requires s != [] && AllDigits(s)
    ensures Atoi(s) == if DigitsValue(s) <= INT64_MAX then Some(DigitsValue(s)) else None
  {
    assert IsDigit(s[0]);
  }

  /** Decimal notation, digit by digit. */
  lemma DigitsAreDecimal(n: nat, d: nat)
    requires d < 10
    ensures Digits(d) == ["0123456789"[d]]
    ensures n > 0 ==> Digits(10 * n + d) == Digits(n) + ["0123456789"[d]]
  {
    assert "0123456789"[d] == DigitChar(d);
  }

  /** No leading zeros, but for zero itself. */
  lemma {:induction false} DigitsHaveNoLeadingZero(n: nat)
    ensures AllDigits(Digits(n)) && (Digits(n)[0] == '0' <==> n == 0)
  {
    if n >= 10 {
      DigitsHaveNoLeadingZero(n / 10);
      assert Digits(n)[0] == Digits(n / 10)[0];
    }
  }

  /** Every digit text without leading zeros is the text of its value. */
  lemma {:induction false} DigitsOfValue(s: string)
    requires s != [] && AllDigits(s) && (s[0] != '0' || |s| == 1)
    ensures Digits(DigitsValue(s)) == s
  {
    var init, last := s[..|s| - 1], s[|s| - 1];
    assert IsDigit(last);
    if init != [] {
      DigitsOfValue(init);
      DigitsHaveNoLeadingZero(DigitsValue(init));
      assert DigitsValue(init) > 0;
      DigitsAreDecimal(DigitsValue(init), (last - '0') as nat);
      assert s == init + [last];
    } else {
      DigitsAreDecimal(0, (last - '0') as nat);
      assert DigitsValue(init) == 0 && s == [last];
    }
  }

  lemma {:induction false} LeadingZeros(s: string)
    requires AllDigits(s)
    ensures AllDigits("0" + s) && DigitsValue("0" + s) == DigitsValue(s)
  {
    var t := "0" + s;
    assert forall i :: 0 <= i < |t| ==> t[i] == if i == 0 then '0' else s[i - 1];
    if s != [] {
      LeadingZeros(s[..|s| - 1]);
      assert t[..|t| - 1] == "0" + s[..|s| - 1];
    }
  }

  /** Sign is a text in front of digits; the number it makes of their value. */
  predicate Signed(sign: string, magnitude: nat, i: int) {
    (sign == "" && i == magnitude) || (sign == "+" && i == magnitude) || (sign == "-" && i + magnitude == 0)
  }

  ghost predicate SpellsInt(s: string, i: int) {
    exists sign, digits ::
      s == sign + digits && digits != [] && AllDigits(digits) && Signed(sign, DigitsValue(digits), i)
  }

  lemma AtoiReads(s: string)
    requires Atoi(s).Some?
    ensures SpellsInt(s, Atoi(s).value)
  {
    var sign := if s[0] == '-' || s[0] == '+' then s[..1] else "";
    var digits := s[|sign|..];
    assert s == sign + digits;
    assert Signed(sign, DigitsValue(digits), Atoi(s).value);
  }

  lemma AtoiOfSpelling(sign: string, digits: string, i: Int64)
    requires digits != [] && AllDigits(digits) && Signed(sign, DigitsValue(digits), i)
    ensures Atoi(sign + digits) == Some(i)
  {
    var s := sign + digits;
    assert IsDigit(digits[0]);
    if sign == "" {
      assert s == digits;
    } else {
      assert s[0] == sign[0] && s[1..] == digits;
    }
  }

  /** Which texts are read, and as which numbers: an optional sign and digits, within the range of an int. */
  lemma AtoiExactly(s: string, i: Int64)
    ensures Atoi(s) == Some(i) <==> SpellsInt(s, i)
  {
    if Atoi(s).Some? {
      AtoiReads(s);
    }
    if SpellsInt(s, i) {
      var sign, digits :| s == sign + digits && digits != [] && AllDigits(digits) && Signed(sign, DigitsValue(digits), i);
      AtoiOfSpelling(sign, digits, i);
    }
  }
}
