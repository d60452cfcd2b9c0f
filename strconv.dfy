/** Go's `strconv.ParseInt(s, 10, 32)`, and decimal formatting as its inverse. */
module Strconv {
  import opened Outcomes

  const MinInt32: int := -0x8000_0000
  const MaxInt32: int := 0x7fff_ffff

  predicate IsDigit(c: char) {
    '0' <= c <= '9'
  }

  predicate AllDigits(s: string) {
    forall i :: 0 <= i < |s| ==> IsDigit(s[i])
  }

  /** The digits of `s` read in base 10, most significant first. */
  function DecimalValue(s: string): nat
    requires AllDigits(s)
  {
    if s == [] then 0
    else DecimalValue(s[..|s| - 1]) * 10 + (s[|s| - 1] as int - '0' as int)
  }

  /** The text after an optional leading `+` or `-`. */
  function Unsigned(s: string): string {
    if s != [] && (s[0] == '+' || s[0] == '-') then s[1..] else s
  }

  /** `strconv.ParseInt(s, 10, 32)`: an optional sign and at least one decimal
      digit (no base prefix, no underscores), whose value lies within the
      32-bit signed range; `None` stands for the syntax and range errors. */
  function ParseInt32(s: string): (r: Option<int>)
    ensures r.Some? ==> MinInt32 <= r.value <= MaxInt32
    ensures r.Some? ==> s != [] && Unsigned(s) != []
    ensures r.Some? ==> forall i :: 0 <= i < |s| ==> IsDigit(s[i]) || (i == 0 && (s[0] == '+' || s[0] == '-'))
  {
    var digits := Unsigned(s);
    if s == [] || digits == [] || !AllDigits(digits) then None
    else
      var magnitude: int := DecimalValue(digits);
      var v: int := if s[0] == '-' then -magnitude else magnitude;
      if MinInt32 <= v <= MaxInt32 then Some(v) else None
  }

  function DigitChar(d: nat): (c: char)
    requires d < 10
    ensures IsDigit(c) && c as int - '0' as int == d
  {
    ('0' as int + d) as char
  }

  /** Decimal digits of `n`, without leading zeros. */
  function FormatNat(n: nat): (s: string)
    ensures s != [] && AllDigits(s)
  {
    if n < 10 then [DigitChar(n)]
    else FormatNat(n / 10) + [DigitChar(n % 10)]
  }

  /** `strconv.Itoa(n)`: a `-` for negative numbers, then the digits. */
  function FormatInt(n: int): (s: string)
    ensures s != [] && forall i :: 0 <= i < |s| ==> IsDigit(s[i]) || (i == 0 && s[0] == '-')
  {
    if n < 0 then ['-'] + FormatNat(-n) else FormatNat(n)
  }

  lemma {:induction false} DecimalValueOfFormat(n: nat)
    ensures DecimalValue(FormatNat(n)) == n
  {
    if n >= 10 {
      var s := FormatNat(n);
      assert s[..|s| - 1] == FormatNat(n / 10);
      DecimalValueOfFormat(n / 10);
    }
  }

  /** Parsing undoes formatting for every 32-bit signed value. */
  lemma ParseFormat(n: int)
    requires MinInt32 <= n <= MaxInt32
    ensures ParseInt32(FormatInt(n)) == Some(n)
  {
    var s := FormatInt(n);
    if n < 0 {
      assert Unsigned(s) == FormatNat(-n);
      DecimalValueOfFormat(-n);
    } else {
      DecimalValueOfFormat(n);
    }
  }

  /** A leading `+` is accepted and changes nothing. */
  lemma ParsePlus(s: string)
    requires s != [] && AllDigits(s)
    ensures ParseInt32(['+'] + s) == ParseInt32(s)
  {
    assert Unsigned(['+'] + s) == s;
  }

  /** Every value outside the 32-bit signed range is refused, even in its
      own canonical decimal text. */
  lemma ParseOutOfRange(n: int)
    requires n < MinInt32 || n > MaxInt32
    ensures ParseInt32(FormatInt(n)) == None
  {
    var s := FormatInt(n);
    if n < 0 {
      assert Unsigned(s) == FormatNat(-n);
      DecimalValueOfFormat(-n);
    } else {
      assert Unsigned(s) == s;
      DecimalValueOfFormat(n);
    }
  }

  lemma {:induction false} DecimalLeadingZero(s: string)
    requires AllDigits(s)
    ensures DecimalValue(['0'] + s) == DecimalValue(s)
  {
    var t := ['0'] + s;
    if s == [] {
      assert t[..0] == [];
    } else {
      assert t[..|t| - 1] == ['0'] + s[..|s| - 1];
      DecimalLeadingZero(s[..|s| - 1]);
    }
  }

  /** Leading zeros are accepted and do not change the value. */
  lemma ParseLeadingZero(s: string)
    requires s != [] && AllDigits(s)
    ensures ParseInt32(['0'] + s) == ParseInt32(s)
  {
    var t := ['0'] + s;
    assert Unsigned(t) == t && Unsigned(s) == s;
    DecimalLeadingZero(s);
  }

  /** ... also after a sign. */
  lemma ParseSignedLeadingZero(sign: char, s: string)
    requires sign == '-' || sign == '+'
    requires s != [] && AllDigits(s)
    ensures ParseInt32([sign, '0'] + s) == ParseInt32([sign] + s)
  {
    var t := [sign, '0'] + s;
    assert Unsigned(t) == ['0'] + s;
    assert Unsigned([sign] + s) == s;
    DecimalLeadingZero(s);
  }

  /** `-0` is accepted as zero. */
  lemma ParseMinusZero()
    ensures ParseInt32(['-', '0']) == Some(0)
  {
    var t := ['-', '0'];
    assert Unsigned(t) == ['0'];
    assert ['0'][..0] == [];
  }
}
