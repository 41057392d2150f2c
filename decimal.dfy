/** Decimal integers as Go's `strconv.Atoi` reads them and as `%d`
    (or `strconv.Itoa`) writes them, for Go's 64-bit `int`. */
module Decimal {
  import opened Outcomes

  const MIN_INT64: int := -0x8000_0000_0000_0000
  const MAX_INT64: int := 0x7FFF_FFFF_FFFF_FFFF

  predicate IsDigit(c: char)
  {
    '0' <= c <= '9'
  }

  predicate AllDigits(s: string)
  {
    forall i | 0 <= i < |s| :: IsDigit(s[i])
  }

  function DigitValue(c: char): (d: nat)
    requires IsDigit(c)
    ensures d < 10
  {
    c as int - '0' as int
  }

  function DigitChar(d: nat): (c: char)
    requires d < 10
    ensures IsDigit(c) && DigitValue(c) == d
  {
    ('0' as int + d) as char
  }

  /** The value of a string of decimal digits, most significant first. */
  function DigitsValue(ds: string): nat
    requires AllDigits(ds)
  {
    if ds == [] then 0 else DigitsValue(ds[..|ds| - 1]) * 10 + DigitValue(ds[|ds| - 1])
  }

  /** `strconv.Atoi` for a 64-bit `int`: an optional `+` or `-`, then one
      or more decimal digits, whose value must fit in 64 bits. Anything
      else (the empty string, a lone sign, white space, `_`, a second
      sign) is an error. */
  function Atoi(s: string): (r: Result<int>)
    ensures r.Ok? ==> MIN_INT64 <= r.value <= MAX_INT64
    ensures r.Err? ==> r.error == NumError(s)
  {
    var digits := if s != [] && (s[0] == '+' || s[0] == '-') then s[1..] else s;
    if digits == [] || !AllDigits(digits) then Err(NumError(s))
    else
      var value := DigitsValue(digits) as int;
      var n := if s[0] == '-' then -value else value;
      if n < MIN_INT64 || MAX_INT64 < n then Err(NumError(s)) else Ok(n)
  }

  /** The decimal digits of `n` without leading zeros. */
  function FormatNat(n: nat): (r: string)
    ensures r != [] && AllDigits(r)
    ensures DigitsValue(r) == n
    ensures r[0] == '0' ==> n == 0
  {
    if n < 10 then [DigitChar(n)]
    else
      var r := FormatNat(n / 10) + [DigitChar(n % 10)];
      assert r[..|r| - 1] == FormatNat(n / 10);
      r
  }

  /** `%d` and `strconv.Itoa`: a `-` for a negative number, then the digits. */
  function FormatInt(n: int): (r: string)
    ensures r != [] && r[0] != '+'
    ensures r[0] == '-' <==> n < 0
  {
    if n < 0 then "-" + FormatNat(-n) else FormatNat(n)
  }

  /** The strings FormatInt writes: an optional `-`, then digits with no
      leading zero, where a lone `0` is not signed. */
  predicate IsCanonical(s: string)
  {
    var ds := if s != [] && s[0] == '-' then s[1..] else s;
    ds != [] && AllDigits(ds) && (ds[0] == '0' ==> s == "0")
  }

  /** Atoi reads back every 64-bit integer that FormatInt writes, and
      FormatInt writes only canonical strings. */
  lemma AtoiFormatInt(n: int)
    requires MIN_INT64 <= n <= MAX_INT64
    ensures Atoi(FormatInt(n)) == Ok(n)
    ensures IsCanonical(FormatInt(n))
  {
    var s := FormatInt(n);
    if n < 0 {
      assert s[1..] == FormatNat(-n);
    }
  }

  /** The converse: a canonical string that Atoi reads is exactly what
      FormatInt writes for its value. With AtoiFormatInt, FormatInt and
      Atoi are inverse between 64-bit integers and canonical strings. */
  lemma FormatIntAtoi(s: string)
    requires IsCanonical(s) && Atoi(s).Ok?
    ensures FormatInt(Atoi(s).value) == s
  {
    var ds := if s[0] == '-' then s[1..] else s;
    AtoiCanonical(s);
    FormatNatDigits(ds);
    if s[0] == '-' {
      DigitsLeading(ds);
      assert s == "-" + ds;
    }
  }

  /** What Atoi reads from a canonical string: the value of its digits,
      negated under a `-`. */
  lemma AtoiCanonical(s: string)
    requires IsCanonical(s) && Atoi(s).Ok?
    ensures s[0] == '-' ==> Atoi(s).value == -(DigitsValue(s[1..]) as int)
    ensures s[0] != '-' ==> Atoi(s).value == DigitsValue(s) as int
  {
    assert s[0] != '+';
  }

  /** Digits without a leading zero (or a lone zero) are the decimal
      digits of their value. */
  lemma {:induction false} FormatNatDigits(ds: string)
    requires ds != [] && AllDigits(ds) && (ds[0] == '0' ==> |ds| == 1)
    ensures FormatNat(DigitsValue(ds)) == ds
  {
    var init := ds[..|ds| - 1];
    var d := DigitValue(ds[|ds| - 1]);
    assert DigitChar(d) == ds[|ds| - 1];
    if init == [] {
      assert ds == [ds[0]];
    } else {
      assert init[0] == ds[0];
      DigitsLeading(init);
      FormatNatDigits(init);
      var n := DigitsValue(ds);
      assert n / 10 == DigitsValue(init) && n % 10 == d;
      assert ds == init + [ds[|ds| - 1]];
    }
  }

  /** The value of digits is at least the value of the first digit. */
  lemma {:induction false} DigitsLeading(ds: string)
    requires ds != [] && AllDigits(ds)
    ensures DigitsValue(ds) >= DigitValue(ds[0])
  {
    if |ds| > 1 {
      var init := ds[..|ds| - 1];
      assert init[0] == ds[0];
      DigitsLeading(init);
    }
  }

  /** A string with a white-space character in it is not a number: Atoi
      does not trim, its caller must. */
  lemma AtoiRejectsSpace(s: string, k: nat)
    requires k < |s| && s[k] in {' ', '\t', '\n', '\U{0B}', '\U{0C}', '\r'}
    ensures Atoi(s).Err?
  {
    if s[0] == '+' || s[0] == '-' {
      if k > 0 {
        assert s[1..][k - 1] == s[k];
      }
    }
  }
}
