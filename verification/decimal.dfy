/**
  Decimal text of 64-bit signed integers, as the version store uses it:
  `strconv.ParseInt(s, 10, 64)` reads a file-name stem and `fmt.Sprintf("%d", n)`
  writes one.
 */
module Decimal {
  import opened Wrappers

  const MinInt64: int := -0x8000_0000_0000_0000
  const MaxInt64: int := 0x7FFF_FFFF_FFFF_FFFF

  predicate IsInt64(v: int) {
    MinInt64 <= v <= MaxInt64
  }

  predicate IsDigit(c: char) {
    '0' <= c <= '9'
  }

  predicate AllDigits(s: string) {
    forall i :: 0 <= i < |s| ==> IsDigit(s[i])
  }

  function DigitValue(c: char): nat
    requires IsDigit(c)
  {
    c as int - '0' as int
  }

  function DigitChar(d: nat): (c: char)
    requires d < 10
    ensures IsDigit(c) && DigitValue(c) == d
  {
    ('0' as int + d) as char
  }

  /** The number a string of decimal digits denotes, most significant digit first. */
  function Value(s: string): nat
    requires AllDigits(s)
  {
    if |s| == 0 then 0 else Value(s[..|s| - 1]) * 10 + DigitValue(s[|s| - 1])
  }

  /** A digit string without superfluous leading zeros. */
  predicate CanonicalDigits(d: string) {
    |d| > 0 && AllDigits(d) && (d[0] != '0' || |d| == 1)
  }

  /**
    The text `%d` writes for an integer: an optional minus sign and the digits
    of its magnitude, without leading zeros.
   */
  predicate Canonical(s: string) {
    CanonicalDigits(s) || (|s| >= 2 && s[0] == '-' && s[1] != '0' && CanonicalDigits(s[1..]))
  }

  /** `%d` of a non-negative integer: its digits, and reading them back gives the number. */
  function FormatNat(n: nat): (s: string)
    ensures CanonicalDigits(s)
    ensures Value(s) == n
  {
    if n < 10 then [DigitChar(n)]
    else
      var p := FormatNat(n / 10);
      var s := p + [DigitChar(n % 10)];
      assert s[..|s| - 1] == p;
      s
  }

  /** `%d` of an integer. */
  function FormatInt(v: int): (s: string)
    ensures Canonical(s)
    ensures |s| > 0 && (s[0] == '-' <==> v < 0)
  {
    if v < 0 then "-" + FormatNat(-v) else FormatNat(v)
  }

  /**
    `strconv.ParseInt(s, 10, 64)`: an optional '+' or '-', then one or more
    decimal digits whose value must fit in 64 bits. Leading zeros are
    accepted. Every rejection (syntax or range) is `None`.
   */
  function ParseInt64(s: string): (r: Option<int>)
    ensures r.Some? ==> IsInt64(r.value)
  {
    if |s| == 0 then None
    else
      var neg := s[0] == '-';
      var digits := if s[0] == '+' || s[0] == '-' then s[1..] else s;
      if |digits| == 0 || !AllDigits(digits) then None
      else
        var u: int := Value(digits);
        if !neg && u > MaxInt64 then None
        else if neg && u > -MinInt64 then None
        else Some(if neg then -u else u)
  }

  /** `k` zero digits. */
  function Zeros(k: nat): (z: string)
    ensures |z| == k && AllDigits(z)
    ensures forall i :: 0 <= i < k ==> z[i] == '0'
  {
    seq(k, _ => '0')
  }

  /** Leading zeros do not change the value of a digit string. */
  lemma {:induction false} ZerosPrefixValue(k: nat, d: string)
    requires AllDigits(d)
    ensures AllDigits(Zeros(k) + d)
    ensures Value(Zeros(k) + d) == Value(d)
    decreases |d|
  {
    var s := Zeros(k) + d;
    if |d| == 0 {
      assert s == Zeros(k);
      ZerosValue(k);
    } else {
      assert s[..|s| - 1] == Zeros(k) + d[..|d| - 1];
      ZerosPrefixValue(k, d[..|d| - 1]);
    }
  }

  lemma {:induction false} ZerosValue(k: nat)
    ensures Value(Zeros(k)) == 0
  {
    if k > 0 {
      assert Zeros(k)[..k - 1] == Zeros(k - 1);
      ZerosValue(k - 1);
    }
  }

  /** A digit string that starts with a non-zero digit denotes a positive number. */
  lemma {:induction false} LeadingDigitPositive(d: string)
    requires |d| > 0 && AllDigits(d) && d[0] != '0'
    ensures Value(d) > 0
    decreases |d|
  {
    if |d| > 1 {
      LeadingDigitPositive(d[..|d| - 1]);
    }
  }

  /** Formatting the value of a canonical digit string gives the string back. */
  lemma {:induction false} FormatValueCanonical(d: string)
    requires CanonicalDigits(d)
    ensures FormatNat(Value(d)) == d
    decreases |d|
  {
    if |d| > 1 {
      var p := d[..|d| - 1];
      var c := d[|d| - 1];
      assert CanonicalDigits(p);
      LeadingDigitPositive(p);
      FormatValueCanonical(p);
      var n := Value(d);
      assert n / 10 == Value(p) && n % 10 == DigitValue(c);
      assert DigitChar(n % 10) == c;
      assert d == p + [c];
    }
  }

  /** Every non-empty digit string is some leading zeros followed by the canonical digits of its value. */
  lemma {:induction false} StripLeadingZeros(d: string) returns (k: nat)
    requires |d| > 0 && AllDigits(d)
    ensures d == Zeros(k) + FormatNat(Value(d))
    decreases |d|
  {
    if d[0] != '0' || |d| == 1 {
      FormatValueCanonical(d);
      k := 0;
      assert Zeros(0) + d == d;
    } else {
      var tail := d[1..];
      assert d == Zeros(1) + tail;
      ZerosPrefixValue(1, tail);
      var k' := StripLeadingZeros(tail);
      k := k' + 1;
      var f := FormatNat(Value(d));
      assert tail == Zeros(k') + f;
      assert Zeros(k) == Zeros(1) + Zeros(k');
      assert d == Zeros(1) + (Zeros(k') + f);
    }
  }

  /**
    The spellings `ParseInt64` accepts for `v` with `k` leading zeros: an
    optional '+' (or '-' for zero) before the digits of a non-negative `v`,
    or '-' before those of the magnitude of a negative one.
   */
  predicate Spells(s: string, v: int, k: nat) {
    || (v >= 0 && s == Zeros(k) + FormatNat(v))
    || (v >= 0 && s == "+" + Zeros(k) + FormatNat(v))
    || (v <= 0 && s == "-" + Zeros(k) + FormatNat(-v))
  }

  /** The spellings of `v`, with any number of leading zeros. */
  ghost predicate IsSpelling(s: string, v: int) {
    exists k: nat :: Spells(s, v, k)
  }

  /**
    The strings `ParseInt64` accepts are exactly the spellings of 64-bit
    integers, and each yields the integer it spells.
   */
  lemma ParseInt64Accepts(s: string, v: int)
    ensures ParseInt64(s) == Some(v) <==> IsInt64(v) && IsSpelling(s, v)
  {
    ParseReadsAs(s, v);
    if ReadsAs(s, v) {
      ReadIsSpelling(s, v);
    }
    if IsSpelling(s, v) {
      var k: nat :| Spells(s, v, k);
      SpellingReads(s, v, k);
    }
  }

  /** `ParseInt64Accepts` for every candidate result at once. */
  lemma ParseInt64Spells(s: string)
    ensures forall v :: ParseInt64(s) == Some(v) <==> IsInt64(v) && IsSpelling(s, v)
  {
    forall v
      ensures ParseInt64(s) == Some(v) <==> IsInt64(v) && IsSpelling(s, v)
    {
      ParseInt64Accepts(s, v);
    }
  }

  /** The digits after an optional sign character. */
  function Unsigned(s: string): string
    requires |s| > 0
  {
    if s[0] == '+' || s[0] == '-' then s[1..] else s
  }

  /** What `ParseInt64` checks, stated without it: a sign, digits, and a value that fits. */
  predicate ReadsAs(s: string, v: int) {
    && |s| > 0
    && |Unsigned(s)| > 0 && AllDigits(Unsigned(s))
    && var u: int := Value(Unsigned(s));
       v == (if s[0] == '-' then -u else u)
  }

  lemma ParseReadsAs(s: string, v: int)
    ensures ParseInt64(s) == Some(v) <==> ReadsAs(s, v) && IsInt64(v)
  {
  }

  /** A string is its first character followed by the rest. */
  lemma SignThenRest(s: string, z: string, f: string)
    requires |s| > 0 && s[1..] == z + f
    ensures s == [s[0]] + z + f
  {
    assert s == [s[0]] + s[1..];
  }

  lemma ReadIsSpelling(s: string, v: int)
    requires ReadsAs(s, v)
    ensures IsSpelling(s, v)
  {
    var digits := Unsigned(s);
    var k := StripLeadingZeros(digits);
    var m := Value(digits);
    if s[0] == '+' || s[0] == '-' {
      SignThenRest(s, Zeros(k), FormatNat(m));
      if s[0] == '+' {
        assert "+" == [s[0]];
      } else {
        assert "-" == [s[0]];
      }
    }
    assert Spells(s, v, k);
  }

  /** A run of zeros before canonical digits reads as the digits' value. */
  lemma PaddedDigits(k: nat, m: nat)
    ensures var d := Zeros(k) + FormatNat(m);
      |d| > 0 && AllDigits(d) && Value(d) == m && IsDigit(d[0])
  {
    ZerosPrefixValue(k, FormatNat(m));
  }

  /** The string after a one-character sign. */
  lemma AfterSign(c: string, z: string, f: string)
    requires |c| == 1
    ensures (c + z + f)[0] == c[0] && (c + z + f)[1..] == z + f
  {
  }

  lemma SpellingReads(s: string, v: int, k: nat)
    requires Spells(s, v, k)
    ensures ReadsAs(s, v)
  {
    var m: nat := if v < 0 then -v else v;
    PaddedDigits(k, m);
    if v >= 0 && s == Zeros(k) + FormatNat(v) {
    } else if v >= 0 && s == "+" + Zeros(k) + FormatNat(v) {
      AfterSign("+", Zeros(k), FormatNat(m));
    } else {
      AfterSign("-", Zeros(k), FormatNat(m));
    }
  }

  /** Reading what `%d` writes gives back every 64-bit integer. */
  lemma FormatParseRoundTrip(v: int)
    requires IsInt64(v)
    ensures ParseInt64(FormatInt(v)) == Some(v)
  {
    var s := FormatInt(v);
    if v < 0 {
      assert s[1..] == FormatNat(-v);
    }
  }

  /** Integers outside 64 bits are rejected even in their canonical spelling. */
  lemma FormatParseOutOfRange(v: int)
    requires !IsInt64(v)
    ensures ParseInt64(FormatInt(v)) == None
  {
    if ParseInt64(FormatInt(v)).Some? {
      var w := ParseInt64(FormatInt(v)).value;
      ParseInt64Accepts(FormatInt(v), w);
      CanonicalReformat(FormatInt(v), w);
      FormatIntInjective(v, w);
    }
  }

  /** Distinct integers have distinct `%d` texts. */
  lemma FormatIntInjective(a: int, b: int)
    requires FormatInt(a) == FormatInt(b)
    ensures a == b
  {
    var s := FormatInt(a);
    if a < 0 {
      assert s[1..] == FormatNat(-a) == FormatNat(-b);
    } else {
      assert Value(FormatNat(a)) == Value(FormatNat(b));
    }
  }

  /**
    Writing a parsed integer back reproduces the text exactly when the text
    is canonical: no '+', no leading zero, no "-0".
   */
  lemma CanonicalReformat(s: string, v: int)
    requires ParseInt64(s) == Some(v)
    ensures FormatInt(v) == s <==> Canonical(s)
  {
    if Canonical(s) {
      if CanonicalDigits(s) {
        FormatValueCanonical(s);
      } else {
        var d := s[1..];
        LeadingDigitPositive(d);
        FormatValueCanonical(d);
        assert s == "-" + d;
      }
    }
  }
}
