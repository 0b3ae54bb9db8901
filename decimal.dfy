/** Decimal text for unsigned integers: Rust's `{}` rendering (used by every
    `Display` in this program) and `str::parse::<u64>` (used on the start-time
    field of `/proc/1/stat`). */
module Decimal {
  import opened Base

  predicate IsDigit(c: char) {
    '0' <= c <= '9'
  }

  predicate AllDigits(s: string) {
    forall i :: 0 <= i < |s| ==> IsDigit(s[i])
  }

  function DigitChar(d: nat): (c: char)
    requires d < 10
    ensures IsDigit(c)
  {
    ('0' as int + d) as char
  }

  function DigitValue(c: char): (d: nat)
    requires IsDigit(c)
    ensures d < 10
  {
    c as int - '0' as int
  }

  /** The number a string of decimal digits denotes (most significant first). */
  function DigitsValue(s: string): nat
    requires AllDigits(s)
  {
    if s == [] then 0 else DigitsValue(s[..|s| - 1]) * 10 + DigitValue(s[|s| - 1])
  }

  /** `format!("{}", n)`: the shortest decimal numeral of `n`. */
  function NatToString(n: nat): (s: string)
    ensures |s| >= 1 && AllDigits(s)
    ensures s[0] == '0' ==> s == "0"
  {
    if n < 10 then [DigitChar(n)] else NatToString(n / 10) + [DigitChar(n % 10)]
  }

  /** Reading back the rendered numeral gives the number. */
  lemma {:induction false} NatToStringRoundTrip(n: nat)
    ensures DigitsValue(NatToString(n)) == n
  {
    var s := NatToString(n);
    if n >= 10 {
      NatToStringRoundTrip(n / 10);
      assert s[..|s| - 1] == NatToString(n / 10);
      assert DigitValue(s[|s| - 1]) == n % 10;
    }
  }

  /** Distinct numbers render differently. */
  lemma NatToStringInjective(a: nat, b: nat)
    ensures NatToString(a) == NatToString(b) <==> a == b
  {
    if NatToString(a) == NatToString(b) {
      NatToStringRoundTrip(a);
      NatToStringRoundTrip(b);
    }
  }

  /** The digits after Rust's optional leading `+` sign. A lone sign is kept,
      so that it is rejected as a digit. */
  function Unsigned(s: string): string {
    if |s| >= 2 && s[0] == '+' then s[1..] else s
  }

  /** `s.parse::<u64>()`: an optional `+`, then one or more ASCII digits whose
      value fits in 64 bits. An empty string, a lone sign, a `-`, any other
      character, and overflow are all errors. */
  function ParseU64(s: string): (r: Option<u64>)
    ensures r.Some? <==> Unsigned(s) != [] && AllDigits(Unsigned(s)) && DigitsValue(Unsigned(s)) <= U64_MAX
    ensures r.Some? ==> r.value == DigitsValue(Unsigned(s))
    ensures r.Some? ==> |s| >= 1 && IsDigit(s[|s| - 1])
    ensures r.Some? && Unsigned(s)[0] != '0' ==> NatToString(r.value) == Unsigned(s)
  {
    var digits := Unsigned(s);
    if digits != [] && AllDigits(digits) && DigitsValue(digits) <= U64_MAX
    then
      LeadingDigitRendering(digits);
      Some(DigitsValue(digits))
    else None
  }

  /** A numeral without a leading zero is the rendering of its value. */
  lemma {:induction false} LeadingDigitRendering(s: string)
    requires s != [] && AllDigits(s)
    ensures s[0] != '0' ==> NatToString(DigitsValue(s)) == s
  {
    if s[0] != '0' {
      if |s| == 1 {
        assert DigitsValue(s) == DigitValue(s[0]);
      } else {
        var p := s[..|s| - 1];
        LeadingDigitRendering(p);
        assert p[0] == s[0];
        DigitsValueOfPrefix(p);
        var v := DigitsValue(s);
        assert v == DigitsValue(p) * 10 + DigitValue(s[|s| - 1]);
        assert v / 10 == DigitsValue(p) && v % 10 == DigitValue(s[|s| - 1]);
        assert DigitChar(v % 10) == s[|s| - 1];
        assert s == p + [s[|s| - 1]];
      }
    }
  }

  /** A numeral with a nonzero leading digit denotes at least one. */
  lemma {:induction false} DigitsValueOfPrefix(s: string)
    requires s != [] && AllDigits(s) && s[0] != '0'
    ensures DigitsValue(s) >= 1
  {
    if |s| > 1 {
      var p := s[..|s| - 1];
      assert p[0] == s[0];
      DigitsValueOfPrefix(p);
    }
  }

  /** Every `u64` survives rendering followed by parsing. */
  lemma ParseU64RoundTrip(n: u64)
    ensures ParseU64(NatToString(n)) == Some(n)
  {
    var s := NatToString(n);
    assert Unsigned(s) == s;
    NatToStringRoundTrip(n);
  }

  /** What `parse::<u64>` refuses: nothing, a bare sign, a minus sign. */
  lemma ParseU64Rejects()
    ensures ParseU64("") == None
    ensures ParseU64("+") == None
    ensures ParseU64("-1") == None
  {
    assert !IsDigit('-');
    assert !IsDigit('+');
  }

  /** What it accepts beyond rendered numbers: a plus sign, leading zeros. */
  lemma ParseU64Accepts()
    ensures ParseU64("+42") == Some(42)
    ensures ParseU64("007") == Some(7)
  {
    ParseU64RoundTrip(42);
    assert NatToString(42) == "42";
    assert Unsigned("+42") == "42";
    assert "007"[..2] == "00" && "00"[..1] == "0" && "0"[..0] == "";
  }
}
