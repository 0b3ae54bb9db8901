/** `HumanDuration`: how the time since the last system update is printed,
    as a whole number of the largest unit that fits (days, hours, minutes or
    seconds), rounded down, followed by the unit's letter. */
module Durations {
  import opened Base
  import opened Decimal

  /** `std::time::Duration`: whole seconds and the nanoseconds past them. */
  datatype Duration = Duration(secs: u64, nanos: nat)

  datatype Unit = Days | Hours | Minutes | Seconds {
    /** Seconds per unit. */
    function Size(): (n: nat)
      ensures n >= 1
    {
      match this
      case Days => 86400
      case Hours => 3600
      case Minutes => 60
      case Seconds => 1
    }

    /** The letter printed after the value. */
    function Symbol(): char {
      match this
      case Days => 'd'
      case Hours => 'h'
      case Minutes => 'm'
      case Seconds => 's'
    }
  }

  /** A value and the unit it counts. */
  datatype Scaled = Scaled(value: nat, unit: Unit)

  /** `s` is `secs` counted in whole units of the largest unit in which it
      is at least one, or in seconds when no unit fits. */
  predicate LargestFitting(secs: nat, s: Scaled) {
    && s.value == secs / s.unit.Size()
    && (s.unit == Seconds || s.value >= 1)
    && forall u: Unit :: u.Size() > s.unit.Size() ==> secs / u.Size() == 0
  }

  /** The `(value, unit)` choice of `fmt`, from the thresholds 86400, 3600
      and 60 seconds. */
  function Scale(secs: nat): (s: Scaled)
    ensures LargestFitting(secs, s)
    ensures s.unit == Hours ==> 1 <= s.value <= 23
    ensures s.unit == Minutes ==> 1 <= s.value <= 59
    ensures s.unit == Seconds ==> s.value == secs <= 59
  {
    if secs >= 86400 then Scaled(secs / 86400, Days)
    else if secs >= 3600 then Scaled(secs / 3600, Hours)
    else if secs >= 60 then Scaled(secs / 60, Minutes)
    else Scaled(secs, Seconds)
  }

  /** Exactly one unit fits the description, so the thresholds pick it. */
  lemma LargestFittingIsUnique(secs: nat, s: Scaled)
    requires LargestFitting(secs, s)
    ensures s == Scale(secs)
  {
  }

  /** `format!("{}", HumanDuration(d))`: the value in decimal, then the
      unit's letter; the nanoseconds play no part. */
  function HumanDuration(d: Duration): (s: string)
    ensures |s| >= 2 && AllDigits(s[..|s| - 1])
    ensures DigitsValue(s[..|s| - 1]) == Scale(d.secs).value
    ensures s[|s| - 1] == Scale(d.secs).unit.Symbol()
    ensures s[0] == '0' ==> |s| == 2
  {
    var scaled := Scale(d.secs);
    var digits := NatToString(scaled.value);
    NatToStringRoundTrip(scaled.value);
    assert (digits + [scaled.unit.Symbol()])[..|digits|] == digits;
    digits + [scaled.unit.Symbol()]
  }

  /** Two durations print alike exactly when they have the same value in the
      same unit; in particular the nanoseconds never show. */
  lemma HumanDurationDeterminesScale(a: Duration, b: Duration)
    ensures HumanDuration(a) == HumanDuration(b) <==> Scale(a.secs) == Scale(b.secs)
    ensures a.secs == b.secs ==> HumanDuration(a) == HumanDuration(b)
  {
    if HumanDuration(a) == HumanDuration(b) {
      var sa, sb := Scale(a.secs), Scale(b.secs);
      assert sa.unit.Symbol() == sb.unit.Symbol();
      assert sa.unit == sb.unit;
    }
  }

  /** The thresholds at work, each side of every boundary. */
  lemma HumanDurationExamples()
    ensures HumanDuration(Duration(0, 999_999_999)) == "0s"
    ensures HumanDuration(Duration(59, 0)) == "59s"
    ensures HumanDuration(Duration(60, 0)) == "1m"
    ensures HumanDuration(Duration(3599, 0)) == "59m"
    ensures HumanDuration(Duration(3600, 0)) == "1h"
    ensures HumanDuration(Duration(86399, 0)) == "23h"
    ensures HumanDuration(Duration(86400, 0)) == "1d"
    ensures HumanDuration(Duration(1_000_000, 0)) == "11d"
  {
    DurationNumerals();
    ShownAs(Duration(0, 999_999_999), "0s");
    ShownAs(Duration(59, 0), "59s");
    ShownAs(Duration(60, 0), "1m");
    ShownAs(Duration(3599, 0), "59m");
    ShownAs(Duration(3600, 0), "1h");
    ShownAs(Duration(86399, 0), "23h");
    ShownAs(Duration(86400, 0), "1d");
    ShownAs(Duration(1_000_000, 0), "11d");
  }

  lemma DurationNumerals()
    ensures NatToString(0) == "0" && NatToString(1) == "1"
    ensures NatToString(11) == "11" && NatToString(23) == "23" && NatToString(59) == "59"
  {
    assert DigitChar(1) == '1' && DigitChar(2) == '2' && DigitChar(3) == '3';
    assert DigitChar(5) == '5' && DigitChar(9) == '9';
    assert NatToString(11) == NatToString(1) + "1" == "11";
    assert NatToString(23) == NatToString(2) + "3" == "23";
    assert NatToString(59) == NatToString(5) + "9" == "59";
  }

  lemma ShownAs(d: Duration, text: string)
    requires |text| >= 2
    requires NatToString(Scale(d.secs).value) == text[..|text| - 1]
    requires Scale(d.secs).unit.Symbol() == text[|text| - 1]
    ensures HumanDuration(d) == text
  {
    assert text == text[..|text| - 1] + [text[|text| - 1]];
  }
}
