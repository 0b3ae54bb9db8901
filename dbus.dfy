/** Boot-time reconstruction from the init manager's monotonic stage
    timestamps (microseconds since power-on), with the two fallbacks used
    while the boot is still in progress, the record's total and its one-line
    rendering. */
module Dbus {
  import opened Base
  import opened Decimal
  import opened Whitespace

  /** The five published timestamps, in microseconds. A failed property read
      has already become 0, the same value as "not published yet". */
  datatype RawTimestamps = RawTimestamps(firmware: u64, loader: u64, initrd: u64, userspace: u64, finish: u64)

  /** Per-stage durations in microseconds; `None` is "unknown", which is not
      the same as a measured zero. */
  datatype BootTimeRecord = BootTimeRecord(
    firmware: Option<nat>,
    loader: Option<nat>,
    kernel: Option<nat>,
    initrd: Option<nat>,
    userspace: Option<nat>)

  /** `BootTimeRecord::default()` */
  const Unknown := BootTimeRecord(None, None, None, None, None)

  /** The stages in the order they are summed and printed. */
  function Stages(rec: BootTimeRecord): seq<Option<nat>> {
    [rec.firmware, rec.loader, rec.kernel, rec.initrd, rec.userspace]
  }

  /** The sum of the known durations; an unknown one adds nothing. */
  function SumKnown(ds: seq<Option<nat>>): nat {
    if ds == [] then 0 else ds[0].GetOr(0) + SumKnown(ds[1..])
  }

  function Total(rec: BootTimeRecord): nat {
    SumKnown(Stages(rec))
  }

  /** The five stages one by one. */
  lemma TotalUnfolds(rec: BootTimeRecord)
    ensures Total(rec) == rec.firmware.GetOr(0) + rec.loader.GetOr(0) + rec.kernel.GetOr(0)
                          + rec.initrd.GetOr(0) + rec.userspace.GetOr(0)
  {
    var s := Stages(rec);
    assert SumKnown(s) == s[0].GetOr(0) + SumKnown(s[1..]);
    assert SumKnown(s[1..]) == s[1].GetOr(0) + SumKnown(s[2..]) by { assert s[1..][1..] == s[2..]; }
    assert SumKnown(s[2..]) == s[2].GetOr(0) + SumKnown(s[3..]) by { assert s[2..][1..] == s[3..]; }
    assert SumKnown(s[3..]) == s[3].GetOr(0) + SumKnown(s[4..]) by { assert s[3..][1..] == s[4..]; }
    assert SumKnown(s[4..]) == s[4].GetOr(0) by {
      var rest: seq<Option<nat>> := s[4..][1..];
      assert rest == [];
    }
  }

  /** `total_duration`: starts at zero and adds each stage, `unwrap_or_default`
      turning an unknown stage into zero. */
  method TotalDuration(rec: BootTimeRecord) returns (total: nat)
    ensures total == Total(rec)
  {
    total := 0;
    total := total + rec.firmware.GetOr(0);
    total := total + rec.loader.GetOr(0);
    total := total + rec.kernel.GetOr(0);
    total := total + rec.initrd.GetOr(0);
    total := total + rec.userspace.GetOr(0);
    TotalUnfolds(rec);
  }

  // ---------------------------------------------------------------------
  // Fallbacks and derivation

  /** The timestamps after the two fallbacks of an unfinished boot: a zero
      userspace start takes PID 1's start time when that could be read, and a
      zero finish takes the current monotonic time. Only zeros are filled. */
  function Resolve(raw: RawTimestamps, pid1Start: Option<u64>, now: u64): (ts: RawTimestamps)
    ensures ts.firmware == raw.firmware && ts.loader == raw.loader && ts.initrd == raw.initrd
    ensures raw.userspace != 0 ==> ts.userspace == raw.userspace
    ensures raw.finish != 0 ==> ts.finish == raw.finish
    ensures raw.userspace == 0 ==> ts.userspace == pid1Start.GetOr(0)
    ensures raw.finish == 0 ==> ts.finish == now
  {
    var userspace := if raw.userspace == 0 && pid1Start.Some? then pid1Start.value else raw.userspace;
    var finish := if raw.finish == 0 then now else raw.finish;
    raw.(userspace := userspace, finish := finish)
  }

  /** When each stage of `rec` is known, and what it then is, given the
      (resolved) timestamps `ts`. The kernel stage ends at the initrd
      timestamp when there is one, else at the userspace start. */
  predicate Derived(ts: RawTimestamps, rec: BootTimeRecord) {
    var kernelEnd := if ts.initrd > 0 then ts.initrd else ts.userspace;
    && (rec.firmware.Some? <==> ts.firmware > 0 && ts.loader > 0)
    && (rec.firmware.Some? ==> rec.firmware.value + ts.loader == ts.firmware)
    && (rec.loader.Some? <==> ts.loader > 0)
    && (rec.loader.Some? ==> rec.loader.value == ts.loader)
    && (rec.kernel.Some? <==> kernelEnd > 0)
    && (rec.kernel.Some? ==> rec.kernel.value == kernelEnd)
    && (rec.initrd.Some? <==> ts.initrd > 0 && ts.userspace > 0)
    && (rec.initrd.Some? ==> rec.initrd.value == if ts.initrd <= ts.userspace then ts.userspace - ts.initrd else 0)
    && (rec.userspace.Some? <==> ts.userspace > 0)
    && (rec.userspace.Some? ==> rec.userspace.value == if ts.userspace <= ts.finish then ts.finish - ts.userspace else 0)
  }

  /** `retrieve_boot_time` after the property reads. `stat` and `clkTck` are
      what `get_pid1_starttime_us` reads, `tvSec` and `tvNsec` what
      `get_current_monotonic_us` reads; each fallback runs only when its
      timestamp is zero, and an overflow inside it panics. Otherwise the
      only panic is the unchecked firmware subtraction of an out-of-order
      firmware/loader pair. */
  method RetrieveBootTime(raw: RawTimestamps, stat: Option<string>, clkTck: u64, tvSec: i64, tvNsec: i64)
    returns (r: Outcome<BootTimeRecord>)
    ensures r.OverflowPanic? <==>
      || (raw.userspace == 0 && Pid1StartTimeUs(stat, clkTck).OverflowPanic?)
      || (raw.finish == 0 && MonotonicMicros(tvSec, tvNsec).OverflowPanic?)
      || (raw.firmware > 0 && raw.loader > 0 && raw.firmware < raw.loader)
    ensures r.Value? ==>
      Derived(Resolve(raw,
                      if raw.userspace == 0 then Pid1StartTimeUs(stat, clkTck).value else None,
                      if raw.finish == 0 then MonotonicMicros(tvSec, tvNsec).value else 0),
              r.value)
  {
    var userspaceTs := raw.userspace;
    var finishTs := raw.finish;
    if userspaceTs == 0 {
      var pid1Start :- Pid1StartTimeUs(stat, clkTck);
      if pid1Start.Some? {
        userspaceTs := pid1Start.value;
      }
    }
    if finishTs == 0 {
      finishTs :- MonotonicMicros(tvSec, tvNsec);
    }

    var record := Unknown;
    var kernelEndTs := if raw.initrd > 0 then raw.initrd else userspaceTs;
    if raw.firmware > 0 && raw.loader > 0 {
      var firmware :- CheckedSub(raw.firmware, raw.loader);
      record := record.(firmware := Some(firmware));
    }
    if raw.loader > 0 {
      record := record.(loader := Some(raw.loader));
    }
    if kernelEndTs > 0 {
      record := record.(kernel := Some(kernelEndTs));
    }
    if raw.initrd > 0 && userspaceTs > 0 {
      record := record.(initrd := Some(SaturatingSub(userspaceTs, raw.initrd)));
    }
    if userspaceTs > 0 {
      record := record.(userspace := Some(SaturatingSub(finishTs, userspaceTs)));
    }
    r := Value(record);
  }

  /** The timestamps determine the record. */
  lemma DerivedIsFunctional(ts: RawTimestamps, a: BootTimeRecord, b: BootTimeRecord)
    requires Derived(ts, a) && Derived(ts, b)
    ensures a == b
  {
  }

  /** For a finished boot whose stages are in order, the sum of the stages
      telescopes: it is the finish timestamp plus the firmware timestamp (or
      the loader timestamp when only that was reported). */
  lemma TotalTelescopes(ts: RawTimestamps, rec: BootTimeRecord)
    requires Derived(ts, rec)
    requires 0 < ts.userspace <= ts.finish && ts.initrd <= ts.userspace
    ensures Total(rec) == ts.finish + (if ts.loader == 0 then 0 else if ts.firmware == 0 then ts.loader else ts.firmware)
  {
    TotalUnfolds(rec);
  }

  /** Every known stage fits in a `u64` of microseconds, so the five
      `Duration` additions of `total_duration` never overflow. */
  lemma StagesFitDuration(ts: RawTimestamps, rec: BootTimeRecord)
    requires Derived(ts, rec)
    ensures forall d :: d in Stages(rec) && d.Some? ==> d.value <= U64_MAX
    ensures Total(rec) <= 5 * U64_MAX
  {
    TotalUnfolds(rec);
  }

  // ---------------------------------------------------------------------
  // Rendering

  /** `format!("{}ms", d.as_millis())` for a duration of `us` microseconds. */
  function FormatMillis(us: nat): (s: string)
    ensures |s| >= 3 && s[|s| - 2..] == "ms"
    ensures AllDigits(s[..|s| - 2]) && DigitsValue(s[..|s| - 2]) == us / 1000
    ensures s[0] == '0' ==> |s| == 3
  {
    var digits := NatToString(us / 1000);
    NatToStringRoundTrip(us / 1000);
    assert (digits + "ms")[..|digits|] == digits;
    digits + "ms"
  }

  /** The `fmt_dur` closure: a known duration in whole milliseconds, an
      unknown one as `?`. */
  function FormatStage(d: Option<nat>): (s: string)
    ensures d.None? <==> s == "?"
    ensures d.Some? ==> s == FormatMillis(d.value)
  {
    match d
    case Some(us) => FormatMillis(us)
    case None => "?"
  }

  /** `Display for BootTimeRecord`. The total is always printed in
      milliseconds, even when every stage is unknown. */
  function Render(rec: BootTimeRecord): string {
    FormatStage(rec.firmware) + (" (firmware) + " +
    (FormatStage(rec.loader) + (" (loader) + " +
    (FormatStage(rec.kernel) + (" (kernel) + " +
    (FormatStage(rec.initrd) + (" (initrd) + " +
    (FormatStage(rec.userspace) + (" (userspace) = " +
    FormatMillis(Total(rec)))))))))))
  }

  /** What the printed line shows of a duration: known or not, and its whole
      milliseconds. */
  function MillisView(d: Option<nat>): Option<nat> {
    match d
    case Some(us) => Some(us / 1000)
    case None => None
  }

  /** The line loses nothing but sub-millisecond precision: two records that
      print the same agree, stage by stage, on being known and on their
      milliseconds, and agree on the total's milliseconds. */
  lemma RenderDeterminesMillis(a: BootTimeRecord, b: BootTimeRecord)
    requires Render(a) == Render(b)
    ensures forall i :: 0 <= i < 5 ==> MillisView(Stages(a)[i]) == MillisView(Stages(b)[i])
    ensures Total(a) / 1000 == Total(b) / 1000
  {
    var ra1 := FormatStage(a.loader) + (" (loader) + " +
      (FormatStage(a.kernel) + (" (kernel) + " +
      (FormatStage(a.initrd) + (" (initrd) + " +
      (FormatStage(a.userspace) + (" (userspace) = " + FormatMillis(Total(a)))))))));
    var rb1 := FormatStage(b.loader) + (" (loader) + " +
      (FormatStage(b.kernel) + (" (kernel) + " +
      (FormatStage(b.initrd) + (" (initrd) + " +
      (FormatStage(b.userspace) + (" (userspace) = " + FormatMillis(Total(b)))))))));
    PeelStage(a.firmware, b.firmware, " (firmware) + ", ra1, rb1);
    var ra2 := FormatStage(a.kernel) + (" (kernel) + " +
      (FormatStage(a.initrd) + (" (initrd) + " +
      (FormatStage(a.userspace) + (" (userspace) = " + FormatMillis(Total(a)))))));
    var rb2 := FormatStage(b.kernel) + (" (kernel) + " +
      (FormatStage(b.initrd) + (" (initrd) + " +
      (FormatStage(b.userspace) + (" (userspace) = " + FormatMillis(Total(b)))))));
    PeelStage(a.loader, b.loader, " (loader) + ", ra2, rb2);
    var ra3 := FormatStage(a.initrd) + (" (initrd) + " +
      (FormatStage(a.userspace) + (" (userspace) = " + FormatMillis(Total(a)))));
    var rb3 := FormatStage(b.initrd) + (" (initrd) + " +
      (FormatStage(b.userspace) + (" (userspace) = " + FormatMillis(Total(b)))));
    PeelStage(a.kernel, b.kernel, " (kernel) + ", ra3, rb3);
    var ra4 := FormatStage(a.userspace) + (" (userspace) = " + FormatMillis(Total(a)));
    var rb4 := FormatStage(b.userspace) + (" (userspace) = " + FormatMillis(Total(b)));
    PeelStage(a.initrd, b.initrd, " (initrd) + ", ra4, rb4);
    PeelStage(a.userspace, b.userspace, " (userspace) = ", FormatMillis(Total(a)), FormatMillis(Total(b)));
    var ta, tb := FormatMillis(Total(a)), FormatMillis(Total(b));
    assert ta[..|ta| - 2] == tb[..|tb| - 2];
  }

  /** A rendered stage, then a sep starting with a space: the stage text
      and what follows the sep are recovered. */
  lemma PeelStage(da: Option<nat>, db: Option<nat>, sep: string, ra: string, rb: string)
    requires sep != [] && sep[0] == ' '
    requires FormatStage(da) + (sep + ra) == FormatStage(db) + (sep + rb)
    ensures MillisView(da) == MillisView(db) && ra == rb
  {
    var sa, sb := FormatStage(da), FormatStage(db);
    var whole := sa + (sep + ra);
    NoSpaceInStage(da);
    NoSpaceInStage(db);
    assert whole[|sa|] == ' ';
    assert whole[|sb|] == (sb + (sep + rb))[|sb|] == ' ';
    assert |sa| == |sb|;
    assert sa == whole[..|sa|] == sb;
    assert sep + ra == whole[|sa|..] == sep + rb;
    assert ra == (sep + ra)[|sep|..];
    if da.Some? && db.Some? {
      assert sa[..|sa| - 2] == sb[..|sb| - 2];
    }
  }

  lemma NoSpaceInStage(d: Option<nat>)
    ensures forall i :: 0 <= i < |FormatStage(d)| ==> FormatStage(d)[i] != ' '
  {
    if d.Some? {
      var s := FormatStage(d);
      assert forall i :: 0 <= i < |s| - 2 ==> s[i] == s[..|s| - 2][i];
      assert forall i :: |s| - 2 <= i < |s| ==> s[i] == s[|s| - 2..][i - (|s| - 2)];
    }
  }

  /** An example boot: firmware 200 ms and loader 150 ms
      before the kernel, no initrd, userspace from 300 ms to 900 ms. It
      prints as 50ms, 150ms, 300ms, ?, 600ms and a total of 1100ms. */
  lemma ExampleBoot(pid1Start: Option<u64>, now: u64, rec: BootTimeRecord)
    requires Derived(Resolve(RawTimestamps(200_000, 150_000, 0, 300_000, 900_000), pid1Start, now), rec)
    ensures rec == BootTimeRecord(Some(50_000), Some(150_000), Some(300_000), None, Some(600_000))
    ensures FormatStage(rec.firmware) == "50ms" && FormatStage(rec.loader) == "150ms"
    ensures FormatStage(rec.kernel) == "300ms" && FormatStage(rec.initrd) == "?"
    ensures FormatStage(rec.userspace) == "600ms" && FormatMillis(Total(rec)) == "1100ms"
  {
    ExampleRecord(pid1Start, now, rec);
    Millis50();
    Millis150();
    Millis300();
    Millis600();
    Millis1100();
  }

  lemma ExampleRecord(pid1Start: Option<u64>, now: u64, rec: BootTimeRecord)
    requires Derived(Resolve(RawTimestamps(200_000, 150_000, 0, 300_000, 900_000), pid1Start, now), rec)
    ensures rec == BootTimeRecord(Some(50_000), Some(150_000), Some(300_000), None, Some(600_000))
    ensures Total(rec) == 1_100_000
  {
    assert Resolve(RawTimestamps(200_000, 150_000, 0, 300_000, 900_000), pid1Start, now)
        == RawTimestamps(200_000, 150_000, 0, 300_000, 900_000);
    TotalUnfolds(rec);
  }

  lemma Millis50()
    ensures FormatMillis(50_000) == "50ms"
  {
    assert NatToString(50) == "50" by { ExampleNumerals(); }
    MillisText(50_000, "50");
  }

  lemma Millis150()
    ensures FormatMillis(150_000) == "150ms"
  {
    assert NatToString(150) == "150" by { ExampleNumerals(); }
    MillisText(150_000, "150");
  }

  lemma Millis300()
    ensures FormatMillis(300_000) == "300ms"
  {
    assert NatToString(300) == "300" by { ExampleNumerals(); }
    MillisText(300_000, "300");
  }

  lemma Millis600()
    ensures FormatMillis(600_000) == "600ms"
  {
    assert NatToString(600) == "600" by { ExampleNumerals(); }
    MillisText(600_000, "600");
  }

  lemma Millis1100()
    ensures FormatMillis(1_100_000) == "1100ms"
  {
    assert NatToString(1100) == "1100" by { ExampleNumerals(); }
    MillisText(1_100_000, "1100");
  }

  /** The whole line of that example boot. */
  lemma ExampleBootLine(pid1Start: Option<u64>, now: u64, rec: BootTimeRecord)
    requires Derived(Resolve(RawTimestamps(200_000, 150_000, 0, 300_000, 900_000), pid1Start, now), rec)
    ensures Render(rec) == "50ms" + (" (firmware) + " + ("150ms" + (" (loader) + " + ("300ms" + (" (kernel) + " +
      ("?" + (" (initrd) + " + ("600ms" + (" (userspace) = " + "1100ms")))))))))
  {
    ExampleBoot(pid1Start, now, rec);
  }

  lemma ExampleNumerals()
    ensures NatToString(50) == "50" && NatToString(150) == "150" && NatToString(300) == "300"
    ensures NatToString(600) == "600" && NatToString(1100) == "1100"
  {
    assert DigitChar(0) == '0' && DigitChar(1) == '1' && DigitChar(3) == '3';
    assert DigitChar(5) == '5' && DigitChar(6) == '6';
    assert NatToString(15) == NatToString(1) + "5" == "15";
    assert NatToString(150) == NatToString(15) + "0" == "150";
    assert NatToString(30) == NatToString(3) + "0" == "30";
    assert NatToString(300) == NatToString(30) + "0" == "300";
    assert NatToString(60) == NatToString(6) + "0" == "60";
    assert NatToString(600) == NatToString(60) + "0" == "600";
    assert NatToString(11) == NatToString(1) + "1" == "11";
    assert NatToString(110) == NatToString(11) + "0" == "110";
    assert NatToString(1100) == NatToString(110) + "0" == "1100";
  }

  lemma MillisText(us: nat, digits: string)
    requires NatToString(us / 1000) == digits
    ensures FormatMillis(us) == digits + "ms"
  {
  }

  /** Before anything is published and with both fallbacks empty, every
      stage is unknown, yet the total prints as `0ms`, not `?`. */
  lemma NothingPublished(rec: BootTimeRecord)
    requires Derived(Resolve(RawTimestamps(0, 0, 0, 0, 0), None, 0), rec)
    ensures rec == Unknown
    ensures forall d :: d in Stages(rec) ==> FormatStage(d) == "?"
    ensures FormatMillis(Total(rec)) == "0ms"
    ensures Render(rec) == "?" + (" (firmware) + " + ("?" + (" (loader) + " + ("?" + (" (kernel) + " +
      ("?" + (" (initrd) + " + ("?" + (" (userspace) = " + "0ms")))))))))
  {
    assert rec == Unknown;
    TotalUnfolds(rec);
    MillisText(0, "0");
  }

  /** An unfinished boot: PID 1's start time stands in for the userspace
      start, the clock reading for the finish, and userspace is measured up
      to now (zero if now is not later). */
  lemma UnfinishedBoot(raw: RawTimestamps, start: u64, now: u64, rec: BootTimeRecord)
    requires raw.userspace == 0 && raw.finish == 0 && start > 0
    requires Derived(Resolve(raw, Some(start), now), rec)
    ensures rec.userspace == Some(if start <= now then now - start else 0)
    ensures raw.initrd == 0 ==> rec.kernel == Some(start)
  {
  }

  // ---------------------------------------------------------------------
  // PID 1 start time: `/proc/1/stat` and the clock-tick rate

  /** The start time, in clock ticks since boot, of a `/proc/<pid>/stat`
      line: whitespace-separated field 21 counting from zero, parsed as `u64`. */
  function StartTicks(content: string): (r: Option<u64>)
    ensures |Fields(content)| <= 21 ==> r.None?
    ensures |Fields(content)| > 21 ==> r == ParseU64(Fields(content)[21])
    ensures r.Some? && Unsigned(Fields(content)[21])[0] != '0' ==> NatToString(r.value) == Unsigned(Fields(content)[21])
  {
    var fields := Fields(content);
    if |fields| <= 21 then None else ParseU64(fields[21])
  }

  /** Ticks to microseconds as whole seconds plus the scaled remainder, in
      checked `u64` arithmetic. The result is the floor of
      `ticks * 1_000_000 / clkTck`; it panics exactly when the scaled
      remainder or that floor exceeds `u64::MAX`. */
  function TicksToMicros(ticks: u64, clkTck: u64): (r: Outcome<u64>)
    requires clkTck > 0
    ensures r.Value? ==> r.value == ticks * 1_000_000 / clkTck
    ensures r.OverflowPanic? <==> (ticks % clkTck) * 1_000_000 > U64_MAX || ticks * 1_000_000 / clkTck > U64_MAX
  {
    DivBounds(ticks, clkTck);
    SplitTicksIsFloor(ticks, clkTck);
    var seconds := ticks / clkTck;
    var remainder := ticks % clkTck;
    var scaled :- CheckedMul(remainder, 1_000_000);
    DivBounds(scaled, clkTck);
    var micros := scaled / clkTck;
    var secondsUs :- CheckedMul(seconds, 1_000_000);
    CheckedAdd(secondsUs, micros)
  }

  /** Splitting off whole seconds loses nothing. */
  lemma SplitTicksIsFloor(ticks: nat, c: nat)
    requires c > 0
    ensures (ticks / c) * 1_000_000 + ((ticks % c) * 1_000_000) / c == ticks * 1_000_000 / c
    ensures ((ticks % c) * 1_000_000) / c >= 0
  {
    var q, m := ticks / c, ticks % c;
    assert ticks * 1_000_000 == (q * 1_000_000) * c + m * 1_000_000 by {
      assert ticks == q * c + m;
    }
    DivAddMultiple(q * 1_000_000, m * 1_000_000, c);
  }

  /** `get_pid1_starttime_us` once the file has been read (`stat` is `None`
      when it could not be) and `sysconf(_SC_CLK_TCK)` has been cast to
      `u64`. No value when the file is missing, has no field 21, the field is
      not a `u64`, or the tick rate is zero. */
  function Pid1StartTimeUs(stat: Option<string>, clkTck: u64): (r: Outcome<Option<u64>>)
    ensures r == Value(None) <==> stat.None? || StartTicks(stat.value).None? || clkTck == 0
    ensures stat.Some? && StartTicks(stat.value).Some? && clkTck > 0 ==>
      var t := StartTicks(stat.value).value;
      r == if (t % clkTck) * 1_000_000 > U64_MAX || t * 1_000_000 / clkTck > U64_MAX then OverflowPanic
           else Value(Some(t * 1_000_000 / clkTck))
  {
    match stat
    case None => Value(None)
    case Some(content) =>
      match StartTicks(content)
      case None => Value(None)
      case Some(ticks) =>
        if clkTck == 0 then Value(None)
        else
          var us :- TicksToMicros(ticks, clkTck);
          Value(Some(us))
  }

  /** On a well-formed stat line (fields joined by single spaces, then a
      newline or other trailing whitespace) whose field 21 is the decimal
      start time, the fallback yields that time in microseconds, rounded
      down, as long as `ticks * 1_000_000` fits in a `u64`. */
  lemma Pid1StartTimeOfStatLine(fields: seq<string>, trail: string, ticks: u64, clkTck: u64)
    requires |fields| > 21 && forall k :: 0 <= k < |fields| ==> IsField(fields[k])
    requires fields[21] == NatToString(ticks)
    requires AllWhitespace(trail)
    requires clkTck > 0 && ticks * 1_000_000 <= U64_MAX
    ensures Pid1StartTimeUs(Some(JoinSpaced(fields) + trail), clkTck) == Value(Some(ticks * 1_000_000 / clkTck))
  {
    StartTicksOfStatLine(fields, trail, ticks);
    ScaledTicksFit(ticks, clkTck);
  }

  /** Field 21 of a well-formed stat line is read back as the number it
      renders. */
  lemma StartTicksOfStatLine(fields: seq<string>, trail: string, ticks: u64)
    requires |fields| > 21 && forall k :: 0 <= k < |fields| ==> IsField(fields[k])
    requires fields[21] == NatToString(ticks)
    requires AllWhitespace(trail)
    ensures StartTicks(JoinSpaced(fields) + trail) == Some(ticks)
  {
    FieldsOfJoinSpaced(fields, trail);
    ParseU64RoundTrip(ticks);
  }

  /** When `ticks * 1_000_000` fits, so do the scaled remainder and the
      floor. */
  lemma ScaledTicksFit(ticks: u64, clkTck: u64)
    requires clkTck > 0 && ticks * 1_000_000 <= U64_MAX
    ensures (ticks % clkTck) * 1_000_000 <= U64_MAX && ticks * 1_000_000 / clkTck <= U64_MAX
  {
    DivBounds(ticks, clkTck);
    DivBounds(ticks * 1_000_000, clkTck);
  }

  // ---------------------------------------------------------------------
  // Current monotonic time

  /** `get_current_monotonic_us` after `clock_gettime` filled `tv_sec` and
      `tv_nsec`: both cast to `u64`, then seconds scaled to microseconds plus
      whole microseconds of the nanoseconds, in checked arithmetic. For a
      non-negative reading this is the floor of the nanosecond count over
      1000. */
  function MonotonicMicros(tvSec: i64, tvNsec: i64): (r: Outcome<u64>)
    ensures r.OverflowPanic? <==> AsU64(tvSec) * 1_000_000 + AsU64(tvNsec) / 1000 > U64_MAX
    ensures r.Value? && tvSec >= 0 && tvNsec >= 0 ==> r.value == (tvSec * 1_000_000_000 + tvNsec) / 1000
  {
    var secUs :- CheckedMul(AsU64(tvSec), 1_000_000);
    var nsecUs := AsU64(tvNsec) / 1000;
    if tvSec >= 0 && tvNsec >= 0 then
      DivAddMultiple(tvSec * 1_000_000, tvNsec, 1000);
      CheckedAdd(secUs, nsecUs)
    else
      CheckedAdd(secUs, nsecUs)
  }

  /** A later clock reading never converts to an earlier microsecond value. */
  lemma MonotonicMicrosOrdered(s1: i64, n1: i64, s2: i64, n2: i64)
    requires 0 <= s1 && 0 <= n1 < 1_000_000_000 && 0 <= s2 && 0 <= n2 < 1_000_000_000
    requires s1 < s2 || (s1 == s2 && n1 <= n2)
    requires MonotonicMicros(s1, n1).Value? && MonotonicMicros(s2, n2).Value?
    ensures MonotonicMicros(s1, n1).value <= MonotonicMicros(s2, n2).value
  {
    if s1 < s2 {
      MulStep(s1, s2, 1_000_000_000);
    }
    DivMonotone(s1 * 1_000_000_000 + n1, s2 * 1_000_000_000 + n2, 1000);
  }
}
