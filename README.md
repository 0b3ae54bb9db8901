# greeter: boot-time reconstruction, PCG32, durations and the welcome sentence

A Dafny model of the logic inside `greeter`, a small Linux login greeter. The
model covers four parts:

- **Boot-time reconstruction** (`Dbus`, `dbus.dfy`):
  - The init manager publishes five monotonic stage timestamps in
    microseconds: firmware, loader, initrd, userspace and finish.
  - When userspace or finish is still zero, the code falls back to PID 1's
    start time, read from `/proc/1/stat` and `sysconf(_SC_CLK_TCK)`, and to
    the current `CLOCK_MONOTONIC` time.
  - It then fills a `BootTimeRecord` with five optional stage durations,
    totals them, and prints one line:
    `<fw> (firmware) + <ld> (loader) + <k> (kernel) + <i> (initrd) + <u> (userspace) = <total>`.
  - The derivation is an imperative method, `RetrieveBootTime`. It calls
    each fallback only when its timestamp is zero and propagates a panic
    from either. Two specifications pin it down: the function `Resolve`
    (the fallbacks) and the predicate `Derived` (for each stage, when it is
    known and what its value is).
  - The tick conversion and the timespec conversion are pure functions of
    their inputs.
  - Rust's `str::split_whitespace` is in `Whitespace` and `str::parse::<u64>`
    in `Decimal`, together with `{}` rendering of integers. `u64` arithmetic
    whose overflow Rust checks is in `Base`: a debug-build panic is the
    `OverflowPanic` outcome.
- **`Rng`** (`Random`, `random.dfy`):
  - A PCG32 generator: a wrapping 64-bit LCG step and the XSH-RR output
    (xorshift, then a rotation by the top five state bits).
  - It is a class whose `state` field `NextU32` and `GenRange` overwrite.
    `state` and `inc` are bit-vectors, so the wrapping and shifts are
    Rust's.
- **`HumanDuration`** (`Durations`, `duration.dfy`): whole days, hours, minutes
  or seconds, the largest unit that fits, rounded down.
- **`welcome_message`** (`Sentences`, `sentences.dfy`): one draw from a
  freshly seeded generator indexes a table of seven sentences. It has a
  fallback that cannot be reached.

What the code computes, where it is easy to misread:

- The total is the sum of the known stages, with unknown ones counted as 0.
  It is always printed as `Nms`, even when every stage is unknown (`0ms`).
  `Dbus.TotalTelescopes` gives its value: for an ordered, finished boot, the sum is
  `finish_ts + firmware_ts`. When only a loader timestamp is published it is
  `finish_ts + loader_ts`, and it is `finish_ts` alone when there is no
  loader timestamp.
- The firmware duration `firmware_ts - loader_ts` uses Rust's plain `-`, not
  a saturating subtraction. With both timestamps nonzero and out of order it
  panics in a debug build. Apart from an overflow inside a fallback that
  actually runs, `RetrieveBootTime` returns `OverflowPanic` in exactly that
  case.
- `userspace` is known when the resolved `userspace_ts > 0`, whatever
  `finish_ts` is. The finish fallback has already replaced a zero finish.
- The start time is field 21 counting from zero (field 22 counting from
  one) of the whitespace-split stat line.
- A failing `sysconf` returns -1, which `as u64` turns into `u64::MAX`, not
  0. `Base.AsU64` states this cast.

## Model

| member | source | states |
|---|---|---|
| Base.AsU64 | src/dbus.rs:134 | `as u64` on a signed value keeps its residue modulo 2^64 and leaves non-negative values unchanged |
| Base.CheckedSub | src/dbus.rs:87 | the unchecked `-` panics exactly when the subtrahend is larger; otherwise the result plus the subtrahend gives back the minuend |
| Base.SaturatingSub | src/dbus.rs:99-103 | `saturating_sub` is the difference when in order and 0 otherwise, never more than the minuend |
| Base.CheckedMul | src/dbus.rs:122 | `*` on `u64` panics exactly when the product exceeds `u64::MAX`, else yields the product |
| Base.CheckedAdd | src/dbus.rs:124 | `+` on `u64` panics exactly when the sum exceeds `u64::MAX`, else yields the sum |
| Decimal.NatToString | src/dbus.rs:33 | `{}` of an integer is a non-empty digit string with no leading zero |
| Decimal.NatToStringRoundTrip | src/dbus.rs:33 | reading a rendered number back gives the number |
| Decimal.NatToStringInjective | src/duration.rs:18 | two numbers render alike exactly when they are equal |
| Decimal.ParseU64 | src/dbus.rs:113 | `parse::<u64>` succeeds exactly on an optional `+` followed by one or more digits of value at most `u64::MAX`, and then returns that value; without a leading zero the digits are the value's rendering |
| Decimal.ParseU64RoundTrip | src/dbus.rs:113 | every `u64` survives rendering and then parsing |
| Decimal.ParseU64Rejects | src/dbus.rs:113 | the empty string, a lone `+` and a negative number are refused |
| Decimal.ParseU64Accepts | src/dbus.rs:113 | a leading `+` and leading zeros are accepted |
| Whitespace.Fields | src/dbus.rs:111 | every field `split_whitespace` yields is non-empty and holds no whitespace |
| Whitespace.FieldsOfJoinSpaced | src/dbus.rs:111 | splitting fields that are joined by single spaces and followed by trailing whitespace gives back exactly those fields |
| Dbus.TotalDuration | src/dbus.rs:18-26 | the accumulated total equals the sum of the known stages, an unknown stage adding 0 |
| Dbus.TotalUnfolds | src/dbus.rs:19-24 | the total is the five `unwrap_or_default` terms added together |
| Dbus.Resolve | src/dbus.rs:65-75 | the fallbacks replace only zeros: a zero userspace start takes PID 1's start time when there is one, a zero finish takes the clock reading, and every nonzero timestamp is kept |
| Dbus.RetrieveBootTime | src/dbus.rs:65-106 | it panics exactly when a fallback that runs (userspace or finish timestamp zero) overflows, or firmware and loader are both nonzero and firmware < loader; otherwise the record satisfies, stage by stage, "known iff its timestamps are nonzero, and then equal to its difference" over the timestamps resolved with the fallbacks' values; the kernel stage ends at initrd, else at userspace |
| Dbus.DerivedIsFunctional | src/dbus.rs:77-104 | the resolved timestamps determine the record |
| Dbus.TotalTelescopes | src/dbus.rs:80-104 | for an ordered finished boot, the total is finish plus firmware, or finish plus loader without firmware, or finish alone without loader |
| Dbus.StagesFitDuration | src/dbus.rs:18-26 | every known stage fits in a `u64` of microseconds, so the total is bounded by 5 × `u64::MAX` |
| Dbus.FormatMillis | src/dbus.rs:33 | a duration prints as the decimal of its whole milliseconds, with no leading zero, followed by `ms` |
| Dbus.FormatStage | src/dbus.rs:31-36 | a stage prints as `?` exactly when it is unknown, else as its milliseconds |
| Dbus.RenderDeterminesMillis | src/dbus.rs:37-46 | two records that print the same line agree, stage by stage, on being known and on their whole milliseconds, and on the total's milliseconds; nothing but sub-millisecond precision is lost |
| Dbus.ExampleBoot | src/dbus.rs:65-106 | timestamps 200000/150000/0/300000/900000 give 50/150/300/?/600 ms and a total of 1100ms |
| Dbus.ExampleBootLine | src/dbus.rs:37-46 | that boot prints as `50ms (firmware) + 150ms (loader) + 300ms (kernel) + ? (initrd) + 600ms (userspace) = 1100ms` |
| Dbus.NothingPublished | src/dbus.rs:45 | with nothing published and no fallback data every stage prints `?`, yet the total prints `0ms` |
| Dbus.UnfinishedBoot | src/dbus.rs:65-104 | during an unfinished boot userspace is measured from PID 1's start to now (0 when now is earlier), and without initrd the kernel stage ends at PID 1's start |
| Dbus.StartTicks | src/dbus.rs:111-113 | the start time is absent when the line has 21 fields or fewer, and is otherwise exactly what `parse::<u64>` gives for field 21 |
| Dbus.TicksToMicros | src/dbus.rs:120-124 | whole seconds scaled plus the scaled remainder is the floor of `ticks * 1_000_000 / clk_tck`; the conversion panics exactly when the scaled remainder or that floor exceeds `u64::MAX` |
| Dbus.SplitTicksIsFloor | src/dbus.rs:120-122 | splitting ticks into whole seconds and a remainder loses nothing |
| Dbus.Pid1StartTimeUs | src/dbus.rs:109-125 | no value exactly when the file is unreadable, has no parsable field 21, or the tick rate is 0; otherwise a panic exactly when the scaled remainder or the floor of the start time in microseconds exceeds `u64::MAX`, and that floor when neither does |
| Dbus.Pid1StartTimeOfStatLine | src/dbus.rs:109-125 | on a well-formed stat line whose field 21 is `ticks`, the fallback yields `ticks * 1_000_000 / clk_tck`, rounded down, when `ticks * 1_000_000` fits in a `u64` |
| Dbus.MonotonicMicros | src/dbus.rs:134 | the timespec becomes microseconds, panicking exactly when the checked sum overflows; for a non-negative reading it is the nanosecond count divided by 1000 |
| Dbus.MonotonicMicrosOrdered | src/dbus.rs:128-135 | a later clock reading never converts to an earlier microsecond value |
| Random.Increment | src/random.rs:18 | the increment is odd and carries the seed's bits from 32 up |
| Random.Rng.constructor | src/random.rs:10-20 | a new generator starts at the seed, with the seed's bits from 31 up as increment and its low bit forced to 1, so it is valid (odd increment) |
| Random.XorShiftedBits | src/random.rs:27 | bit `i` of the xorshifted word is state bit `i + 27` xor state bit `i + 45` (0 past bit 63) |
| Random.Rotation | src/random.rs:28 | the rotation is the top five bits of the old state, so it is below 32 |
| Random.RotateRightByIsRotation | src/random.rs:29 | the shift-and-or expression is a 32-bit right rotation, and a rotation of 0 returns the word unchanged |
| Random.OutputIsRotatedXorShift | src/random.rs:27-29 | each output is the xorshifted word rotated right by the top five state bits |
| Random.Rng.NextU32 | src/random.rs:22-30 | one draw sets the state to `old * 6364136223846793005 + inc` modulo 2^64, keeps `inc` (so the generator stays valid), and returns the output of the old state |
| Random.RangeDraw | src/random.rs:32-37 | a draw in an empty range is 0, and a draw in range `upper > 0` is below `upper` |
| Random.Rng.GenRange | src/random.rs:32-37 | `gen_range(0)` returns 0 and leaves the state alone; any other bound advances the state by exactly one step and returns the draw modulo the bound |
| Random.ZeroSeed | src/random.rs:11-19 | a zero seed (no entropy) gives state 0 and increment 1, a first output of 0 and a next state of 1 |
| Durations.Scale | src/duration.rs:7-16 | the value is the seconds divided by the size of the unit chosen; that unit is the largest in which the value is at least 1, or seconds; hours are 1..23, minutes 1..59 and seconds 0..59 |
| Durations.LargestFittingIsUnique | src/duration.rs:8-16 | only one value-and-unit pair meets that description, so the thresholds choose it |
| Durations.HumanDuration | src/duration.rs:5-19 | the text is the value's digits, with no leading zero, which read back as the value, then the unit letter |
| Durations.HumanDurationDeterminesScale | src/duration.rs:7-18 | two durations print alike exactly when their value and unit agree; the sub-second part never shows |
| Durations.HumanDurationExamples | src/duration.rs:8-18 | 0 s, 59 s, 60 s, 3599 s, 3600 s, 86399 s, 86400 s and 1000000 s print as `0s 59s 1m 59m 1h 23h 1d 11d` |
| Sentences.FallbackNotInTable | src/sentences.rs:3-21 | the table has seven sentences and the default is none of them |
| Sentences.Lookup | src/sentences.rs:18-21 | a lookup gives a table sentence exactly when the index is in range, and the default exactly when it is not |
| Sentences.WelcomeMessage | src/sentences.rs:13-22 | the message is the table entry chosen by a single draw in range 7 from the seeded generator: always a table sentence, never the default |

## Left out

- The D-Bus connection, the proxy and the five property reads
  (src/dbus.rs:50-63) are foreign-library I/O. The five timestamps are
  inputs, with a failed read already turned into 0.
- Reading `/proc/1/stat` (src/dbus.rs:110) is file I/O: the content is an
  `Option<string>` input. `libc::sysconf` (src/dbus.rs:115) is a foreign
  call: its result, already cast to `u64`, is an input.
- `libc::clock_gettime` (src/dbus.rs:133) is a foreign call: `tv_sec` and
  `tv_nsec` are inputs. The call's result is ignored in the source, so a
  failed call leaves them at 0, which is one of the inputs covered.
- Opening and reading `/dev/urandom` and `u64::from_ne_bytes`
  (src/random.rs:11-15) are OS I/O and byte order: the seed is an input. A
  short read that leaves part of the buffer zero is covered by the seed
  being arbitrary.
- Rust release builds wrap on overflow instead of panicking. The model gives
  debug-build semantics (`OverflowPanic`) to the unchecked `-`, `*` and `+`
  of src/dbus.rs, and does not model the wrapped values.
- `Duration` arithmetic in `total_duration` is modelled on natural
  microseconds. `Dbus.StagesFitDuration` shows the sum stays far below
  `Duration`'s range.
- src/pacman.rs (the package database query and `SystemTime::now()`) and
  src/main.rs (printing and dispatch) are not part of this model.
- `Display for BootTimeRecord` (`Dbus.Render`) has no contract of its own.
  Its properties are the lemmas about it: injectivity up to milliseconds,
  the boot 200000/150000/0/300000/900000 and the empty record.
- Dbus.ExampleBootLine: states the printed line as a concatenation of its
  eleven literal pieces rather than as one literal.
