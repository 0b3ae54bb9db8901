/** Machine integers and the two result shapes every other module uses.
    Rust's fixed-width integers become subset types of `int`, so that every
    overflow is visible; arithmetic that Rust checks (debug builds panic with
    "attempt to ... with overflow") yields `OverflowPanic`. */
module Base {

  const U64_LIMIT: nat := 0x1_0000_0000_0000_0000
  const U64_MAX: nat := U64_LIMIT - 1

  /** Rust `u64`. */
  type u64 = x: nat | x < U64_LIMIT

  /** Rust `u32`. */
  type u32 = x: nat | x < 0x1_0000_0000

  /** Rust `i64` (also `time_t` and `c_long` on 64-bit Linux). */
  type i64 = x: int | -0x8000_0000_0000_0000 <= x < 0x8000_0000_0000_0000

  datatype Option<+T> = None | Some(value: T) {
    /** `unwrap_or(default)` */
    function GetOr(default: T): T {
      match this
      case Some(v) => v
      case None => default
    }
  }

  /** The result of a computation in which Rust's overflow checks may fire. */
  datatype Outcome<+T> = Value(value: T) | OverflowPanic {
    predicate IsFailure() {
      OverflowPanic?
    }

    function PropagateFailure<U>(): Outcome<U>
      requires OverflowPanic?
    {
      OverflowPanic
    }

    function Extract(): T
      requires Value?
    {
      value
    }
  }

  /** `x as u64` for a signed 64-bit `x`: the bit pattern is kept, so the
      result is the one `u64` congruent to `x` modulo 2^64. */
  function AsU64(x: i64): (r: u64)
    ensures r % U64_LIMIT == x % U64_LIMIT
    ensures x >= 0 ==> r == x
  {
    if x >= 0 then x else x + U64_LIMIT
  }

  /** `a * b` on `u64` with overflow checking. */
  function CheckedMul(a: u64, b: u64): (r: Outcome<u64>)
    ensures r.Value? <==> a * b <= U64_MAX
    ensures r.Value? ==> r.value == a * b
  {
    if a * b <= U64_MAX then Value(a * b) else OverflowPanic
  }

  /** `a + b` on `u64` with overflow checking. */
  function CheckedAdd(a: u64, b: u64): (r: Outcome<u64>)
    ensures r.Value? <==> a + b <= U64_MAX
    ensures r.Value? ==> r.value == a + b
  {
    if a + b <= U64_MAX then Value(a + b) else OverflowPanic
  }

  /** `a - b` on `u64` with overflow checking (Rust's plain `-`). */
  function CheckedSub(a: u64, b: u64): (r: Outcome<u64>)
    ensures r.Value? <==> a >= b
    ensures r.Value? ==> r.value + b == a
  {
    if a >= b then Value(a - b) else OverflowPanic
  }

  /** `a.saturating_sub(b)` on `u64`: the distance when in order, else zero. */
  function SaturatingSub(a: u64, b: u64): (r: u64)
    ensures r <= a
    ensures a >= b ==> r + b == a
    ensures a <= b ==> r == 0
  {
    if a >= b then a - b else 0
  }

  /** Integer division by a positive number is monotone. */
  lemma DivMonotone(a: nat, b: nat, c: nat)
    requires c > 0 && a <= b
    ensures a / c <= b / c
  {
    if a / c > b / c {
      MulStep(b / c, a / c, c);
    }
  }

  /** Quotient and remainder of a natural number by a positive one. */
  lemma DivBounds(a: int, c: int)
    requires a >= 0 && c > 0
    ensures 0 <= a / c <= a && 0 <= a % c < c
  {
    var q := a / c;
    assert a == q * c + a % c;
    if q > a {
      MulStep(a, q, c);
    }
  }

  /** Adding a multiple of the divisor shifts the quotient by that multiple. */
  lemma DivAddMultiple(a: nat, b: nat, c: nat)
    requires c > 0
    ensures (a * c + b) / c == a + b / c
  {
    var q, m := b / c, b % c;
    assert b == q * c + m;
    assert a * c + b == (a + q) * c + m;
    DivUnique(a * c + b, c, a + q, m);
  }

  /** Euclidean division has one quotient. */
  lemma DivUnique(n: nat, c: nat, q: nat, m: nat)
    requires c > 0 && m < c && n == q * c + m
    ensures n / c == q && n % c == m
  {
    var q', m' := n / c, n % c;
    if q' < q {
      MulStep(q', q, c);
    } else if q' > q {
      MulStep(q, q', c);
    }
  }

  /** A larger factor adds at least one more divisor to the product. */
  lemma MulStep(x: nat, y: nat, c: nat)
    requires x < y
    ensures x * c + c <= y * c
  {
    var k := y - x - 1;
    assert y * c == (x + 1 + k) * c;
    assert (x + 1 + k) * c == x * c + c + k * c;
  }
}
