/** The PCG32 random number generator (O'Neill's PCG family, XSH-RR output
    function) behind the welcome sentence: a 64-bit linear congruential state
    advanced with wrapping arithmetic, from which each draw derives a 32-bit
    output by an xorshift and a data-dependent rotation. */
module Random {
  import opened Base

  /** The LCG multiplier of `next_u32`. */
  const MULTIPLIER: bv64 := 6364136223846793005

  /** The increment a seed gives: its bits from 31 up, with the low bit set. */
  function Increment(seed: bv64): (inc: bv64)
    ensures inc & 1 == 1
    ensures inc >> 1 == seed >> 32
  {
    (seed >> 31) | 1
  }

  /** The state transition: `prev * MULTIPLIER + inc`, both steps wrapping
      modulo 2^64 (bit-vector arithmetic wraps). */
  function Step(prev: bv64, inc: bv64): bv64 {
    prev * MULTIPLIER + inc
  }

  /** `(((prev >> 18) ^ prev) >> 27) as u32`: the cast keeps the low 32 bits. */
  function XorShifted(prev: bv64): bv32 {
    ((((prev >> 18) ^ prev) >> 27) & 0xFFFF_FFFF) as bv32
  }

  /** Bit `i` of the xorshifted word is bit `i + 27` of the state xor-ed with
      bit `i + 45`, where bits beyond the top of the state count as 0: the
      word is state bits 27..58 folded with state bits 45..63. */
  lemma XorShiftedBits(prev: bv64)
    ensures forall i: bv32 :: i < 32 ==>
      WordBit(XorShifted(prev), i) == (StateBit(prev, i as bv64 + 27) != (i < 19 && StateBit(prev, i as bv64 + 45)))
  {
  }

  /** Whether bit `i` of a 32-bit word is set. */
  predicate WordBit(x: bv32, i: bv32)
    requires i < 32
  {
    (x >> i) & 1 == 1
  }

  /** Whether bit `i` of the 64-bit state is set. */
  predicate StateBit(v: bv64, i: bv64)
    requires i < 64
  {
    (v >> i) & 1 == 1
  }

  /** `(prev >> 59) as u32`: the top five bits of the state. */
  function Rotation(prev: bv64): (rot: bv32)
    ensures rot < 32
    ensures rot as bv64 == prev >> 59
  {
    (prev >> 59) as bv32
  }

  /** The rotation as `next_u32` writes it: `x` shifted right by `rot`, or-ed
      with `x` shifted left by `(!rot).wrapping_add(1) & 31`. */
  function RotateRightBy(x: bv32, rot: bv32): bv32
    requires rot < 32
  {
    (x >> rot) | (x << ((!rot + 1) & 31))
  }

  /** The shift-and-or expression is a 32-bit right rotation, including the
      case `rot == 0`, where the left shift is by 0 rather than by 32. */
  lemma RotateRightByIsRotation(x: bv32, rot: bv32)
    requires rot < 32
    ensures RotateRightBy(x, rot) == x.RotateRight(rot as nat)
    ensures rot == 0 ==> RotateRightBy(x, rot) == x
  {
    if rot != 0 {
      assert (!rot + 1) & 31 == 32 - rot;
    }
  }

  /** The value a draw returns, a function of the state before the draw. */
  function Output(prev: bv64): bv32 {
    RotateRightBy(XorShifted(prev), Rotation(prev))
  }

  /** The output is the xorshifted word rotated right by the top five state
      bits; when those bits are zero it is the xorshifted word itself. */
  lemma OutputIsRotatedXorShift(prev: bv64)
    ensures Output(prev) == XorShifted(prev).RotateRight(Rotation(prev) as nat)
    ensures prev >> 59 == 0 ==> Output(prev) == XorShifted(prev)
  {
    RotateRightByIsRotation(XorShifted(prev), Rotation(prev));
  }

  /** What `gen_range(upper)` returns from the state before it: 0 for an empty
      range, else the next output reduced modulo `upper`. The `u32` remainder
      is taken on the numbers the bit patterns denote. */
  function RangeDraw(prev: bv64, upper: u32): (r: u32)
    ensures upper == 0 ==> r == 0
    ensures upper > 0 ==> r < upper
  {
    if upper == 0 then 0 else Output(prev) as int % upper
  }

  /** `Rng`: the LCG state and the odd increment fixed at construction. */
  class Rng {
    var state: bv64
    var inc: bv64

    /** The increment is odd, as a PCG stream requires. */
    predicate Valid()
      reads this
    {
      inc & 1 == 1
    }

    /** `Rng::new` once the eight seed bytes have been read and taken as a
        native-endian `u64` (all zero when `/dev/urandom` is unavailable). */
    constructor (seed: bv64)
      ensures Valid()
      ensures state == seed && inc == Increment(seed)
    {
      state := seed;
      inc := (seed >> 31) | 1;
    }

    /** One draw: advance the state by the LCG step and return the XSH-RR
        output of the state before it. The increment is unchanged. */
    method NextU32() returns (r: bv32)
      requires Valid()
      modifies this`state
      ensures Valid()
      ensures state == Step(old(state), inc)
      ensures r == Output(old(state))
    {
      var oldstate := state;
      state := Step(oldstate, inc);
      r := Output(oldstate);
    }

    /** `gen_range(upper)`: 0 without touching the state when `upper` is 0;
        otherwise exactly one draw, reduced below `upper`. */
    method GenRange(upper: u32) returns (r: u32)
      requires Valid()
      modifies this`state
      ensures Valid()
      ensures r == RangeDraw(old(state), upper)
      ensures state == if upper == 0 then old(state) else Step(old(state), inc)
    {
      if upper == 0 {
        return 0;
      }
      var x := NextU32();
      r := x as int % upper;
    }
  }

  /** With no entropy the seed is zero: the generator starts at state 0 with
      increment 1, its first output is 0 and its next state is 1. */
  lemma ZeroSeed()
    ensures Increment(0) == 1
    ensures Output(0) == 0
    ensures Step(0, Increment(0)) == 1
  {
  }
}
