/** `p2d::Util`: a 32-bit state advanced by a fixed odd step and mixed by two
    64-bit multiply-xor rounds. Only the integer generators are modelled. */
module P2dUtil {
  import opened Bytes

  const Step: bv32 := 0xe120fc15

  /** As many draws as there are states. */
  const Period: nat := 0x1_0000_0000

  /** The value random() returns for the state it has just stepped to. */
  function Mix(state: bv32): bv32
  {
    var tmp := (state as bv64) * 0x4a39b70d;
    var m1 := (((tmp >> 32) ^ tmp) & 0xFFFF_FFFF) as bv32;
    var tmp2 := (m1 as bv64) * 0x12fad5c9;
    (((tmp2 >> 32) ^ tmp2) & 0xFFFF_FFFF) as bv32
  }

  /** The state after `k` calls to random() from `seed`. */
  function StateAfter(seed: bv32, k: nat): bv32
  {
    if k == 0 then seed else StateAfter(seed, k - 1) + Step
  }

  /** The `k`-th output (k >= 1) after seeding with `seed`. */
  function Output(seed: bv32, k: nat): u32
    requires k >= 1
  {
    Mix(StateAfter(seed, k)) as int
  }

  /** The `k`-th output stored in an `int`, as `int id = random()` does. */
  function Draw(seed: bv32, k: nat): i32
    requires k >= 1
  {
    ToSigned(Output(seed, k))
  }

  /** Walking the generator is compositional: `a` calls and then `b` calls
      land where `a + b` calls do. */
  lemma {:induction false} StateAfterAdd(seed: bv32, a: nat, b: nat)
    ensures StateAfter(StateAfter(seed, a), b) == StateAfter(seed, a + b)
    decreases b
  {
    if b > 0 {
      StateAfterAdd(seed, a, b - 1);
    }
  }

  /** randomInt's arithmetic: `(random() % (max - min)) + min` with `max - min`
      converted to unsigned, the sum taken modulo 2^32 and the result stored
      back in an int. */
  function ScaleToRange(raw: u32, min: i32, max: i32): (r: i32)
    requires max != min && -0x8000_0000 <= max - min < 0x8000_0000
    ensures min < max ==> min <= r < max && r - min == raw % (max - min)
  {
    var span := ToUnsigned(max - min);
    var k := raw % span;
    if min < max then
      OffsetWraps(k, min, max);
      ToSigned((k + ToUnsigned(min)) % TwoTo32)
    else
      ToSigned((k + ToUnsigned(min)) % TwoTo32)
  }

  /** Adding an in-range offset to `min` in unsigned arithmetic and storing
      the result in an int gives the mathematical sum. */
  lemma OffsetWraps(k: int, min: i32, max: i32)
    requires min < max && 0 <= k < max - min && max - min < 0x8000_0000
    ensures 0 <= k + ToUnsigned(min) < 2 * TwoTo32
    ensures ToSigned((k + ToUnsigned(min)) % TwoTo32) == min + k
  {
    var s := k + ToUnsigned(min);
    if min >= 0 {
      assert s == min + k < TwoTo32;
      assert s % TwoTo32 == s;
    } else if min + k < 0 {
      assert s == min + k + TwoTo32;
      assert s % TwoTo32 == s;
    } else {
      assert s == min + k + TwoTo32;
      assert s % TwoTo32 == min + k;
    }
  }

  class Util {
    var lehmer: bv32

    /** A new generator starts from state 0. */
    constructor ()
      ensures lehmer == 0
    {
      lehmer := 0;
    }

    /** random(): step the state, return its mix. */
    method Random() returns (r: u32)
      modifies this
      ensures lehmer == StateAfter(old(lehmer), 1)
      ensures r == Output(old(lehmer), 1)
    {
      lehmer := lehmer + Step;
      r := Mix(lehmer) as int;
    }

    /** randomInt(min, max). The source divides by `max - min`, so equal bounds
        and an overflowing difference are undefined there. */
    method RandomInt(min: i32, max: i32) returns (r: i32)
      requires max != min && -0x8000_0000 <= max - min < 0x8000_0000
      modifies this
      ensures lehmer == StateAfter(old(lehmer), 1)
      ensures r == ScaleToRange(Output(old(lehmer), 1), min, max)
      ensures min < max ==> min <= r < max
    {
      var raw := Random();
      r := ScaleToRange(raw, min, max);
    }

    /** randomSeed(seed): every later output is `Output(seed, k)`. */
    method RandomSeed(seed: bv32)
      modifies this
      ensures lehmer == seed && lehmer == StateAfter(seed, 0)
    {
      lehmer := seed;
    }
  }
}
