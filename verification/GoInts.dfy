/** Go's fixed-width integers: arithmetic wraps around. */
module GoInts {
  const MIN_INT32 := -0x8000_0000
  const MAX_INT32 := 0x7FFF_FFFF
  const MIN_INT64 := -0x8000_0000_0000_0000
  const MAX_INT64 := 0x7FFF_FFFF_FFFF_FFFF

  type byte = x: int | 0 <= x < 256
  type int32 = x: int | MIN_INT32 <= x <= MAX_INT32
  type int64 = x: int | MIN_INT64 <= x <= MAX_INT64

  function Wrap32(x: int): int32 {
    (x - MIN_INT32) % 0x1_0000_0000 + MIN_INT32
  }

  function Wrap64(x: int): int64 {
    (x - MIN_INT64) % 0x1_0000_0000_0000_0000 + MIN_INT64
  }

  lemma WrapPeriod(x: int, k: int)
    ensures Wrap32(x + k * 0x1_0000_0000) == Wrap32(x)
  {
  }

  lemma WrapSubtract(a: int, b: int)
    ensures Wrap32(a - Wrap32(b)) == Wrap32(a - b)
  {
    var k := (b - MIN_INT32) / 0x1_0000_0000;
    assert Wrap32(b) == b - k * 0x1_0000_0000;
    WrapPeriod(a - b, k);
  }

  lemma WrapNegate(x: int32)
    ensures Wrap32(0 - x) == if x == MIN_INT32 then MIN_INT32 else 0 - x
  {
  }

  lemma WrapNext(x: int)
    ensures Wrap32(Wrap32(x) + 1) == Wrap32(x + 1)
  {
  }
}
