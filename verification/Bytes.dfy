/** Fixed-width integers, the page, and the little-endian encoding shared by the codecs. */
module Bytes {

  type byte = x: int | 0 <= x < 0x100
  type uint16 = x: int | 0 <= x < 0x1_0000
  type uint32 = x: int | 0 <= x < 0x1_0000_0000
  type uint64 = x: int | 0 <= x < 0x1_0000_0000_0000_0000

  /** The page of the firmware's allocator and of its memory map. */
  const PAGE_SIZE: nat := 0x1000

  const TWO_32: int := 0x1_0000_0000
  const TWO_63: int := 0x8000_0000_0000_0000
  const TWO_64: int := 0x1_0000_0000_0000_0000

  /** 64-bit arithmetic: the value modulo 2^64. */
  function Wrap(x: int): (w: uint64)
    ensures 0 <= x < 0x1_0000_0000_0000_0000 ==> w == x
  {
    x % 0x1_0000_0000_0000_0000
  }

  /** Wrapping early or late makes no difference to a sum. */
  lemma WrapSum(a: int, b: int)
    ensures Wrap(a + Wrap(b)) == Wrap(a + b)
  {
  }

  datatype Option<+T> = None | Some(value: T)

  /** The number of values that `width` bytes can hold. */
  function Capacity(width: nat): (c: nat)
    ensures c > 0
  {
    if width == 0 then 1 else 0x100 * Capacity(width - 1)
  }

  /** `v` modulo 2^(8 * width), least significant byte first. */
  function ToLe(width: nat, v: nat): (s: seq<byte>)
    ensures |s| == width
  {
    if width == 0 then [] else [v % 0x100] + ToLe(width - 1, v / 0x100)
  }

  function FromLe(s: seq<byte>): (v: nat)
    ensures v < Capacity(|s|)
  {
    if |s| == 0 then 0 else s[0] + 0x100 * FromLe(s[1..])
  }

  lemma {:induction false} DecodeEncoded(width: nat, v: nat)
    requires v < Capacity(width)
    ensures FromLe(ToLe(width, v)) == v
  {
    if width > 0 {
      DecodeEncoded(width - 1, v / 0x100);
      assert ToLe(width, v)[1..] == ToLe(width - 1, v / 0x100);
    }
  }

  lemma {:induction false} EncodeDecoded(s: seq<byte>)
    ensures ToLe(|s|, FromLe(s)) == s
  {
    if |s| > 0 {
      EncodeDecoded(s[1..]);
      assert FromLe(s) / 0x100 == FromLe(s[1..]);
    }
  }

  lemma Capacities()
    ensures Capacity(1) == 0x100
    ensures Capacity(2) == 0x1_0000
    ensures Capacity(4) == TWO_32
    ensures Capacity(8) == TWO_64
  {
    assert Capacity(3) == 0x100_0000;
    assert Capacity(5) == 0x100_0000_0000;
    assert Capacity(6) == 0x1_0000_0000_0000;
    assert Capacity(7) == 0x100_0000_0000_0000;
  }
}
