/** Machine integers, big-endian fields and the two outcome datatypes shared by every module. */
module Prelude {
  type u8 = n: nat | n < 256
  type u16 = n: nat | n < 0x1_0000
  type u32 = n: nat | n < 0x1_0000_0000
  type u64 = n: nat | n < 0x1_0000_0000_0000_0000

  datatype Option<+T> = None | Some(value: T)

  datatype Result<+T> = Ok(value: T) | Err(error: string)

  function Min(a: int, b: int): int {
    if a <= b then a else b
  }

  function Max(a: int, b: int): int {
    if a <= b then b else a
  }

  lemma MulMonotone(a: nat, b: nat, k: nat)
    requires a <= b
    ensures a * k <= b * k
  {
  }

  lemma TakeNext<T>(s: seq<T>, k: nat)
    requires k < |s|
    ensures s[..k + 1] == s[..k] + [s[k]] && s[..k + 1][..k] == s[..k]
  {
  }

  lemma TakeDrop<T>(s: seq<T>, k: nat)
    requires k <= |s|
    ensures s == s[..k] + s[k..]
  {
  }

  /** `wrapping_sub` on 16-bit numbers: how far `to` lies ahead of `from`. */
  function Ahead16(from: u16, to: u16): u16 {
    (to - from) % 0x1_0000
  }

  /** `wrapping_add` on 16-bit and on 32-bit numbers. */
  function Wrapping16(n: u16, increment: nat): u16 {
    (n + increment) % 0x1_0000
  }

  function Wrapping32(n: u32, increment: nat): u32 {
    (n + increment) % 0x1_0000_0000
  }

  lemma Wrapping16Twice(n: u16, a: nat, b: nat)
    ensures Wrapping16(Wrapping16(n, a), b) == Wrapping16(n, a + b)
  {
  }

  lemma Wrapping32Twice(n: u32, a: nat, b: nat)
    ensures Wrapping32(Wrapping32(n, a), b) == Wrapping32(n, a + b)
  {
  }

  function Last<T>(s: seq<T>): Option<T> {
    if s == [] then None else Some(s[|s| - 1])
  }

  function Sum(s: seq<nat>): nat {
    if s == [] then 0 else Sum(s[..|s| - 1]) + s[|s| - 1]
  }

  lemma SumSnoc(s: seq<nat>, n: nat)
    ensures Sum(s + [n]) == Sum(s) + n
  {
    assert (s + [n])[..|s|] == s;
  }

  /** Network byte order (big endian), as `to_be_bytes` and `from_be_bytes` define it. */
  function Bytes16(n: u16): (b: seq<u8>)
    ensures |b| == 2
  {
    [n / 256, n % 256]
  }

  function High(n: u32): u16 {
    n / 0x1_0000
  }

  function Low(n: u32): u16 {
    n % 0x1_0000
  }

  function Bytes32(n: u32): (b: seq<u8>)
    ensures |b| == 4
  {
    Bytes16(High(n)) + Bytes16(Low(n))
  }

  function Word16(b0: u8, b1: u8): u16 {
    b0 * 256 + b1
  }

  function Join(high: u16, low: u16): (n: u32)
    ensures High(n) == high && Low(n) == low
  {
    high * 0x1_0000 + low
  }

  function Word32(b0: u8, b1: u8, b2: u8, b3: u8): u32 {
    Join(Word16(b0, b1), Word16(b2, b3))
  }

  lemma Word16Bytes(b0: u8, b1: u8)
    ensures Bytes16(Word16(b0, b1)) == [b0, b1]
  {
  }

  lemma Word16Inverts(n: u16)
    ensures var b := Bytes16(n); Word16(b[0], b[1]) == n
  {
  }

  lemma Word32Bytes(b0: u8, b1: u8, b2: u8, b3: u8)
    ensures Bytes32(Word32(b0, b1, b2, b3)) == [b0, b1, b2, b3]
  {
    Word16Bytes(b0, b1);
    Word16Bytes(b2, b3);
  }

  lemma Word32Inverts(n: u32)
    ensures var b := Bytes32(n); Word32(b[0], b[1], b[2], b[3]) == n
  {
    assert n == High(n) * 0x1_0000 + Low(n);
  }
}
