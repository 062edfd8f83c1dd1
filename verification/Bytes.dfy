/** Byte strings, fixed-width little-endian integers, and writes into a byte string. */
module Bytes {

  type byte = b: int | 0 <= b < 0x100
  type u32 = n: int | 0 <= n < 0x1_0000_0000
  type u64 = n: int | 0 <= n < 0x1_0000_0000_0000_0000

  const INT32_MAX: nat := 0x7fff_ffff
  const UINT32_MAX: nat := 0xffff_ffff
  const UINT64_MAX: nat := 0xffff_ffff_ffff_ffff

  // size_t is 64 bits wide on the platforms the database is built for.
  const SIZE_MAX: nat := UINT64_MAX

  datatype Option<+T> = None | Some(value: T)

  /** The two's-complement reading of the low 8 bits: a C cast to uint8_t. */
  function LowByte(n: nat): byte {
    n % 0x100
  }

  function StoreU32(v: u32): (s: seq<byte>)
    ensures |s| == 4
  {
    var shifted8 := v / 0x100;
    var shifted16 := shifted8 / 0x100;
    var shifted24 := shifted16 / 0x100;
    [LowByte(v), LowByte(shifted8), LowByte(shifted16), LowByte(shifted24)]
  }

  function LoadU32(s: seq<byte>): u32
    requires |s| >= 4
  {
    FromDigits(s[0], s[1], s[2], s[3])
  }

  function FromDigits(b0: int, b1: int, b2: int, b3: int): int {
    b0 + 0x100 * b1 + 0x1_0000 * b2 + 0x100_0000 * b3
  }

  function StoreU64(v: u64): (s: seq<byte>)
    ensures |s| == 8
  {
    StoreU32(v % 0x1_0000_0000) + StoreU32(v / 0x1_0000_0000)
  }

  function LoadU64(s: seq<byte>): u64
    requires |s| >= 8
  {
    LoadU32(s) + 0x1_0000_0000 * LoadU32(s[4..])
  }

  /** A number whose digits to the base 256 are the bytes, the least significant first. */
  function LittleEndian(s: seq<byte>): nat { if s == [] then 0 else s[0] + 0x100 * LittleEndian(s[1..]) }

  /** A load reads its bytes in that order. */
  lemma LoadIsLittleEndian(s: seq<byte>)
    requires 4 <= |s|
    ensures LoadU32(s) == LittleEndian(s[..4])
    ensures 8 <= |s| ==> LoadU64(s) == LittleEndian(s[..8])
  {
    FourBytes(s);
    if 8 <= |s| {
      FourBytes(s[4..]);
      LittleEndianConcat(s[..4], s[4..8]);
      assert s[..4] + s[4..8] == s[..8] && s[4..][..4] == s[4..8];
      assert Power256(4) == 0x100 * Power256(3) == 0x1_0000 * Power256(2) && Power256(2) == 0x1_0000;
    }
  }

  function Power256(n: nat): nat { if n == 0 then 1 else 0x100 * Power256(n - 1) }

  lemma FourBytes(s: seq<byte>)
    requires 4 <= |s|
    ensures LoadU32(s) == LittleEndian(s[..4])
  {
    hide LittleEndian;
    var t := s[..4];
    LittleEndianStep(t);
    LittleEndianStep(t[1..]);
    LittleEndianStep(t[1..][1..]);
    LittleEndianStep(t[1..][1..][1..]);
    assert t[1..][1..][1..][1..] == [];
    LittleEndianNone();
  }

  lemma LittleEndianNone()
    ensures LittleEndian([]) == 0
  {
  }

  lemma LittleEndianStep(s: seq<byte>)
    requires s != []
    ensures LittleEndian(s) == s[0] as int + 0x100 * LittleEndian(s[1..])
  {
  }

  lemma {:induction false} LittleEndianConcat(a: seq<byte>, b: seq<byte>)
    ensures LittleEndian(a + b) == LittleEndian(a) + Power256(|a|) * LittleEndian(b)
  {
    if a == [] {
      assert a + b == b;
    } else {
      LittleEndianConcat(a[1..], b);
      assert (a + b)[1..] == a[1..] + b;
      assert 0x100 * (Power256(|a| - 1) * LittleEndian(b)) == Power256(|a|) * LittleEndian(b);
    }
  }

  /** Loading what was stored gives it back, whatever bytes follow. */
  lemma LoadStoreU32(v: u32, rest: seq<byte>)
    ensures LoadU32(StoreU32(v) + rest) == v
  {
    var s := StoreU32(v) + rest;
    var q1 := v / 0x100;
    var q2 := q1 / 0x100;
    var q3 := q2 / 0x100;
    assert q3 % 0x100 == q3;
    assert s[0] == v % 0x100 && s[1] == q1 % 0x100 && s[2] == q2 % 0x100 && s[3] == q3;
  }

  lemma LoadStoreU64(v: u64, rest: seq<byte>)
    ensures LoadU64(StoreU64(v) + rest) == v
  {
    var lo: u32, hi: u32 := v % 0x1_0000_0000, v / 0x1_0000_0000;
    assert StoreU64(v) + rest == StoreU32(lo) + (StoreU32(hi) + rest);
    LoadStoreU32(lo, StoreU32(hi) + rest);
    assert (StoreU64(v) + rest)[4..] == StoreU32(hi) + rest;
    LoadStoreU32(hi, rest);
  }

  /** Storing what was loaded gives back the four bytes: the encoding is unique. */
  lemma StoreLoadU32(s: seq<byte>)
    requires |s| >= 4
    ensures StoreU32(LoadU32(s)) == s[..4]
  {
    var v := LoadU32(s);
    var b1: int, b2: int, b3: int := s[1], s[2], s[3];
    assert v / 0x100 == b1 + 0x100 * b2 + 0x1_0000 * b3;
    assert v / 0x100 / 0x100 == b2 + 0x100 * b3;
  }

  /** `data` written over `bytes` from `offset` on. */
  function WriteAt(bytes: seq<byte>, offset: nat, data: seq<byte>): (r: seq<byte>)
    requires offset + |data| <= |bytes|
    ensures |r| == |bytes|
  {
    bytes[..offset] + data + bytes[offset + |data|..]
  }

  function ReadAt(bytes: seq<byte>, offset: nat, size: nat): (r: seq<byte>)
    requires offset + size <= |bytes|
    ensures |r| == size
  {
    bytes[offset..offset + size]
  }

  lemma ReadBackWrite(bytes: seq<byte>, offset: nat, data: seq<byte>)
    requires offset + |data| <= |bytes|
    ensures ReadAt(WriteAt(bytes, offset, data), offset, |data|) == data
  {
  }

  /** A read that does not overlap a write does not see it. */
  lemma ReadOutsideWrite(bytes: seq<byte>, offset: nat, data: seq<byte>, at: nat, size: nat)
    requires offset + |data| <= |bytes| && at + size <= |bytes|
    requires at + size <= offset || offset + |data| <= at
    ensures ReadAt(WriteAt(bytes, offset, data), at, size) == ReadAt(bytes, at, size)
  {
  }

  /** A write inside a window is a write to the window. */
  lemma WindowOfWrite(bytes: seq<byte>, base: nat, size: nat, at: nat, data: seq<byte>)
    requires base + size <= |bytes| && at + |data| <= size
    ensures ReadAt(WriteAt(bytes, base + at, data), base, size) == WriteAt(ReadAt(bytes, base, size), at, data)
  {
    var written := WriteAt(bytes, base + at, data);
    var window := ReadAt(bytes, base, size);
    assert written[base..base + at] == window[..at];
    assert written[base + at..base + at + |data|] == data;
    assert written[base + at + |data|..base + size] == window[at + |data|..];
    assert written[base..base + size] ==
           written[base..base + at] + written[base + at..base + at + |data|] + written[base + at + |data|..base + size];
  }

  lemma ConcatAssoc<T>(a: seq<T>, b: seq<T>, c: seq<T>)
    ensures (a + b) + c == a + (b + c)
  {
  }

  /** A slice of a suffix is a slice of the whole. */
  lemma SliceOfDrop(s: seq<byte>, k: nat, from: nat, to: nat)
    requires k + to <= |s| && from <= to
    ensures s[k..][from..to] == s[k + from..k + to]
  {
  }

  lemma DropOfDrop(s: seq<byte>, k: nat, n: nat)
    requires k + n <= |s|
    ensures s[k..][n..] == s[k + n..]
  {
  }
}
