/**
  The on-disk page header of the storage engine and its checksum
  (src/storage/page_header.h): explicit little-endian reads and writes of
  16-, 32- and 64-bit fields, the packed 30-byte header, and the 32-bit
  FNV-1a checksum that covers bytes [4, 4096) of a page and is stored in
  bytes [0, 4).

  Byte buffers are modelled twice, as the source uses them: pure readers over
  `seq<byte>`, and writers that update a caller-owned `array<byte>` in place,
  each specified by a pure function of the old contents.
*/
module PageHeaderCodec {

  newtype byte = x: int | 0 <= x < 0x100
  newtype u16 = x: int | 0 <= x < 0x1_0000
  newtype u32 = x: int | 0 <= x < 0x1_0000_0000
  newtype u64 = x: int | 0 <= x < 0x1_0000_0000_0000_0000

  const PAGE_SIZE: nat := 4096
  const HEADER_SIZE: nat := 30
  /** The four bytes spelling "PAGE". */
  const PAGE_MAGIC: u32 := 0x5041_4745
  const INTERNAL_PAGE: u16 := 1
  const LEAF_PAGE: u16 := 2

  const FNV_OFFSET_BASIS: u32 := 2166136261
  const FNV_PRIME: nat := 16777619
  /** The inverse of FNV_PRIME modulo 2^32; it exists because the prime is odd. */
  const FNV_PRIME_INVERSE: nat := 0x359C_449B
  const TWO_32: nat := 0x1_0000_0000

  /** The packed header, field by field, at offsets 0, 4, 8, 10, 12, 20, 24, 26, 28. */
  datatype PageHeader = PageHeader(
    checksum: u32,
    magic: u32,
    version: u16,
    pageType: u16,
    lsn: u64,
    pageId: u32,
    upperPtr: u16,
    lowerPtr: u16,
    keyCount: u16)

  // ---------------------------------------------------------------------
  // Little-endian fields
  // ---------------------------------------------------------------------

  function ReadU16(s: seq<byte>, p: nat): u16
    requires p + 2 <= |s|
  {
    (s[p] as int + 0x100 * s[p + 1] as int) as u16
  }

  function ReadU32(s: seq<byte>, p: nat): u32
    requires p + 4 <= |s|
  {
    (s[p] as int + 0x100 * s[p + 1] as int + 0x1_0000 * s[p + 2] as int
      + 0x100_0000 * s[p + 3] as int) as u32
  }

  /** The low word comes first, as in two 32-bit reads. */
  function ReadU64(s: seq<byte>, p: nat): u64
    requires p + 8 <= |s|
  {
    (ReadU32(s, p) as int + TWO_32 * ReadU32(s, p + 4) as int) as u64
  }

  /** The two bytes `write_u16_le` stores: low byte first. */
  function Le16(v: u16): seq<byte>
  {
    [(v % 0x100) as byte, (v / 0x100 % 0x100) as byte]
  }

  function Le32(v: u32): seq<byte>
  {
    [(v % 0x100) as byte, (v / 0x100 % 0x100) as byte,
     (v / 0x1_0000 % 0x100) as byte, (v / 0x100_0000 % 0x100) as byte]
  }

  function Le64(v: u64): seq<byte>
  {
    Le32((v as int % TWO_32) as u32) + Le32((v as int / TWO_32 % TWO_32) as u32)
  }

  lemma ReadLe16(v: u16)
    ensures |Le16(v)| == 2 && ReadU16(Le16(v), 0) == v
  {
  }

  lemma ReadLe32(v: u32)
    ensures |Le32(v)| == 4 && ReadU32(Le32(v), 0) == v
  {
    var x := v as int;
    var q1, q2, q3 := x / 0x100, x / 0x1_0000, x / 0x100_0000;
    ShiftByte(x);
    ShiftByte(q1);
    ShiftByte(q2);
    assert q1 / 0x100 == q2 && q2 / 0x100 == q3;
    assert x == x % 0x100 + 0x100 * (q1 % 0x100) + 0x1_0000 * (q2 % 0x100) + 0x100_0000 * q3;
  }

  /** One byte shifted off the bottom of `x`. */
  lemma ShiftByte(x: nat)
    ensures x == x % 0x100 + 0x100 * (x / 0x100)
    ensures x / 0x100 / 0x100 == x / 0x1_0000
    ensures x / 0x1_0000 / 0x100 == x / 0x100_0000
  {
  }

  lemma ReadLe64(v: u64)
    ensures |Le64(v)| == 8 && ReadU64(Le64(v), 0) == v
  {
    ReadLe32((v as int % TWO_32) as u32);
    ReadLe32((v as int / TWO_32 % TWO_32) as u32);
    assert Le64(v)[4..8] == Le32((v as int / TWO_32 % TWO_32) as u32);
  }

  /** The other direction: the bytes a field is read from are exactly its encoding. */
  lemma Le16Read(s: seq<byte>, p: nat)
    requires p + 2 <= |s|
    ensures Le16(ReadU16(s, p)) == s[p..p + 2]
  {
  }

  lemma Le32Read(s: seq<byte>, p: nat)
    requires p + 4 <= |s|
    ensures Le32(ReadU32(s, p)) == s[p..p + 4]
  {
    var b0, b1, b2, b3 := s[p] as int, s[p + 1] as int, s[p + 2] as int, s[p + 3] as int;
    var v := ReadU32(s, p) as int;
    assert v == b0 + 0x100 * (b1 + 0x100 * (b2 + 0x100 * b3));
    SplitLowByte(b0, b1 + 0x100 * (b2 + 0x100 * b3));
    SplitLowByte(b1, b2 + 0x100 * b3);
    SplitLowByte(b2, b3);
    assert v / 0x1_0000 == (v / 0x100) / 0x100;
    assert v / 0x100_0000 == (v / 0x1_0000) / 0x100;
  }

  lemma SplitLowByte(lo: int, hi: int)
    requires 0 <= lo < 0x100 && 0 <= hi
    ensures (lo + 0x100 * hi) % 0x100 == lo && (lo + 0x100 * hi) / 0x100 == hi
  {
  }

  lemma SplitLowWord(lo: int, hi: int)
    requires 0 <= lo < TWO_32 && 0 <= hi
    ensures (lo + TWO_32 * hi) % TWO_32 == lo && (lo + TWO_32 * hi) / TWO_32 == hi
  {
  }

  lemma Le64Read(s: seq<byte>, p: nat)
    requires p + 8 <= |s|
    ensures Le64(ReadU64(s, p)) == s[p..p + 8]
  {
    var lo, hi := ReadU32(s, p), ReadU32(s, p + 4);
    var v := ReadU64(s, p);
    assert v as int == lo as int + TWO_32 * hi as int;
    SplitLowWord(lo as int, hi as int);
    assert (v as int % TWO_32) as u32 == lo;
    assert (v as int / TWO_32 % TWO_32) as u32 == hi;
    Le32Read(s, p);
    Le32Read(s, p + 4);
    assert s[p..p + 8] == s[p..p + 4] + s[p + 4..p + 8];
  }

  /** A read looks only at its own bytes. */
  lemma ReadU32Frame(s: seq<byte>, t: seq<byte>, p: nat)
    requires p + 4 <= |s| && p + 4 <= |t|
    requires s[p..p + 4] == t[p..p + 4]
    ensures ReadU32(s, p) == ReadU32(t, p)
  {
    assert s[p] == s[p..p + 4][0] && t[p] == t[p..p + 4][0];
    assert s[p + 1] == s[p..p + 4][1] && t[p + 1] == t[p..p + 4][1];
    assert s[p + 2] == s[p..p + 4][2] && t[p + 2] == t[p..p + 4][2];
    assert s[p + 3] == s[p..p + 4][3] && t[p + 3] == t[p..p + 4][3];
  }

  // ---------------------------------------------------------------------
  // Writes into a caller-owned buffer
  // ---------------------------------------------------------------------

  /** `s` with the bytes `w` stored at offset `p`. */
  function Splice(s: seq<byte>, p: nat, w: seq<byte>): (r: seq<byte>)
    requires p + |w| <= |s|
    ensures |r| == |s|
    ensures r[p..p + |w|] == w
    ensures forall j :: 0 <= j < |s| && !(p <= j < p + |w|) ==> r[j] == s[j]
  {
    s[..p] + w + s[p + |w|..]
  }

  /** Byte `j` after a splice: from `w` inside the written range, from `s` outside it. */
  lemma SpliceIndex(s: seq<byte>, p: nat, w: seq<byte>, j: nat)
    requires p + |w| <= |s| && j < |s|
    ensures Splice(s, p, w)[j] == if p <= j < p + |w| then w[j - p] else s[j]
  {
  }

  method WriteU16(a: array<byte>, p: nat, v: u16)
    requires p + 2 <= a.Length
    modifies a
    ensures a[..] == Splice(old(a[..]), p, Le16(v))
  {
    a[p] := (v % 0x100) as byte;
    a[p + 1] := (v / 0x100 % 0x100) as byte;
    assert a[..] == Splice(old(a[..]), p, Le16(v));
  }

  method WriteU32(a: array<byte>, p: nat, v: u32)
    requires p + 4 <= a.Length
    modifies a
    ensures a[..] == Splice(old(a[..]), p, Le32(v))
  {
    a[p] := (v % 0x100) as byte;
    a[p + 1] := (v / 0x100 % 0x100) as byte;
    a[p + 2] := (v / 0x1_0000 % 0x100) as byte;
    a[p + 3] := (v / 0x100_0000 % 0x100) as byte;
    assert a[..] == Splice(old(a[..]), p, Le32(v));
  }

  method WriteU64(a: array<byte>, p: nat, v: u64)
    requires p + 8 <= a.Length
    modifies a
    ensures a[..] == Splice(old(a[..]), p, Le64(v))
  {
    WriteU32(a, p, (v as int % TWO_32) as u32);
    WriteU32(a, p + 4, (v as int / TWO_32 % TWO_32) as u32);
    assert a[..] == Splice(old(a[..]), p, Le64(v));
  }

  /** A 16-bit write reads back as the value written. */
  lemma ReadAfterWrite16(s: seq<byte>, p: nat, v: u16)
    requires p + 2 <= |s|
    ensures ReadU16(Splice(s, p, Le16(v)), p) == v
  {
    var r := Splice(s, p, Le16(v));
    ReadLe16(v);
    ReadFromSlice16(r, p);
  }

  /** A 64-bit write reads back as the value written. */
  lemma ReadAfterWrite64(s: seq<byte>, p: nat, v: u64)
    requires p + 8 <= |s|
    ensures ReadU64(Splice(s, p, Le64(v)), p) == v
  {
    var r := Splice(s, p, Le64(v));
    ReadLe64(v);
    ReadFromSlice64(r, p);
  }

  /** A write changes only the bytes it covers and reads back as the value written. */
  lemma ReadAfterWrite32(s: seq<byte>, p: nat, v: u32)
    requires p + 4 <= |s|
    ensures ReadU32(Splice(s, p, Le32(v)), p) == v
  {
    var r := Splice(s, p, Le32(v));
    ReadLe32(v);
    assert r[p..p + 4] == Le32(v);
    assert r[p] == Le32(v)[0] && r[p + 1] == Le32(v)[1];
    assert r[p + 2] == Le32(v)[2] && r[p + 3] == Le32(v)[3];
  }

  // ---------------------------------------------------------------------
  // The header
  // ---------------------------------------------------------------------

  /** The 30 bytes `serialize_header` stores. */
  function EncodeHeader(h: PageHeader): (r: seq<byte>)
    ensures |r| == HEADER_SIZE
  {
    Le32(h.checksum) + Le32(h.magic) + Le16(h.version) + Le16(h.pageType)
      + Le64(h.lsn) + Le32(h.pageId) + Le16(h.upperPtr) + Le16(h.lowerPtr)
      + Le16(h.keyCount)
  }

  function DecodeHeader(s: seq<byte>): PageHeader
    requires HEADER_SIZE <= |s|
  {
    PageHeader(
      ReadU32(s, 0), ReadU32(s, 4), ReadU16(s, 8), ReadU16(s, 10),
      ReadU64(s, 12), ReadU32(s, 20), ReadU16(s, 24), ReadU16(s, 26),
      ReadU16(s, 28))
  }

  /** Decoding what was encoded gives back every field; bytes past the header do not matter. */
  lemma DecodeEncodeHeader(h: PageHeader, rest: seq<byte>)
    ensures DecodeHeader(EncodeHeader(h) + rest) == h
  {
    ReadLe32(h.checksum);
    ReadLe32(h.magic);
    ReadLe16(h.version);
    ReadLe16(h.pageType);
    ReadLe64(h.lsn);
    ReadLe32(h.pageId);
    ReadLe16(h.upperPtr);
    ReadLe16(h.lowerPtr);
    ReadLe16(h.keyCount);
    EncodedFront(h, rest);
    EncodedBack(h, rest);
  }

  /** Each field of the first twelve bytes reads back from its own encoding. */
  lemma EncodedFront(h: PageHeader, rest: seq<byte>)
    ensures ReadU32(EncodeHeader(h) + rest, 0) == ReadU32(Le32(h.checksum), 0)
    ensures ReadU32(EncodeHeader(h) + rest, 4) == ReadU32(Le32(h.magic), 0)
    ensures ReadU16(EncodeHeader(h) + rest, 8) == ReadU16(Le16(h.version), 0)
    ensures ReadU16(EncodeHeader(h) + rest, 10) == ReadU16(Le16(h.pageType), 0)
  {
    var s := EncodeHeader(h) + rest;
    ReadU32Shift(s, 0, Le32(h.checksum));
    ReadU32Shift(s, 4, Le32(h.magic));
    ReadU16Shift(s, 8, Le16(h.version));
    ReadU16Shift(s, 10, Le16(h.pageType));
  }

  /** Each field from byte 12 on reads back from its own encoding. */
  lemma EncodedBack(h: PageHeader, rest: seq<byte>)
    ensures ReadU64(EncodeHeader(h) + rest, 12) == ReadU64(Le64(h.lsn), 0)
    ensures ReadU32(EncodeHeader(h) + rest, 20) == ReadU32(Le32(h.pageId), 0)
    ensures ReadU16(EncodeHeader(h) + rest, 24) == ReadU16(Le16(h.upperPtr), 0)
    ensures ReadU16(EncodeHeader(h) + rest, 26) == ReadU16(Le16(h.lowerPtr), 0)
    ensures ReadU16(EncodeHeader(h) + rest, 28) == ReadU16(Le16(h.keyCount), 0)
  {
    var s := EncodeHeader(h) + rest;
    ReadU64Shift(s, 12, Le64(h.lsn));
    ReadU32Shift(s, 20, Le32(h.pageId));
    ReadU16Shift(s, 24, Le16(h.upperPtr));
    ReadU16Shift(s, 26, Le16(h.lowerPtr));
    ReadU16Shift(s, 28, Le16(h.keyCount));
  }

  /** A read at `p` sees the bytes `w` it finds there. */
  lemma ReadU16Shift(s: seq<byte>, p: nat, w: seq<byte>)
    requires p + 2 <= |s| && |w| == 2
    requires s[p] == w[0] && s[p + 1] == w[1]
    ensures ReadU16(s, p) == ReadU16(w, 0)
  {
  }

  lemma ReadU64Shift(s: seq<byte>, p: nat, w: seq<byte>)
    requires p + 8 <= |s| && |w| == 8
    requires s[p] == w[0] && s[p + 1] == w[1] && s[p + 2] == w[2] && s[p + 3] == w[3]
    requires s[p + 4] == w[4] && s[p + 5] == w[5] && s[p + 6] == w[6] && s[p + 7] == w[7]
    ensures ReadU64(s, p) == ReadU64(w, 0)
  {
  }

  lemma ReadU32Shift(s: seq<byte>, p: nat, w: seq<byte>)
    requires p + 4 <= |s| && |w| == 4
    requires s[p] == w[0] && s[p + 1] == w[1] && s[p + 2] == w[2] && s[p + 3] == w[3]
    ensures ReadU32(s, p) == ReadU32(w, 0)
  {
  }

  /** Encoding what was decoded gives back the 30 header bytes: the codec is a bijection. */
  lemma EncodeDecodeHeader(s: seq<byte>)
    requires HEADER_SIZE <= |s|
    ensures EncodeHeader(DecodeHeader(s)) == s[..HEADER_SIZE]
  {
    Le32Read(s, 0);
    Le32Read(s, 4);
    Le16Read(s, 8);
    Le16Read(s, 10);
    Le64Read(s, 12);
    Le32Read(s, 20);
    Le16Read(s, 24);
    Le16Read(s, 26);
    Le16Read(s, 28);
    SliceConcat(s, 0, 4, 8);
    SliceConcat(s, 0, 8, 10);
    SliceConcat(s, 0, 10, 12);
    SliceConcat(s, 0, 12, 20);
    SliceConcat(s, 0, 20, 24);
    SliceConcat(s, 0, 24, 26);
    SliceConcat(s, 0, 26, 28);
    SliceConcat(s, 0, 28, 30);
    assert s[..HEADER_SIZE] == s[0..30];
  }

  lemma SliceConcat(s: seq<byte>, a: nat, b: nat, c: nat)
    requires a <= b <= c <= |s|
    ensures s[a..c] == s[a..b] + s[b..c]
  {
  }

  lemma ReadFromSlice16(s: seq<byte>, p: nat)
    requires p + 2 <= |s|
    ensures ReadU16(s, p) == ReadU16(s[p..p + 2], 0)
  {
  }

  lemma ReadFromSlice32(s: seq<byte>, p: nat)
    requires p + 4 <= |s|
    ensures ReadU32(s, p) == ReadU32(s[p..p + 4], 0)
  {
  }

  lemma ReadFromSlice64(s: seq<byte>, p: nat)
    requires p + 8 <= |s|
    ensures ReadU64(s, p) == ReadU64(s[p..p + 8], 0)
  {
    ReadFromSlice32(s, p);
    ReadFromSlice32(s, p + 4);
    assert s[p..p + 8][4..8] == s[p + 4..p + 8];
  }

  /** `serialize_header`: stores every field at its fixed offset and nothing past byte 30. */
  method SerializeHeader(h: PageHeader, buf: array<byte>)
    requires HEADER_SIZE <= buf.Length
    modifies buf
    ensures buf[..] == Splice(old(buf[..]), 0, EncodeHeader(h))
  {
    WriteU32(buf, 0, h.checksum);
    WriteU32(buf, 4, h.magic);
    WriteU16(buf, 8, h.version);
    WriteU16(buf, 10, h.pageType);
    WriteU64(buf, 12, h.lsn);
    WriteU32(buf, 20, h.pageId);
    WriteU16(buf, 24, h.upperPtr);
    WriteU16(buf, 26, h.lowerPtr);
    WriteU16(buf, 28, h.keyCount);
    assert buf[..HEADER_SIZE] == buf[0..4] + buf[4..8] + buf[8..10] + buf[10..12]
      + buf[12..20] + buf[20..24] + buf[24..26] + buf[26..28] + buf[28..30];
    assert buf[..] == Splice(old(buf[..]), 0, EncodeHeader(h));
  }

  // ---------------------------------------------------------------------
  // FNV-1a checksum
  // ---------------------------------------------------------------------

  function Pow2(n: nat): (r: nat)
    ensures 1 <= r
  {
    if n == 0 then 1 else 2 * Pow2(n - 1)
  }

  /** Bitwise exclusive or of the low `n` bits of `x` and `y`. */
  function XorBits(x: nat, y: nat, n: nat): (r: nat)
    ensures r < Pow2(n)
  {
    if n == 0 then 0 else (x + y) % 2 + 2 * XorBits(x / 2, y / 2, n - 1)
  }

  /** `h ^ b` for a 32-bit `h` and a byte `b`: only the low eight bits change. */
  function XorByte(h: u32, b: byte): u32
  {
    (h as int / 0x100 * 0x100 + XorBits(h as int % 0x100, b as int, 8)) as u32
  }

  /** One FNV-1a round: `h := (h ^ b) * prime`, wrapped to 32 bits. */
  function FnvStep(h: u32, b: byte): u32
  {
    (XorByte(h, b) as int * FNV_PRIME % TWO_32) as u32
  }

  /** The running hash after folding every byte of `s` into `h`, left to right. */
  function FnvFold(h: u32, s: seq<byte>): u32
    decreases |s|
  {
    if s == [] then h else FnvFold(FnvStep(h, s[0]), s[1..])
  }

  /** `simple_checksum` of a byte range: the fold from the FNV offset basis. */
  function Fnv1a(s: seq<byte>): u32
  {
    FnvFold(FNV_OFFSET_BASIS, s)
  }

  lemma {:induction false} XorBitsInjective(x1: nat, x2: nat, y: nat, n: nat)
    requires x1 < Pow2(n) && x2 < Pow2(n)
    requires XorBits(x1, y, n) == XorBits(x2, y, n)
    ensures x1 == x2
  {
    if n > 0 {
      var a1, a2 := XorBits(x1 / 2, y / 2, n - 1), XorBits(x2 / 2, y / 2, n - 1);
      BitAndHalf((x1 + y) % 2, a1, (x2 + y) % 2, a2);
      HalfBelow(x1, Pow2(n - 1));
      HalfBelow(x2, Pow2(n - 1));
      XorBitsInjective(x1 / 2, x2 / 2, y / 2, n - 1);
      SameParity(x1, x2, y);
    }
  }

  /** A low bit and the rest above it determine each other. */
  lemma BitAndHalf(b1: int, a1: int, b2: int, a2: int)
    requires 0 <= b1 < 2 && 0 <= b2 < 2
    requires b1 + 2 * a1 == b2 + 2 * a2
    ensures b1 == b2 && a1 == a2
  {
  }

  lemma HalfBelow(x: nat, m: nat)
    requires x < 2 * m
    ensures x / 2 < m
  {
  }

  /** Equal parities after adding the same `y`, and equal halves, make equal numbers. */
  lemma SameParity(x1: nat, x2: nat, y: nat)
    requires (x1 + y) % 2 == (x2 + y) % 2 && x1 / 2 == x2 / 2
    ensures x1 == x2
  {
  }

  lemma {:induction false} XorBitsSymmetric(x: nat, y: nat, n: nat)
    ensures XorBits(x, y, n) == XorBits(y, x, n)
  {
    if n > 0 {
      XorBitsSymmetric(x / 2, y / 2, n - 1);
    }
  }

  lemma XorByteInjectiveInHash(h: u32, g: u32, b: byte)
    requires XorByte(h, b) == XorByte(g, b)
    ensures h == g
  {
    assert Pow2(8) == 0x100;
    var x := XorBits(h as int % 0x100, b as int, 8);
    var y := XorBits(g as int % 0x100, b as int, 8);
    SplitLowByte(x, h as int / 0x100);
    SplitLowByte(y, g as int / 0x100);
    XorBitsInjective(h as int % 0x100, g as int % 0x100, b as int, 8);
  }

  lemma XorByteInjectiveInByte(h: u32, b: byte, c: byte)
    requires XorByte(h, b) == XorByte(h, c)
    ensures b == c
  {
    assert Pow2(8) == 0x100;
    XorBitsSymmetric(h as int % 0x100, b as int, 8);
    XorBitsSymmetric(h as int % 0x100, c as int, 8);
    XorBitsInjective(b as int, c as int, h as int % 0x100, 8);
  }

  lemma ModShift(a: int, q: int)
    ensures (a + TWO_32 * q) % TWO_32 == a % TWO_32
  {
  }

  /** Multiplying by the odd prime modulo 2^32 is undone by its inverse. */
  lemma MulPrimeUndo(a: nat)
    requires a < TWO_32
    ensures (a * FNV_PRIME % TWO_32) * FNV_PRIME_INVERSE % TWO_32 == a
  {
    var r := a * FNV_PRIME % TWO_32;
    var q := a * FNV_PRIME / TWO_32;
    assert a * FNV_PRIME == q * TWO_32 + r;
    var k := FNV_PRIME * FNV_PRIME_INVERSE / TWO_32;
    assert FNV_PRIME * FNV_PRIME_INVERSE == k * TWO_32 + 1;
    calc {
      r * FNV_PRIME_INVERSE;
      (a * FNV_PRIME - q * TWO_32) * FNV_PRIME_INVERSE;
      a * (FNV_PRIME * FNV_PRIME_INVERSE) - q * FNV_PRIME_INVERSE * TWO_32;
      a * (k * TWO_32 + 1) - q * FNV_PRIME_INVERSE * TWO_32;
      a + TWO_32 * (a * k - q * FNV_PRIME_INVERSE);
    }
    ModShift(a, a * k - q * FNV_PRIME_INVERSE);
  }

  lemma MulPrimeInjective(a: nat, c: nat)
    requires a < TWO_32 && c < TWO_32
    requires a * FNV_PRIME % TWO_32 == c * FNV_PRIME % TWO_32
    ensures a == c
  {
    MulPrimeUndo(a);
    MulPrimeUndo(c);
  }

  /** Different running hashes stay different after the same byte. */
  lemma FnvStepInjectiveInHash(h: u32, g: u32, b: byte)
    requires FnvStep(h, b) == FnvStep(g, b)
    ensures h == g
  {
    MulPrimeInjective(XorByte(h, b) as int, XorByte(g, b) as int);
    XorByteInjectiveInHash(h, g, b);
  }

  /** The same running hash becomes different after different bytes. */
  lemma FnvStepInjectiveInByte(h: u32, b: byte, c: byte)
    requires FnvStep(h, b) == FnvStep(h, c)
    ensures b == c
  {
    MulPrimeInjective(XorByte(h, b) as int, XorByte(h, c) as int);
    XorByteInjectiveInByte(h, b, c);
  }

  lemma {:induction false} FnvFoldInjective(h: u32, g: u32, s: seq<byte>)
    requires FnvFold(h, s) == FnvFold(g, s)
    ensures h == g
    decreases |s|
  {
    if s != [] {
      FnvFoldInjective(FnvStep(h, s[0]), FnvStep(g, s[0]), s[1..]);
      FnvStepInjectiveInHash(h, g, s[0]);
    }
  }

  /** Changing exactly one byte of the input changes the fold. */
  lemma {:induction false} FnvFoldDetectsOneByte(h: u32, s: seq<byte>, i: nat, b: byte)
    requires i < |s| && b != s[i]
    ensures FnvFold(h, s[i := b]) != FnvFold(h, s)
    decreases |s|
  {
    var t := s[i := b];
    if i == 0 {
      assert t[1..] == s[1..];
      if FnvFold(h, t) == FnvFold(h, s) {
        FnvFoldInjective(FnvStep(h, b), FnvStep(h, s[0]), s[1..]);
        FnvStepInjectiveInByte(h, b, s[0]);
      }
    } else {
      assert t[1..] == s[1..][i - 1 := b];
      FnvFoldDetectsOneByte(FnvStep(h, s[0]), s[1..], i - 1, b);
    }
  }

  lemma {:induction false} FnvFoldAppend(h: u32, s: seq<byte>, b: byte)
    ensures FnvFold(h, s + [b]) == FnvStep(FnvFold(h, s), b)
    decreases |s|
  {
    if s != [] {
      assert (s + [b])[1..] == s[1..] + [b];
      FnvFoldAppend(FnvStep(h, s[0]), s[1..], b);
    }
  }

  /** `simple_checksum(data + from, len)`: the loop folds one byte per round into `sum`. */
  method SimpleChecksum(data: array<byte>, from: nat, len: nat) returns (sum: u32)
    requires from + len <= data.Length
    ensures sum == Fnv1a(data[from..from + len])
  {
    sum := FNV_OFFSET_BASIS;
    var i := 0;
    while i < len
      invariant i <= len
      invariant sum == Fnv1a(data[from..from + i])
    {
      FnvFoldAppend(FNV_OFFSET_BASIS, data[from..from + i], data[from + i]);
      assert data[from..from + i + 1] == data[from..from + i] + [data[from + i]];
      sum := FnvStep(sum, data[from + i]);
      i := i + 1;
    }
  }

  // ---------------------------------------------------------------------
  // Whole-page checksum
  // ---------------------------------------------------------------------

  /** The stored checksum (bytes 0..3) equals the hash of bytes [4, 4096). */
  ghost predicate PageChecksumOk(page: seq<byte>)
    requires |page| == PAGE_SIZE
  {
    ReadU32(page, 0) == Fnv1a(page[4..])
  }

  /** The page image `finalize_page_checksum` produces from `page`. */
  function Finalized(page: seq<byte>): (r: seq<byte>)
    requires |page| == PAGE_SIZE
    ensures |r| == PAGE_SIZE
    ensures r[4..] == page[4..]
    ensures PageChecksumOk(r)
  {
    var r := Le32(Fnv1a(page[4..])) + page[4..];
    assert r[4..] == page[4..];
    ReadLe32(Fnv1a(page[4..]));
    assert r[..4] == Le32(Fnv1a(page[4..]));
    ReadFromSlice32(r, 0);
    r
  }

  /** Sealing a page changes only the checksum field of its header. */
  lemma FinalizedHeader(page: seq<byte>)
    requires |page| == PAGE_SIZE
    ensures Finalized(page)[HEADER_SIZE..] == page[HEADER_SIZE..]
    ensures DecodeHeader(Finalized(page)) == DecodeHeader(page).(checksum := ReadU32(Finalized(page), 0))
  {
    var r := Finalized(page);
    forall j | 4 <= j < PAGE_SIZE
      ensures r[j] == page[j]
    {
      assert r[j] == r[4..][j - 4];
    }
    assert r[HEADER_SIZE..] == page[HEADER_SIZE..];
  }

  /** Writing an encoded header over the first 30 bytes makes them decode to that header. */
  lemma SplicedHeader(h: PageHeader, page: seq<byte>)
    requires HEADER_SIZE <= |page|
    ensures DecodeHeader(Splice(page, 0, EncodeHeader(h))) == h
    ensures Splice(page, 0, EncodeHeader(h))[HEADER_SIZE..] == page[HEADER_SIZE..]
  {
    var w := Splice(page, 0, EncodeHeader(h));
    assert w == EncodeHeader(h) + page[HEADER_SIZE..];
    DecodeEncodeHeader(h, page[HEADER_SIZE..]);
  }

  /** `finalize_page_checksum`: only bytes 0..3 change, and afterwards the page verifies. */
  method FinalizePageChecksum(page: array<byte>)
    requires page.Length == PAGE_SIZE
    modifies page
    ensures page[..] == Finalized(old(page[..]))
  {
    var cs := SimpleChecksum(page, 4, PAGE_SIZE - 4);
    assert page[4..4 + (PAGE_SIZE - 4)] == page[4..];
    WriteU32(page, 0, cs);
    assert page[..] == Finalized(old(page[..]));
  }

  /** `verify_page_checksum`. */
  method VerifyPageChecksum(page: array<byte>) returns (ok: bool)
    requires page.Length == PAGE_SIZE
    ensures ok == PageChecksumOk(page[..])
  {
    var stored := ReadU32(page[..], 0);
    var computed := SimpleChecksum(page, 4, PAGE_SIZE - 4);
    assert page[4..4 + (PAGE_SIZE - 4)] == page[..][4..];
    ok := stored == computed;
  }

  /**
    Corruption detection: changing any single byte of a page whose checksum
    verifies makes it fail. For bytes [4, 4096) the recomputed hash changes; for
    bytes [0, 4) the stored value changes while the hash does not.
  */
  lemma OneByteChangeIsDetected(page: seq<byte>, i: nat, b: byte)
    requires |page| == PAGE_SIZE && PageChecksumOk(page)
    requires i < PAGE_SIZE && b != page[i]
    ensures !PageChecksumOk(page[i := b])
  {
    var t := page[i := b];
    if 4 <= i {
      assert t[..4] == page[..4];
      ReadU32Frame(page, t, 0);
      assert t[4..] == page[4..][i - 4 := b];
      FnvFoldDetectsOneByte(FNV_OFFSET_BASIS, page[4..], i - 4, b);
    } else {
      assert t[4..] == page[4..];
      Le32Read(page, 0);
      Le32Read(t, 0);
      assert t[0..4] != page[0..4] by {
        assert t[0..4][i] == b && page[0..4][i] == page[i];
      }
    }
  }
}
