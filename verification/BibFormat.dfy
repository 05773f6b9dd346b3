/** The Boot Information Block: its 64-byte header and its aligned type-length-value records
    (include/atarix/bib.h). */
module BibFormat {
  import opened Bytes
  import opened Words
  import Crc

  const HEADER_SIZE: nat := 64
  const RECORD_HEADER_SIZE: nat := 16
  const REFERENCE_SIZE: nat := 40
  const MAX_SIZE: nat := 0x1_0000

  /** "ATARXBIB" */
  const MAGIC: seq<u8> := [0x41, 0x54, 0x41, 0x52, 0x58, 0x42, 0x49, 0x42]

  const SERVICE_DIRECTORY: u16 := 1
  const MEMORY_MAP: u16 := 2

  /** The header fields chosen by the producer. */
  datatype Header = Header(flags: u16, bootId: u64, producerId: u64, createdCounter: u64)

  /** A record as the producer adds it. */
  datatype Record = Record(recordType: u16, flags: u16, payload: seq<u8>)

  /** The fixed part of a reference payload. */
  datatype Reference = Reference(objectId: u64, address: u64, length: u64, formatMajor: u32, formatMinor: u32,
                                 integrityKind: u32, integrity: seq<u8>)

  predicate HeaderFlagsKnown(flags: u16) {
    flags < 0x10
  }

  predicate RecordFlagsKnown(flags: u16) {
    flags < 0x4
  }

  predicate Mandatory(flags: u16) {
    flags % 2 == 1
  }

  predicate KnownType(recordType: u16) {
    1 <= recordType <= 10
  }

  predicate IsRequired(recordType: u16) {
    recordType == SERVICE_DIRECTORY || recordType == MEMORY_MAP
  }

  /** No bit of a flag word from position n on. */
  predicate OnlyBitsBelow(flags: u16, n: nat) {
    forall i | n <= i < 16 :: !Digit(flags, i)
  }

  /** Header flags are known exactly when they are among bits 0 to 3: recovery boot, degraded
      boot, secure policy active, diagnostic boot. */
  lemma KnownHeaderFlags(flags: u16)
    ensures HeaderFlagsKnown(flags) <==> OnlyBitsBelow(flags, 4)
  {
    hide Digit;
    assert Pow2(4) == 0x10;
    Pow2Is16();
    BelowPow2Iff(flags, 4, 16);
  }

  /** Record flags are known exactly when they are among bits 0 and 1: mandatory, sensitive. */
  lemma KnownRecordFlags(flags: u16)
    ensures RecordFlagsKnown(flags) <==> OnlyBitsBelow(flags, 2)
    ensures Mandatory(flags) <==> Digit(flags, 0)
  {
    hide Digit;
    assert Pow2(2) == 4;
    Pow2Is16();
    BelowPow2Iff(flags, 2, 16);
    LowestDigit(flags);
  }

  lemma LowestDigit(flags: u16)
    ensures Digit(flags, 0) <==> flags % 2 == 1
  {
  }

  lemma Pow2Is16()
    ensures Pow2(16) == 0x1_0000
  {
    assert Pow2(8) == 0x100;
  }

  /** Every union of the four named header flags, and nothing else. */
  function HeaderFlags(recovery: bool, degraded: bool, secure: bool, diagnostic: bool): u16 {
    (if recovery then 1 else 0) + (if degraded then 2 else 0) + (if secure then 4 else 0) + (if diagnostic then 8 else 0)
  }

  lemma HeaderFlagsAreUnions(flags: u16)
    ensures OnlyBitsBelow(flags, 4) <==>
            exists recovery, degraded, secure, diagnostic :: flags == HeaderFlags(recovery, degraded, secure, diagnostic)
  {
    hide OnlyBitsBelow;
    KnownHeaderFlags(flags);
    if HeaderFlagsKnown(flags) {
      assert flags == HeaderFlags(flags % 2 == 1, flags / 2 % 2 == 1, flags / 4 % 2 == 1, flags / 8 == 1);
    }
  }

  /** The ten record types of version 1: service directory, memory map, boot device, boot image,
      boot arguments, console, supervisor, audit log, firmware build, entropy seed. */
  lemma KnownTypes(recordType: u16)
    ensures KnownType(recordType) <==> recordType in {1, 2, 3, 4, 5, 6, 7, 8, 9, 10}
    ensures IsRequired(recordType) <==> recordType in {1, 2}
  {
  }

  function Crc32c(data: seq<u8>): u32 {
    Crc.Checksum(data, Crc.CRC32C)
  }

  // ---- Header layout

  /** The block starts with this fixed header, field by field. */
  predicate IsHeader(s: seq<u8>, h: Header, total: u32, crc: u32, count: u32) {
    && |s| >= HEADER_SIZE
    && s[0..8] == MAGIC
    && s[8..10] == Le16(1)
    && s[10..12] == Le16(0)
    && s[12..14] == Le16(64)
    && s[14..16] == Le16(h.flags)
    && s[16..20] == Le32(total)
    && s[20..24] == Le32(crc)
    && s[24..32] == Le64(h.bootId)
    && s[32..40] == Le64(h.producerId)
    && s[40..48] == Le64(h.createdCounter)
    && s[48..52] == Le32(64)
    && s[52..56] == Le32(count)
    && s[56..64] == Zeros(8)
  }

  function HeaderFront(flags: u16, total: u32, crc: u32): (s: seq<u8>)
    ensures |s| == 24
  {
    MAGIC + Le16(1) + Le16(0) + Le16(64) + (Le16(flags) + Le32(total) + Le32(crc))
  }

  function HeaderBack(h: Header, count: u32): (s: seq<u8>)
    ensures |s| == 40
  {
    Le64(h.bootId) + Le64(h.producerId) + Le64(h.createdCounter) + (Le32(64) + Le32(count) + Zeros(8))
  }

  function HeaderBytes(h: Header, total: u32, crc: u32, count: u32): (s: seq<u8>)
    ensures |s| == HEADER_SIZE
  {
    HeaderFront(h.flags, total, crc) + HeaderBack(h, count)
  }

  lemma FrontFields(flags: u16, total: u32, crc: u32)
    ensures var s := HeaderFront(flags, total, crc);
      && s[0..8] == MAGIC && s[8..10] == Le16(1) && s[10..12] == Le16(0) && s[12..14] == Le16(64)
      && s[14..16] == Le16(flags) && s[16..20] == Le32(total) && s[20..24] == Le32(crc)
  {
    var ids := MAGIC + Le16(1) + Le16(0) + Le16(64);
    var tail := Le16(flags) + Le32(total) + Le32(crc);
    var s := ids + tail;
    assert ids[0..8] == MAGIC && ids[8..10] == Le16(1) && ids[10..12] == Le16(0) && ids[12..14] == Le16(64);
    assert tail[0..2] == Le16(flags) && tail[2..6] == Le32(total) && tail[6..10] == Le32(crc);
    assert s[0..8] == ids[0..8] && s[8..10] == ids[8..10] && s[10..12] == ids[10..12] && s[12..14] == ids[12..14];
    assert s[14..16] == tail[0..2] && s[16..20] == tail[2..6] && s[20..24] == tail[6..10];
  }

  lemma BackFields(h: Header, count: u32)
    ensures var s := HeaderBack(h, count);
      && s[0..8] == Le64(h.bootId) && s[8..16] == Le64(h.producerId) && s[16..24] == Le64(h.createdCounter)
      && s[24..28] == Le32(64) && s[28..32] == Le32(count) && s[32..40] == Zeros(8)
  {
    var ids := Le64(h.bootId) + Le64(h.producerId) + Le64(h.createdCounter);
    var tail := Le32(64) + Le32(count) + Zeros(8);
    var s := ids + tail;
    assert ids[0..8] == Le64(h.bootId) && ids[8..16] == Le64(h.producerId) && ids[16..24] == Le64(h.createdCounter);
    assert tail[0..4] == Le32(64) && tail[4..8] == Le32(count) && tail[8..16] == Zeros(8);
    assert s[0..8] == ids[0..8] && s[8..16] == ids[8..16] && s[16..24] == ids[16..24];
    assert s[24..28] == tail[0..4] && s[28..32] == tail[4..8] && s[32..40] == tail[8..16];
  }

  /** A block that starts with a header, whatever follows. */
  lemma HeaderOfBlock(h: Header, total: u32, crc: u32, count: u32, body: seq<u8>)
    ensures IsHeader(HeaderBytes(h, total, crc, count) + body, h, total, crc, count)
  {
    var front, back := HeaderFront(h.flags, total, crc), HeaderBack(h, count);
    FrontFields(h.flags, total, crc);
    BackFields(h, count);
    var s := HeaderBytes(h, total, crc, count) + body;
    assert s[0..8] == front[0..8] && s[8..10] == front[8..10] && s[10..12] == front[10..12];
    assert s[12..14] == front[12..14] && s[14..16] == front[14..16];
    assert s[16..20] == front[16..20] && s[20..24] == front[20..24];
    assert s[24..32] == back[0..8] && s[32..40] == back[8..16] && s[40..48] == back[16..24];
    assert s[48..52] == back[24..28] && s[52..56] == back[28..32] && s[56..64] == back[32..40];
  }

  /** The layout leaves nothing open. */
  lemma HeaderIsUnique(s: seq<u8>, h: Header, total: u32, crc: u32, count: u32)
    requires IsHeader(s, h, total, crc, count)
    ensures s[..HEADER_SIZE] == HeaderBytes(h, total, crc, count)
  {
    var t := HeaderBytes(h, total, crc, count);
    HeaderOfBlock(h, total, crc, count, []);
    assert t + [] == t;
    FrontParts(s);
    FrontParts(t);
    BackParts(s);
    BackParts(t);
    assert s[..HEADER_SIZE] == s[..24] + s[24..HEADER_SIZE] && t == t[..24] + t[24..HEADER_SIZE];
  }

  lemma FrontParts(s: seq<u8>)
    requires |s| >= HEADER_SIZE
    ensures s[..24] == s[0..8] + s[8..10] + s[10..12] + s[12..14] + s[14..16] + s[16..20] + s[20..24]
  {
  }

  lemma BackParts(s: seq<u8>)
    requires |s| >= HEADER_SIZE
    ensures s[24..HEADER_SIZE] == s[24..32] + s[32..40] + s[40..48] + s[48..52] + s[52..56] + s[56..64]
  {
  }

  /** Rewriting the length, checksum and count fields of a block gives the block with those
      fields. */
  lemma HeaderPatched(s: seq<u8>, t: seq<u8>, h: Header, total: u32, crc: u32, count: u32,
                      total': u32, crc': u32, count': u32)
    requires |s| == |t| && IsHeader(s, h, total, crc, count)
    requires forall i | 0 <= i < |s| && !(16 <= i < 24) && !(52 <= i < 56) :: s[i] == t[i]
    requires t[16..20] == Le32(total') && t[20..24] == Le32(crc') && t[52..56] == Le32(count')
    ensures t == HeaderBytes(h, total', crc', count') + s[HEADER_SIZE..]
  {
    assert t[0..8] == s[0..8] && t[8..10] == s[8..10] && t[10..12] == s[10..12];
    assert t[12..14] == s[12..14] && t[14..16] == s[14..16];
    assert t[24..32] == s[24..32] && t[32..40] == s[32..40] && t[40..48] == s[40..48];
    assert t[48..52] == s[48..52] && t[56..64] == s[56..64];
    HeaderIsUnique(t, h, total', crc', count');
    assert t[HEADER_SIZE..] == s[HEADER_SIZE..];
    assert t == t[..HEADER_SIZE] + t[HEADER_SIZE..];
  }

  /** What a reader of little-endian fields sees in a header. */
  predicate ReadsAsHeader(block: seq<u8>, h: Header, total: u32, crc: u32, count: u32)
    requires |block| >= HEADER_SIZE
  {
    && block[0..8] == MAGIC
    && Get16(block, 8) == 1 && Get16(block, 10) == 0 && Get16(block, 12) == 64 && Get16(block, 14) == h.flags
    && Get32(block, 16) == total && Get32(block, 20) == crc
    && Get64(block, 24) == h.bootId && Get64(block, 32) == h.producerId && Get64(block, 40) == h.createdCounter
    && Get32(block, 48) == 64 && Get32(block, 52) == count && Get64(block, 56) == 0
  }

  lemma HeaderReads(block: seq<u8>, h: Header, total: u32, crc: u32, count: u32)
    requires |block| >= HEADER_SIZE
    ensures IsHeader(block, h, total, crc, count) <==> ReadsAsHeader(block, h, total, crc, count)
  {
    FrontReads(block, h, total, crc);
    BackReads(block, h, count);
  }

  lemma FrontReads(s: seq<u8>, h: Header, total: u32, crc: u32)
    requires |s| >= HEADER_SIZE
    ensures s[8..10] == Le16(1) <==> Get16(s, 8) == 1
    ensures s[10..12] == Le16(0) <==> Get16(s, 10) == 0
    ensures s[12..14] == Le16(64) <==> Get16(s, 12) == 64
    ensures s[14..16] == Le16(h.flags) <==> Get16(s, 14) == h.flags
    ensures s[16..20] == Le32(total) <==> Get32(s, 16) == total
    ensures s[20..24] == Le32(crc) <==> Get32(s, 20) == crc
  {
    Field16(s, 8, 1);
    Field16(s, 10, 0);
    Field16(s, 12, 64);
    Field16(s, 14, h.flags);
    Field32(s, 16, total);
    Field32(s, 20, crc);
  }

  lemma BackReads(s: seq<u8>, h: Header, count: u32)
    requires |s| >= HEADER_SIZE
    ensures s[24..32] == Le64(h.bootId) <==> Get64(s, 24) == h.bootId
    ensures s[32..40] == Le64(h.producerId) <==> Get64(s, 32) == h.producerId
    ensures s[40..48] == Le64(h.createdCounter) <==> Get64(s, 40) == h.createdCounter
    ensures s[48..52] == Le32(64) <==> Get32(s, 48) == 64
    ensures s[52..56] == Le32(count) <==> Get32(s, 52) == count
    ensures s[56..64] == Zeros(8) <==> Get64(s, 56) == 0
  {
    hide Get64, Get32, Le64, Le32;
    Field64(s, 24, h.bootId);
    Field64(s, 32, h.producerId);
    Field64(s, 40, h.createdCounter);
    Field32(s, 48, 64);
    Field32(s, 52, count);
    Field64(s, 56, 0);
    Le64OfZero();
  }

  lemma Le64OfZero()
    ensures Le64(0) == Zeros(8)
  {
  }

  lemma Field16(s: seq<u8>, at: nat, v: u16)
    requires at + 2 <= |s|
    ensures s[at..at + 2] == Le16(v) <==> Get16(s, at) == v
  {
    Le16OfGet16(s, at);
    if s[at..at + 2] == Le16(v) {
      Get16OfLe16(s, at, v);
    }
  }

  lemma Field32(s: seq<u8>, at: nat, v: u32)
    requires at + 4 <= |s|
    ensures s[at..at + 4] == Le32(v) <==> Get32(s, at) == v
  {
    Le32OfGet32(s, at);
    if s[at..at + 4] == Le32(v) {
      Get32OfLe32(s, at, v);
    }
  }

  lemma Field64(s: seq<u8>, at: nat, v: u64)
    requires at + 8 <= |s|
    ensures s[at..at + 8] == Le64(v) <==> Get64(s, at) == v
  {
    Le64OfGet64(s, at);
    if s[at..at + 8] == Le64(v) {
      Get64OfLe64(s, at, v);
    }
  }

  // ---- Record layout

  /** Records that the builder can serialise: the aligned length fits 32 bits. */
  predicate Encodable(r: Record) {
    RecordFlagsKnown(r.flags) && RECORD_HEADER_SIZE + |r.payload| + 7 <= UINT32_MAX
  }

  function RecordLength(r: Record): (n: nat)
    ensures n % 8 == 0 && n >= RECORD_HEADER_SIZE + |r.payload|
    ensures n < RECORD_HEADER_SIZE + |r.payload| + 8
  {
    AlignUp8(RECORD_HEADER_SIZE + |r.payload|)
  }

  function RecordHead(r: Record): (s: seq<u8>)
    requires Encodable(r)
    ensures |s| == RECORD_HEADER_SIZE
  {
    Le16(r.recordType) + Le16(r.flags) + Le32(RecordLength(r)) + Le32(|r.payload|) + Zeros(4)
  }

  lemma RecordHeadFields(r: Record)
    requires Encodable(r)
    ensures var s := RecordHead(r);
      && s[0..2] == Le16(r.recordType) && s[2..4] == Le16(r.flags) && s[4..8] == Le32(RecordLength(r))
      && s[8..12] == Le32(|r.payload|) && s[12..16] == Zeros(4)
  {
    FiveSlices(Le16(r.recordType), Le16(r.flags), Le32(RecordLength(r)), Le32(|r.payload|), Zeros(4));
  }

  lemma FiveSlices(a: seq<u8>, b: seq<u8>, c: seq<u8>, d: seq<u8>, e: seq<u8>)
    requires |a| == |b| == 2 && |c| == |d| == |e| == 4
    ensures var s := a + b + c + d + e;
      s[0..2] == a && s[2..4] == b && s[4..8] == c && s[8..12] == d && s[12..16] == e
  {
  }

  function Padding(r: Record): seq<u8> {
    Zeros(RecordLength(r) - RECORD_HEADER_SIZE - |r.payload|)
  }

  function EncodeRecord(r: Record): (s: seq<u8>)
    requires Encodable(r)
    ensures |s| == RecordLength(r)
  {
    RecordHead(r) + (r.payload + Padding(r))
  }

  /** The record layout, field by field. */
  predicate IsRecord(s: seq<u8>, r: Record)
    requires Encodable(r)
  {
    && |s| == RecordLength(r)
    && s[0..2] == Le16(r.recordType)
    && s[2..4] == Le16(r.flags)
    && s[4..8] == Le32(RecordLength(r))
    && s[8..12] == Le32(|r.payload|)
    && s[12..16] == Zeros(4)
    && s[16..16 + |r.payload|] == r.payload
    && s[16 + |r.payload|..] == Padding(r)
  }

  lemma RecordIsUnique(s: seq<u8>, r: Record)
    requires Encodable(r) && IsRecord(s, r)
    ensures s == EncodeRecord(r)
  {
    var head := RecordHead(r);
    RecordHeadFields(r);
    assert s[..16] == s[0..2] + s[2..4] + s[4..8] + s[8..12] + s[12..16];
    assert head == head[0..2] + head[2..4] + head[4..8] + head[8..12] + head[12..16];
    assert s[16..] == s[16..16 + |r.payload|] + s[16 + |r.payload|..];
    assert s == s[..16] + s[16..];
  }

  lemma EncodedRecordIsRecord(r: Record)
    requires Encodable(r)
    ensures IsRecord(EncodeRecord(r), r)
  {
    var s, head := EncodeRecord(r), RecordHead(r);
    RecordHeadFields(r);
    assert s[..16] == head;
    assert s[0..2] == s[..16][0..2] && s[2..4] == s[..16][2..4] && s[4..8] == s[..16][4..8];
    assert s[8..12] == s[..16][8..12] && s[12..16] == s[..16][12..16];
    assert s[16..] == r.payload + Padding(r);
    assert s[16..16 + |r.payload|] == s[16..][..|r.payload|];
    assert s[16 + |r.payload|..] == s[16..][|r.payload|..];
  }

  predicate AllEncodable(rs: seq<Record>) {
    forall i | 0 <= i < |rs| :: Encodable(rs[i])
  }

  function EncodeAll(rs: seq<Record>): (s: seq<u8>)
    requires AllEncodable(rs)
    decreases |rs|
  {
    if rs == [] then [] else EncodeRecord(rs[0]) + EncodeAll(rs[1..])
  }

  lemma {:induction false} EncodeAllSize(rs: seq<Record>)
    requires AllEncodable(rs)
    ensures |EncodeAll(rs)| % 8 == 0 && |EncodeAll(rs)| >= 16 * |rs|
    decreases |rs|
  {
    if rs == [] {
    } else {
      EncodeAllSize(rs[1..]);
      EightsAdd(RecordLength(rs[0]), |EncodeAll(rs[1..])|);
    }
  }

  lemma EightsAdd(m: nat, n: nat)
    requires m % 8 == 0 && n % 8 == 0
    ensures (m + n) % 8 == 0
  {
  }

  lemma {:induction false} EncodeAllAppends(rs: seq<Record>, r: Record)
    requires AllEncodable(rs) && Encodable(r)
    ensures EncodeAll(rs + [r]) == EncodeAll(rs) + EncodeRecord(r)
    decreases |rs|
  {
    if rs == [] {
      assert [r][1..] == [];
      assert [] + [r] == [r];
    } else {
      assert (rs + [r])[1..] == rs[1..] + [r];
      EncodeAllAppends(rs[1..], r);
    }
  }

  /** A block before its lengths and checksum are written. */
  function OpenBlock(h: Header, rs: seq<Record>): (s: seq<u8>)
    requires AllEncodable(rs)
    ensures |s| == HEADER_SIZE + |EncodeAll(rs)|
  {
    HeaderBytes(h, 0, 0, 0) + EncodeAll(rs)
  }

  predicate FitsBlock(rs: seq<Record>) {
    AllEncodable(rs) && HEADER_SIZE + |EncodeAll(rs)| <= UINT32_MAX && |rs| <= UINT32_MAX
  }

  /** The checksum is computed with its own field set to zero. */
  function SealChecksum(h: Header, rs: seq<Record>): u32
    requires FitsBlock(rs)
  {
    Crc32c(HeaderBytes(h, HEADER_SIZE + |EncodeAll(rs)|, 0, |rs|) + EncodeAll(rs))
  }

  /** The serialised block. */
  function SealedBlock(h: Header, rs: seq<Record>): (s: seq<u8>)
    requires FitsBlock(rs)
    ensures |s| == HEADER_SIZE + |EncodeAll(rs)|
  {
    HeaderBytes(h, HEADER_SIZE + |EncodeAll(rs)|, SealChecksum(h, rs), |rs|) + EncodeAll(rs)
  }

  /** The payload of a reference without integrity data. */
  function EncodeReference(objectId: u64, address: u64, length: u64, formatMajor: u32, formatMinor: u32): (s: seq<u8>)
    ensures |s| == REFERENCE_SIZE
  {
    Le64(objectId) + Le64(address) + Le64(length) + Le32(formatMajor) + Le32(formatMinor) + Zeros(8)
  }
}
