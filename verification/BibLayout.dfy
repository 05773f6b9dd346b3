/** The reader against the written format: which bytes make a record, a reference, a header and
    a whole block that it takes, and what it says of all others. */
module BibLayout {
  import opened Bytes
  import opened Words
  import opened BibFormat
  import opened BibReader
  import opened BibDecoding
  import opened BibRoundTrip
  import opened SimBib
  import B = BibBuilder
  import Crc

  // ---- Records

  /** The bytes from `offset` on are this record; what stands behind its payload is free. */
  predicate RecordLaidOut(block: seq<u8>, offset: nat, v: RecordView) {
    && v.serializedLength % 8 == 0 && 16 + |v.payload| <= v.serializedLength && offset + v.serializedLength <= |block|
    && OnlyBitsBelow(v.flags, 2)
    && block[offset..offset + 2] == Le16(v.recordType)
    && block[offset + 2..offset + 4] == Le16(v.flags)
    && block[offset + 4..offset + 8] == Le32(v.serializedLength)
    && block[offset + 8..offset + 12] == Le32(|v.payload|)
    && block[offset + 12..offset + 16] == [0, 0, 0, 0]
    && block[offset + 16..offset + 16 + |v.payload|] == v.payload
  }

  /** The reader finds a record exactly where its bytes are. */
  lemma RecordAtIff(block: seq<u8>, offset: nat, v: RecordView)
    ensures RecordAt(block, offset) == Found(v) <==> RecordLaidOut(block, offset, v)
  {
    hide OnlyBitsBelow, Le16, Le32;
    KnownRecordFlags(v.flags);
    if offset + 16 <= |block| && |v.payload| <= UINT32_MAX {
      Field16(block, offset, v.recordType);
      Field16(block, offset + 2, v.flags);
      Field32(block, offset + 4, v.serializedLength);
      Field32(block, offset + 8, |v.payload|);
      Field32(block, offset + 12, 0);
      Le32OfZero();
      assert Zeros(4) == [0, 0, 0, 0];
      hide Get16, Get32;
    }
  }

  /** The two lengths of a record fit each other and the block. */
  predicate LengthsFit(block: seq<u8>, offset: nat) {
    && offset + 16 <= |block|
    && Get32(block, offset + 4) % 8 == 0
    && 16 + Get32(block, offset + 8) <= Get32(block, offset + 4) <= |block| - offset
  }

  /** Anything else is out of bounds, or has bits or bytes set that are reserved. */
  lemma RecordErrors(block: seq<u8>, offset: nat)
    ensures RecordAt(block, offset) == Bad(TlvBoundsError) <==> !LengthsFit(block, offset)
    ensures RecordAt(block, offset) == Bad(TlvReservedError) <==>
            && LengthsFit(block, offset)
            && !(OnlyBitsBelow(Get16(block, offset + 2), 2) && block[offset + 12..offset + 16] == [0, 0, 0, 0])
  {
    hide OnlyBitsBelow, Le32;
    if offset + 16 <= |block| {
      KnownRecordFlags(Get16(block, offset + 2));
      Field32(block, offset + 12, 0);
      Le32OfZero();
      assert Zeros(4) == [0, 0, 0, 0];
    }
    hide Get16, Get32;
  }

  // ---- References

  /** A reference with its integrity data. */
  function ReferenceBytes(r: Reference): (s: seq<u8>)
    requires |r.integrity| <= UINT32_MAX
    ensures |s| == 40 + |r.integrity|
  {
    (Le64(r.objectId) + Le64(r.address) + Le64(r.length)
     + (Le32(r.formatMajor) + Le32(r.formatMinor) + Le32(r.integrityKind) + Le32(|r.integrity|)))
    + r.integrity
  }

  lemma ReferenceParts(s: seq<u8>, r: Reference)
    requires |r.integrity| <= UINT32_MAX && |s| >= 40 + |r.integrity|
    ensures ReferenceBytes(r) <= s <==>
            && s[0..8] == Le64(r.objectId) && s[8..16] == Le64(r.address) && s[16..24] == Le64(r.length)
            && s[24..28] == Le32(r.formatMajor) && s[28..32] == Le32(r.formatMinor)
            && s[32..36] == Le32(r.integrityKind) && s[36..40] == Le32(|r.integrity|)
            && s[40..40 + |r.integrity|] == r.integrity
  {
    hide Le64, Le32;
    var t := ReferenceBytes(r);
    ReferenceSlicesOf(Le64(r.objectId), Le64(r.address), Le64(r.length), Le32(r.formatMajor), Le32(r.formatMinor),
                      Le32(r.integrityKind), Le32(|r.integrity|), r.integrity);
    assert t[40..] == r.integrity;
    hide ReferenceBytes;
    PrefixByParts(s, t);
  }

  lemma PrefixByParts(s: seq<u8>, t: seq<u8>)
    requires 40 <= |t| <= |s|
    ensures t <= s <==>
            && s[0..8] == t[0..8] && s[8..16] == t[8..16] && s[16..24] == t[16..24] && s[24..28] == t[24..28]
            && s[28..32] == t[28..32] && s[32..36] == t[32..36] && s[36..40] == t[36..40] && s[40..|t|] == t[40..]
  {
    if t <= s {
      assert s[..|t|] == t && t[40..|t|] == t[40..];
      assert forall i, j | 0 <= i <= j <= |t| :: s[i..j] == s[..|t|][i..j];
    }
    AgreeUpTo(s, t, 0, 8);
    AgreeUpTo(s, t, 8, 16);
    AgreeUpTo(s, t, 16, 24);
    AgreeUpTo(s, t, 24, 28);
    AgreeUpTo(s, t, 28, 32);
    AgreeUpTo(s, t, 32, 36);
    AgreeUpTo(s, t, 36, 40);
    AgreeUpTo(s, t, 40, |t|);
    assert t[40..|t|] == t[40..] && t[..|t|] == t && s[..0] == t[..0];
  }

  lemma AgreeUpTo(s: seq<u8>, t: seq<u8>, i: nat, j: nat)
    requires i <= j <= |s| && j <= |t|
    ensures s[..i] == t[..i] && s[i..j] == t[i..j] ==> s[..j] == t[..j]
  {
    if s[..i] == t[..i] && s[i..j] == t[i..j] {
      assert s[..j] == s[..i] + s[i..j] && t[..j] == t[..i] + t[i..j];
    }
  }

  lemma ReferenceSlicesOf(a: seq<u8>, b: seq<u8>, c: seq<u8>, d: seq<u8>, e: seq<u8>, f: seq<u8>, g: seq<u8>, h: seq<u8>)
    requires |a| == |b| == |c| == 8 && |d| == |e| == |f| == |g| == 4
    ensures var s := (a + b + c + (d + e + f + g)) + h;
      && |s| == 40 + |h|
      && s[0..8] == a && s[8..16] == b && s[16..24] == c && s[24..28] == d && s[28..32] == e
      && s[32..36] == f && s[36..40] == g && s[40..40 + |h|] == h
  {
    var u, v := d + e + f + g, a + b + c;
    assert u[0..4] == d && u[4..8] == e && u[8..12] == f && u[12..16] == g;
    assert v[0..8] == a && v[8..16] == b && v[16..24] == c;
    var s := v + u + h;
    assert s[0..8] == v[0..8] && s[8..16] == v[8..16] && s[16..24] == v[16..24];
    assert s[24..28] == u[0..4] && s[28..32] == u[4..8] && s[32..36] == u[8..12] && s[36..40] == u[12..16];
  }

  /** A payload parses to a reference exactly when it starts with that reference's bytes,
      integrity kind and data included; and otherwise for one of two reasons. */
  lemma ParseReferenceIff(payload: seq<u8>, r: Reference)
    requires |r.integrity| <= UINT32_MAX
    ensures ParseReference(payload) == FoundReference(r) <==> ReferenceBytes(r) <= payload
    ensures ParseReference(payload) == NoReference(TlvBoundsError) <==> |payload| < 40
    ensures ParseReference(payload) == NoReference(ReferenceIntegrityError) <==>
            |payload| >= 40 && Get32(payload, 36) > |payload| - 40
  {
    hide Le64, Le32, ReferenceBytes;
    if |payload| >= 40 + |r.integrity| {
      ReferenceParts(payload, r);
      Field64(payload, 0, r.objectId);
      Field64(payload, 8, r.address);
      Field64(payload, 16, r.length);
      Field32(payload, 24, r.formatMajor);
      Field32(payload, 28, r.formatMinor);
      Field32(payload, 32, r.integrityKind);
      Field32(payload, 36, |r.integrity|);
    }
    hide Get64, Get32;
  }

  // ---- The header

  /** The verdict on a header, byte by byte. */
  lemma HeaderVerdict(window: seq<u8>)
    ensures CheckHeader(window) ==
      if |window| < 64 then WindowError
      else if window[0..8] != [0x41, 0x54, 0x41, 0x52, 0x58, 0x42, 0x49, 0x42] then MagicError
      else if window[8..10] != [1, 0] then VersionError
      else if window[12..14] != [64, 0] then HeaderLengthError
      else if !(64 <= Get32(window, 16) <= |window| && Get32(window, 16) <= 0x1_0000 && Get32(window, 16) % 8 == 0)
      then TotalLengthError
      else if window[20..24] != Le32(Crc32c(window[..20] + [0, 0, 0, 0] + window[24..Get32(window, 16)])) then CrcError
      else if !(OnlyBitsBelow(Get16(window, 14), 4) && window[56..64] == [0, 0, 0, 0, 0, 0, 0, 0]) then HeaderReservedError
      else if !(64 <= Get32(window, 48) <= Get32(window, 16) && Get32(window, 48) % 8 == 0) then TlvBoundsError
      else Ok
  {
    if |window| >= 64 {
      FixedFields(window);
      if 64 <= Get32(window, 16) <= |window| {
        BlankedParts(window, Get32(window, 16));
        Field32(window, 20, Crc32c(Crc.Blanked(window[..Get32(window, 16)], 20, 24)));
      }
      KnownHeaderFlags(Get16(window, 14));
      hide Get16, Get32, Get64, Crc32c, Crc.Blanked, OnlyBitsBelow, Le32;
    }
  }

  lemma FixedFields(s: seq<u8>)
    requires |s| >= 64
    ensures Get16(s, 8) == 1 <==> s[8..10] == [1, 0]
    ensures Get16(s, 12) == 64 <==> s[12..14] == [64, 0]
    ensures Get64(s, 56) == 0 <==> s[56..64] == [0, 0, 0, 0, 0, 0, 0, 0]
  {
    Field16(s, 8, 1);
    Field16(s, 12, 64);
    Field64(s, 56, 0);
    Le64OfZero();
    assert Zeros(8) == [0, 0, 0, 0, 0, 0, 0, 0];
    hide Get16, Get64, Le64;
  }

  lemma BlankedParts(window: seq<u8>, total: nat)
    requires 64 <= total <= |window|
    ensures Crc.Blanked(window[..total], 20, 24) == window[..20] + [0, 0, 0, 0] + window[24..total]
  {
  }

  /** What an opened view holds, field by field; a block that is refused leaves it cleared. */
  lemma ViewFields(window: seq<u8>)
    ensures var view := ViewAfter(window);
      if OpenResult(window) == Ok then
        && 64 <= |view.block| <= |window| && view.block == window[..|view.block|]
        && window[14..16] == Le16(view.flags) && window[16..20] == Le32(|view.block|)
        && window[24..32] == Le64(view.bootId) && window[32..40] == Le64(view.producerId)
        && window[40..48] == Le64(view.createdCounter)
        && window[48..52] == Le32(view.tlvOffset) && window[52..56] == Le32(view.tlvCount)
      else view == ViewData([], 0, 0, 0, 0, 0, 0)
  {
    hide Walk, Get16, Get32, Get64, Le16, Le32, Le64;
    if OpenResult(window) == Ok {
      HeaderVerdict(window);
      hide CheckHeader;
      Le16OfGet16(window, 14);
      Le32OfGet32(window, 16);
      Le64OfGet64(window, 24);
      Le64OfGet64(window, 32);
      Le64OfGet64(window, 40);
      Le32OfGet32(window, 48);
      Le32OfGet32(window, 52);
    }
  }

  // ---- The whole block

  /** What is wrong with the bytes at an offset, as a record that no reader passes over. */
  function RecordFault(block: seq<u8>, offset: nat): Error {
    if !LengthsFit(block, offset) then TlvBoundsError
    else if !(OnlyBitsBelow(Get16(block, offset + 2), 2) && block[offset + 12..offset + 16] == [0, 0, 0, 0])
    then TlvReservedError
    else if Get16(block, offset) !in {1, 2, 3, 4, 5, 6, 7, 8, 9, 10} && Digit(Get16(block, offset + 2), 0)
    then UnknownMandatoryError
    else if Get32(block, offset + 8) < 40 then TlvBoundsError
    else ReferenceOverflowError
  }

  predicate AllLaidOut(block: seq<u8>, offset: nat, views: seq<RecordView>) {
    forall i | 0 <= i < |views| ::
      RecordLaidOut(block, OffsetOf(views, offset, i), views[i]) && Admissible(Plain(views[i]))
  }

  /** The verdict on any block whose header passed: the records up to the count are there and
      admissible, and the end of the block and the required types decide; or the first one that
      is not decides. */
  lemma OpenVerdict(window: seq<u8>) returns (views: seq<RecordView>)
    requires CheckHeader(window) == Ok
    ensures AllLaidOut(BlockOf(window), Get32(window, 48), views) && |views| <= Get32(window, 52)
    ensures var block := BlockOf(window);
      var end := OffsetOf(views, Get32(window, 48), |views|);
      OpenResult(window) ==
      if |views| < Get32(window, 52) then RecordFault(block, end)
      else if end != |block| then TlvBoundsError
      else if CountOf(PlainAll(views), 1) != 1 || CountOf(PlainAll(views), 2) != 1 then RequiredRecordError
      else Ok
  {
    hide Walk, CheckHeader, RecordAt, Get32, Admissible, RecordLaidOut, CheckRecord, RecordFault;
    var block, offset := BlockOf(window), Get32(window, 48);
    views := WalkVerdict(block, offset, Get32(window, 52), 0, 0);
    forall i | 0 <= i < |views|
      ensures RecordLaidOut(block, OffsetOf(views, offset, i), views[i])
    {
      RecordAtIff(block, OffsetOf(views, offset, i), views[i]);
    }
    if |views| < Get32(window, 52) {
      FaultDecides(block, OffsetOf(views, offset, |views|));
    }
  }

  lemma FaultDecides(block: seq<u8>, offset: nat)
    requires RecordAt(block, offset).Found? ==> !Admissible(Plain(RecordAt(block, offset).record))
    ensures RecordFault(block, offset) ==
      match RecordAt(block, offset)
      case Bad(error) => error
      case Found(r) => CheckRecord(r.recordType, r.flags, r.payload)
  {
    RecordErrors(block, offset);
    OnlyTwoErrors(block, offset);
    if RecordAt(block, offset).Found? {
      var r := RecordAt(block, offset).record;
      CheckIsAdmissible(Plain(r));
      FoundFields(block, offset);
    }
    hide RecordAt, Get16, Get32, Admissible, CheckRecord, OnlyBitsBelow, Digit;
  }

  lemma OnlyTwoErrors(block: seq<u8>, offset: nat)
    ensures RecordAt(block, offset).Found? ||
            RecordAt(block, offset) == Bad(TlvBoundsError) || RecordAt(block, offset) == Bad(TlvReservedError)
  {
    hide Get16, Get32;
  }

  lemma FoundFields(block: seq<u8>, offset: nat)
    requires RecordAt(block, offset).Found?
    ensures var r := RecordAt(block, offset).record;
      && offset + 16 <= |block| && r.recordType == Get16(block, offset) && r.flags == Get16(block, offset + 2)
      && |r.payload| == Get32(block, offset + 8)
  {
    hide Get16, Get32;
  }

  // ---- The named header flags

  /** Every union of the four named flags goes through: init takes it at any capacity a block
      can have, the capture takes it in any buffer of 176 bytes, and the reader opens the block
      and returns it. */
  lemma NamedFlagsGoThrough(recovery: bool, degraded: bool, secure: bool, diagnostic: bool,
                            config: Config, capacity: nat, window: seq<u8>)
    requires 64 <= capacity <= 0xFFFF_FFFF
    requires config.headerFlags == HeaderFlags(recovery, degraded, secure, diagnostic)
    ensures B.InitStatus(capacity, config.headerFlags) == B.Ok
    ensures capacity >= 176 ==> CaptureStatus(config, capacity) == B.Ok
    ensures FitsBlock(CapturedRecords(config))
    ensures SealedBlock(HeaderFor(config), CapturedRecords(config)) <= window && ReferencesFit(config) ==>
              OpenResult(window) == Ok && ViewAfter(window).flags == config.headerFlags
  {
    hide OnlyBitsBelow, OpenResult, SealedBlock, CapturedRecords, ViewAfter, HeaderFlags, ReferencesFit, FitsBlock;
    HeaderFlagsAreUnions(config.headerFlags);
    KnownHeaderFlags(config.headerFlags);
    CapturedSize(config);
    if SealedBlock(HeaderFor(config), CapturedRecords(config)) <= window && ReferencesFit(config) {
      CaptureOpens(config, window);
      SealedBlockRoundTrip(HeaderFor(config), CapturedRecords(config), window);
    }
  }
}
