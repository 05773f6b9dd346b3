/** Builder and reader against each other: what was added is what is read, and what was read
    rebuilds the block. */
module BibRoundTrip {
  import opened Bytes
  import opened BibFormat
  import opened BibReader
  import opened BibDecoding
  import B = BibBuilder
  import Crc

  // ---- One record

  /** How the reader sees a record the builder wrote. */
  function ViewOf(r: Record): RecordView
    requires Encodable(r)
  {
    RecordView(r.recordType, r.flags, r.payload, RecordLength(r))
  }

  function ViewsOf(rs: seq<Record>): (views: seq<RecordView>)
    requires AllEncodable(rs)
    ensures |views| == |rs| && forall i | 0 <= i < |rs| :: views[i] == ViewOf(rs[i])
  {
    seq(|rs|, i requires 0 <= i < |rs| => ViewOf(rs[i]))
  }

  lemma EncodedRecordReads(block: seq<u8>, offset: nat, r: Record)
    requires Encodable(r) && offset + RecordLength(r) <= |block|
    requires block[offset..offset + RecordLength(r)] == EncodeRecord(r)
    ensures RecordAt(block, offset) == Found(ViewOf(r))
  {
    var n, k := RecordLength(r), |r.payload|;
    EncodedRecordIsRecord(r);
    RecordSlices(block, offset, n, k);
    Get16OfLe16(block, offset, r.recordType);
    Get16OfLe16(block, offset + 2, r.flags);
    Get32OfLe32(block, offset + 4, n);
    Get32OfLe32(block, offset + 8, k);
    Le32OfZero();
    Get32OfLe32(block, offset + 12, 0);
    hide Get16, Get32, Le16, Le32;
  }

  lemma RecordSlices(block: seq<u8>, offset: nat, n: nat, k: nat)
    requires offset + n <= |block| && RECORD_HEADER_SIZE + k <= n
    ensures var s := block[offset..offset + n];
      && s[0..2] == block[offset..offset + 2] && s[2..4] == block[offset + 2..offset + 4]
      && s[4..8] == block[offset + 4..offset + 8] && s[8..12] == block[offset + 8..offset + 12]
      && s[12..16] == block[offset + 12..offset + 16]
      && s[16..16 + k] == block[offset + 16..offset + 16 + k]
      && s[16 + k..] == block[offset + 16 + k..offset + n]
  {
    SliceOfSlice(block, offset, n, 0, 2);
    SliceOfSlice(block, offset, n, 2, 4);
    SliceOfSlice(block, offset, n, 4, 8);
    SliceOfSlice(block, offset, n, 8, 12);
    SliceOfSlice(block, offset, n, 12, 16);
    SliceOfSlice(block, offset, n, 16, 16 + k);
    SliceOfSlice(block, offset, n, 16 + k, n);
  }

  // ---- A list of records

  lemma {:induction false} EncodedRecordsWalk(block: seq<u8>, offset: nat, rs: seq<Record>, services: nat, memories: nat)
    requires AllEncodable(rs) && offset <= |block| && block[offset..] == EncodeAll(rs)
    ensures Walk(block, offset, |rs|, services, memories) == Judge(rs, services, memories)
    ensures Decode(block, offset, |rs|) == Records(ViewsOf(rs), |block|)
    decreases |rs|
  {
    hide RecordAt, EncodeRecord, CheckRecord;
    if rs == [] {
      assert ViewsOf(rs) == [];
    } else {
      var r := rs[0];
      var n := RecordLength(r);
      FirstRecordOf(block, offset, rs);
      EncodedRecordReads(block, offset, r);
      EncodedRecordsWalk(block, offset + n, rs[1..],
                         services + One(r.recordType == SERVICE_DIRECTORY), memories + One(r.recordType == MEMORY_MAP));
      assert ViewsOf(rs) == [ViewOf(r)] + ViewsOf(rs[1..]);
    }
  }

  lemma FirstRecordOf(block: seq<u8>, offset: nat, rs: seq<Record>)
    requires AllEncodable(rs) && rs != [] && offset <= |block| && block[offset..] == EncodeAll(rs)
    ensures var n := RecordLength(rs[0]);
      && offset + n <= |block|
      && block[offset..offset + n] == EncodeRecord(rs[0])
      && block[offset + n..] == EncodeAll(rs[1..])
  {
    hide EncodeRecord;
    var n := RecordLength(rs[0]);
    var s := block[offset..];
    assert s == EncodeRecord(rs[0]) + EncodeAll(rs[1..]);
    assert s[..n] == EncodeRecord(rs[0]) && s[n..] == EncodeAll(rs[1..]);
    assert block[offset..offset + n] == s[..n] && block[offset + n..] == s[n..];
  }

  // ---- A sealed block

  /** The checksummed form of a block whose header is known. */
  lemma BlankedBlock(block: seq<u8>, h: Header, total: u32, crc: u32, count: u32)
    requires IsHeader(block, h, total, crc, count)
    ensures Crc.Blanked(block, 20, 24) == HeaderBytes(h, total, 0, count) + block[HEADER_SIZE..]
  {
    var t := Crc.Blanked(block, 20, 24);
    assert t[16..20] == block[16..20] && t[20..24] == Zeros(4) && t[52..56] == block[52..56];
    Le32OfZero();
    HeaderPatched(block, t, h, total, crc, count, total, 0, count);
  }

  lemma SealedBlockReads(h: Header, rs: seq<Record>)
    requires FitsBlock(rs)
    ensures var block := SealedBlock(h, rs);
      && IsHeader(block, h, |block|, SealChecksum(h, rs), |rs|)
      && ReadsAsHeader(block, h, |block|, SealChecksum(h, rs), |rs|)
      && Crc32c(Crc.Blanked(block, 20, 24)) == SealChecksum(h, rs)
      && block[HEADER_SIZE..] == EncodeAll(rs)
      && |block| % 8 == 0
  {
    hide IsHeader, ReadsAsHeader, HeaderBytes, Crc32c, EncodeAll;
    var body := EncodeAll(rs);
    EncodeAllSize(rs);
    BlockReads(h, body, SealChecksum(h, rs), |rs|);
  }

  lemma BlockReads(h: Header, body: seq<u8>, crc: u32, count: u32)
    requires HEADER_SIZE + |body| <= UINT32_MAX
    ensures var block := HeaderBytes(h, HEADER_SIZE + |body|, crc, count) + body;
      && IsHeader(block, h, |block|, crc, count)
      && ReadsAsHeader(block, h, |block|, crc, count)
      && Crc.Blanked(block, 20, 24) == HeaderBytes(h, |block|, 0, count) + body
      && block[HEADER_SIZE..] == body
  {
    hide IsHeader, ReadsAsHeader, HeaderBytes;
    var block := HeaderBytes(h, HEADER_SIZE + |body|, crc, count) + body;
    HeaderOfBlock(h, |block|, crc, count, body);
    HeaderReads(block, h, |block|, crc, count);
    assert block[HEADER_SIZE..] == body;
    BlankedBlock(block, h, |block|, crc, count);
  }

  /** A window that starts with a sealed block passes the header checks unless the block is
      larger than a reader takes. */
  lemma SealedHeaderPasses(h: Header, rs: seq<Record>, tail: seq<u8>)
    requires FitsBlock(rs) && OnlyBitsBelow(h.flags, 4)
    ensures var block := SealedBlock(h, rs);
      var window := block + tail;
      && CheckHeader(window) == (if |block| > MAX_SIZE then TotalLengthError else Ok)
      && (CheckHeader(window) == Ok ==>
            OpenedView(window) == ViewData(block, 64, |rs|, h.flags, h.bootId, h.producerId, h.createdCounter))
  {
    hide Get16, Get32, Get64, Crc32c, Crc.Blanked, SealChecksum, IsHeader, OnlyBitsBelow;
    KnownHeaderFlags(h.flags);
    var block := SealedBlock(h, rs);
    SealedBlockReads(h, rs);
    hide SealedBlock;
    var window := block + tail;
    assert window[..|block|] == block;
    HeaderFieldsOfPrefix(window, |block|);
    assert window[0..8] == block[0..8];
  }

  /** What a reader says about any sealed block, exactly. */
  lemma SealedBlockOpens(h: Header, rs: seq<Record>, tail: seq<u8>)
    requires FitsBlock(rs) && OnlyBitsBelow(h.flags, 4)
    ensures var block := SealedBlock(h, rs);
      OpenResult(block + tail) == if |block| > MAX_SIZE then TotalLengthError else Judge(rs, 0, 0)
  {
    hide CheckHeader, Walk, Judge, SealChecksum, Get16, Get32, Get64, IsHeader, ReadsAsHeader;
    SealedHeaderPasses(h, rs, tail);
    var block := SealedBlock(h, rs);
    SealedBlockReads(h, rs);
    hide SealedBlock;
    if |block| <= MAX_SIZE {
      EncodedRecordsWalk(block, HEADER_SIZE, rs, 0, 0);
      assert OpenedView(block + tail).block == block;
    }
  }

  /** Every record of an accepted sealed block reads back as it was added. */
  lemma SealedRecordsReadBack(h: Header, rs: seq<Record>, tail: seq<u8>, i: nat)
    requires FitsBlock(rs) && OnlyBitsBelow(h.flags, 4) && |SealedBlock(h, rs)| <= MAX_SIZE && i < |rs|
    requires OpenResult(SealedBlock(h, rs) + tail) == Ok
    ensures ReadRecord(ViewAfter(SealedBlock(h, rs) + tail), i) == Found(ViewOf(rs[i]))
    ensures RecordsOf(ViewAfter(SealedBlock(h, rs) + tail)) == rs
  {
    hide CheckHeader, SealChecksum, Get16, Get32, Get64, IsHeader, ReadsAsHeader, RecordAt, NthRecord, Decode;
    SealedHeaderPasses(h, rs, tail);
    var block := SealedBlock(h, rs);
    SealedBlockReads(h, rs);
    hide SealedBlock;
    EncodedRecordsWalk(block, HEADER_SIZE, rs, 0, 0);
    DecodeTiles(block, HEADER_SIZE, |rs|);
    assert PlainAll(ViewsOf(rs)) == rs;
  }

  // ---- Any history of builder calls

  datatype Call =
    | Add(record: Record)
    | AddReference(recordType: u16, flags: u16, objectId: u64, address: u64, length: u64, formatMajor: u32, formatMinor: u32)
    | Seal

  function RecordOf(call: Call): Record
    requires !call.Seal?
  {
    match call
    case Add(record) => record
    case AddReference(recordType, flags, objectId, address, length, formatMajor, formatMinor) =>
      Record(recordType, flags, EncodeReference(objectId, address, length, formatMajor, formatMinor))
  }

  /** The builder state after a call; a call that is refused changes nothing. */
  function Perform(s: B.State, call: Call): (s': B.State)
    requires B.Consistent(s)
    ensures B.Consistent(s')
  {
    if call.Seal? then B.SealedState(s) else B.Added(s, RecordOf(call))
  }

  function PerformAll(s: B.State, calls: seq<Call>): (s': B.State)
    requires B.Consistent(s)
    ensures B.Consistent(s')
    decreases |calls|
  {
    if calls == [] then s else PerformAll(Perform(s, calls[0]), calls[1..])
  }

  /** The records of the adds that succeed, in order. */
  function SuccessfulAdds(s: B.State, calls: seq<Call>): seq<Record>
    requires B.Consistent(s)
    decreases |calls|
  {
    if calls == [] then []
    else (if !calls[0].Seal? && B.AddStatus(s, RecordOf(calls[0])) == B.Ok then [RecordOf(calls[0])] else [])
         + SuccessfulAdds(Perform(s, calls[0]), calls[1..])
  }

  lemma {:induction false} HistoryKeepsAdds(s: B.State, calls: seq<Call>)
    requires B.Consistent(s)
    ensures var s' := PerformAll(s, calls);
      && s'.records == s.records + SuccessfulAdds(s, calls)
      && s'.header == s.header && s'.capacity == s.capacity
      && (s.isSealed ==> s' == s && SuccessfulAdds(s, calls) == [] && B.SealStatus(s') == B.StateError)
    decreases |calls|
  {
    hide B.Consistent;
    if calls == [] {
      assert s.records + [] == s.records;
    } else {
      HistoryKeepsAdds(Perform(s, calls[0]), calls[1..]);
    }
  }

  /** A builder right after a successful init. */
  predicate Initialised(s: B.State) {
    64 <= s.capacity <= 0xFFFF_FFFF && OnlyBitsBelow(s.header.flags, 4) && s.records == [] && !s.isSealed
  }

  /** Init succeeds exactly for such states, and says which of its two arguments is at fault. */
  lemma InitialisedIff(s: B.State)
    requires s.records == [] && !s.isSealed
    ensures B.InitStatus(s.capacity, s.header.flags) ==
            if Initialised(s) then B.Ok
            else if 64 <= s.capacity <= 0xFFFF_FFFF then B.FlagsError
            else B.ArgumentError
  {
    hide OnlyBitsBelow;
    KnownHeaderFlags(s.header.flags);
  }

  /** An add succeeds exactly when the block is open, the flags are known and the record still
      fits; otherwise the first of these that fails is reported, and a payload too long for any
      block before one too long for this one. */
  lemma AddSucceedsIff(s: B.State, r: Record)
    requires B.Consistent(s)
    ensures B.AddStatus(s, r) == B.Ok <==>
            && !s.isSealed && OnlyBitsBelow(r.flags, 2)
            && 64 + |EncodeAll(s.records)| + RecordLength(r) <= s.capacity
    ensures B.AddStatus(s, r) == if s.isSealed then B.StateError
                                 else if !OnlyBitsBelow(r.flags, 2) then B.FlagsError
                                 else if |r.payload| > 0xFFFF_FFE8 then B.LengthError
                                 else if 64 + |EncodeAll(s.records)| + RecordLength(r) > s.capacity then B.CapacityError
                                 else B.Ok
  {
    hide OnlyBitsBelow, EncodeAll;
    KnownRecordFlags(r.flags);
  }

  lemma InitialisedIsConsistent(s: B.State)
    requires Initialised(s)
    ensures B.Consistent(s)
  {
    hide OnlyBitsBelow;
    KnownHeaderFlags(s.header.flags);
  }

  /** A history from init to seal and beyond. */
  predicate History(s0: B.State, calls: seq<Call>) {
    Initialised(s0) && B.Consistent(s0) && PerformAll(s0, calls).isSealed
  }

  /** The block such a history leaves in the buffer. */
  function FinalBlock(s0: B.State, calls: seq<Call>): seq<u8>
    requires History(s0, calls)
  {
    B.Image(PerformAll(s0, calls))
  }

  function FinalRecords(s0: B.State, calls: seq<Call>): (rs: seq<Record>)
    requires History(s0, calls)
    ensures FitsBlock(rs)
  {
    HistoryKeepsAdds(s0, calls);
    assert [] + SuccessfulAdds(s0, calls) == SuccessfulAdds(s0, calls);
    SuccessfulAdds(s0, calls)
  }

  /** Record i of the view is record i of the list. */
  predicate ReadsBack(view: ViewData, rs: seq<Record>) {
    && AllEncodable(rs)
    && forall i | 0 <= i < |rs| :: ReadRecord(view, i) == Found(ViewOf(rs[i]))
  }

  lemma FinalBlockIsSealed(s0: B.State, calls: seq<Call>)
    requires History(s0, calls)
    ensures var rs := FinalRecords(s0, calls);
      FitsBlock(rs) && OnlyBitsBelow(s0.header.flags, 4) && FinalBlock(s0, calls) == SealedBlock(s0.header, rs)
  {
    hide SealedBlock;
    HistoryKeepsAdds(s0, calls);
    assert [] + SuccessfulAdds(s0, calls) == SuccessfulAdds(s0, calls);
  }

  /** The round trip: whatever was called in whatever order, a sealed builder's block is
      accepted exactly when it is at most 64 KiB and its records are acceptable. The view then
      holds the producer's header, and its i-th record is the i-th successful add. */
  lemma BuilderRoundTrip(s0: B.State, calls: seq<Call>, window: seq<u8>)
    requires History(s0, calls) && FinalBlock(s0, calls) <= window
    ensures OpenResult(window) == Ok <==>
            |FinalBlock(s0, calls)| <= MAX_SIZE && AcceptableRecords(FinalRecords(s0, calls))
    ensures OpenResult(window) == Ok ==>
              ViewAfter(window) == ViewData(FinalBlock(s0, calls), 64, |FinalRecords(s0, calls)|, s0.header.flags,
                                            s0.header.bootId, s0.header.producerId, s0.header.createdCounter)
    ensures OpenResult(window) == Ok ==> ReadsBack(ViewAfter(window), FinalRecords(s0, calls))
    ensures OpenResult(window) == Ok ==> RecordsOf(ViewAfter(window)) == FinalRecords(s0, calls)
  {
    hide History, FinalBlock, FinalRecords, OpenResult, ViewAfter, CheckHeader, Walk, Judge, SealedBlock;
    hide AcceptableRecords, RecordAt, NthRecord, ViewOf, ReadRecord, RecordsOf;
    FinalBlockIsSealed(s0, calls);
    var h, rs := s0.header, FinalRecords(s0, calls);
    SealedBlockRoundTrip(h, rs, window);
  }

  /** A builder that is sealed at once succeeds, and its block is refused for want of the
      required records. */
  lemma EmptyBlockIsRefused(s0: B.State, tail: seq<u8>)
    requires Initialised(s0)
    ensures B.Consistent(s0) && B.SealStatus(s0) == B.Ok && History(s0, [Seal])
    ensures OpenResult(FinalBlock(s0, [Seal]) + tail) == RequiredRecordError
  {
    hide OpenResult, SealedBlock;
    InitialisedIsConsistent(s0);
    assert [Seal][1..] == [];
    assert PerformAll(s0, [Seal]) == PerformAll(B.SealedState(s0), [Seal][1..]);
    SealedBlockOpens(s0.header, [], tail);
    assert EncodeAll([]) == [];
  }

  /** The same for a block given by its header and records. */
  lemma SealedBlockRoundTrip(h: Header, rs: seq<Record>, window: seq<u8>)
    requires FitsBlock(rs) && OnlyBitsBelow(h.flags, 4) && SealedBlock(h, rs) <= window
    ensures OpenResult(window) == Ok <==> |SealedBlock(h, rs)| <= MAX_SIZE && AcceptableRecords(rs)
    ensures OpenResult(window) == Ok ==>
              ViewAfter(window) == ViewData(SealedBlock(h, rs), 64, |rs|, h.flags, h.bootId, h.producerId, h.createdCounter)
    ensures OpenResult(window) == Ok ==> ReadsBack(ViewAfter(window), rs)
    ensures OpenResult(window) == Ok ==> RecordsOf(ViewAfter(window)) == rs
  {
    var tail := window[|SealedBlock(h, rs)|..];
    assert window == SealedBlock(h, rs) + tail;
    hide CheckHeader, Walk, Judge, SealedBlock, AcceptableRecords, RecordAt, NthRecord, ViewOf, ReadRecord, RecordsOf;
    SealedBlockOpens(h, rs, tail);
    JudgementIsAcceptance(rs);
    SealedHeaderPasses(h, rs, tail);
    if OpenResult(window) == Ok {
      SealedRecordsReadBack(h, rs, tail, 0);
      forall i | 0 <= i < |rs|
        ensures ReadRecord(ViewAfter(window), i) == Found(ViewOf(rs[i]))
      {
        SealedRecordsReadBack(h, rs, tail, i);
      }
    }
  }

  lemma JudgementIsAcceptance(rs: seq<Record>)
    ensures Judge(rs, 0, 0) == Ok <==> AcceptableRecords(rs)
    ensures Judge(rs, 0, 0) == Ok ==> rs != []
    ensures Judge(rs, 0, 0) != TotalLengthError
  {
    hide Admissible, Judge;
    JudgeOk(rs, 0, 0);
    JudgeNeverTotalLength(rs, 0, 0);
  }

  lemma {:induction false} JudgeNeverTotalLength(rs: seq<Record>, services: nat, memories: nat)
    ensures Judge(rs, services, memories) != TotalLengthError
    decreases |rs|
  {
    if rs == [] {
    } else {
      var r := rs[0];
      JudgeNeverTotalLength(rs[1..], services + One(r.recordType == SERVICE_DIRECTORY),
                            memories + One(r.recordType == MEMORY_MAP));
    }
  }

  // ---- References

  lemma ReferenceParses(objectId: u64, address: u64, length: u64, formatMajor: u32, formatMinor: u32)
    ensures var payload := EncodeReference(objectId, address, length, formatMajor, formatMinor);
      && ParseReference(payload) == FoundReference(Reference(objectId, address, length, formatMajor, formatMinor, 0, []))
      && Get64(payload, 8) == address && Get64(payload, 16) == length
  {
    var s := EncodeReference(objectId, address, length, formatMajor, formatMinor);
    ReferenceSlices(Le64(objectId), Le64(address), Le64(length), Le32(formatMajor), Le32(formatMinor));
    Get64OfLe64(s, 0, objectId);
    Get64OfLe64(s, 8, address);
    Get64OfLe64(s, 16, length);
    Get32OfLe32(s, 24, formatMajor);
    Get32OfLe32(s, 28, formatMinor);
    Le32OfZero();
    assert s[32..36] == s[32..40][..4] == Zeros(4) && s[36..40] == s[32..40][4..] == Zeros(4);
    Get32OfLe32(s, 32, 0);
    Get32OfLe32(s, 36, 0);
    hide Get32, Get64;
  }

  lemma ReferenceSlices(a: seq<u8>, b: seq<u8>, c: seq<u8>, d: seq<u8>, e: seq<u8>)
    requires |a| == |b| == |c| == 8 && |d| == |e| == 4
    ensures var s := a + b + c + d + e + Zeros(8);
      && s[0..8] == a && s[8..16] == b && s[16..24] == c && s[24..28] == d && s[28..32] == e && s[32..40] == Zeros(8)
  {
  }

  /** The first reference of a type that was added comes back field for field, with no
      integrity data. */
  lemma FirstReferenceReturned(s0: B.State, calls: seq<Call>, window: seq<u8>, call: Call)
    requires History(s0, calls) && FinalBlock(s0, calls) <= window && OpenResult(window) == Ok
    requires call.AddReference? && CountOf(FinalRecords(s0, calls), call.recordType) > 0
    requires FinalRecords(s0, calls)[FirstOf(FinalRecords(s0, calls), call.recordType)] == RecordOf(call)
    ensures Lookup(ViewAfter(window), call.recordType) ==
            FoundReference(Reference(call.objectId, call.address, call.length, call.formatMajor, call.formatMinor, 0, []))
  {
    hide History, FinalBlock, FinalRecords, OpenResult, ViewAfter, CheckHeader, Walk, Decode, RecordAt;
    hide ParseReference, EncodeReference;
    BuilderRoundTrip(s0, calls, window);
    var view := ViewAfter(window);
    OpenedRecordsReadBack(window, 0);
    LookupIsFirst(view.block, view.tlvOffset, view.tlvCount, call.recordType);
    ReferenceParses(call.objectId, call.address, call.length, call.formatMajor, call.formatMinor);
  }
}
