/** Decoding and rebuilding: exactly which accepted blocks the builder reproduces byte for
    byte from what the reader saw. */
module BibRebuild {
  import opened Bytes
  import opened BibFormat
  import opened BibReader
  import opened BibDecoding
  import opened BibRoundTrip
  import B = BibBuilder
  import Crc

  function HeaderOf(view: ViewData): Header {
    Header(view.flags, view.bootId, view.producerId, view.createdCounter)
  }

  /** The record at `offset` is no longer than it has to be, and its padding is zero. */
  predicate Tight(block: seq<u8>, offset: nat, v: RecordView) {
    var start := offset + RECORD_HEADER_SIZE + |v.payload|;
    && v.serializedLength == RecordLength(Plain(v))
    && offset + v.serializedLength <= |block|
    && block[start..offset + v.serializedLength] == Zeros(v.serializedLength - RECORD_HEADER_SIZE - |v.payload|)
  }

  predicate AllTight(block: seq<u8>, offset: nat, views: seq<RecordView>)
    decreases |views|
  {
    views == [] || (Tight(block, offset, views[0]) && AllTight(block, offset + views[0].serializedLength, views[1..]))
  }

  lemma FoundRecordBounds(block: seq<u8>, offset: nat)
    requires RecordAt(block, offset).Found?
    ensures var v := RecordAt(block, offset).record;
      && offset + v.serializedLength <= |block| && RecordLength(Plain(v)) <= v.serializedLength
      && RecordFlagsKnown(v.flags)
      && v.recordType == Get16(block, offset) && v.flags == Get16(block, offset + 2)
      && v.serializedLength == Get32(block, offset + 4) && |v.payload| == Get32(block, offset + 8)
      && Get32(block, offset + 12) == 0
      && v.payload == block[offset + 16..offset + 16 + |v.payload|]
  {
    hide Get16, Get32;
    var v := RecordAt(block, offset).record;
    LeastMultiple(RECORD_HEADER_SIZE + |v.payload|, v.serializedLength);
  }

  lemma LeastMultiple(n: nat, m: nat)
    requires m % 8 == 0 && n <= m
    ensures AlignUp8(n) <= m
  {
  }

  /** A decoded record re-encodes to its own bytes exactly when it is tight. */
  lemma RecordReencodes(block: seq<u8>, offset: nat)
    requires RecordAt(block, offset).Found? && |block| <= MAX_SIZE
    ensures var v := RecordAt(block, offset).record;
      && Encodable(Plain(v))
      && (Tight(block, offset, v) <==> EncodeRecord(Plain(v)) == block[offset..offset + v.serializedLength])
  {
    hide RecordAt, Get16, Get32, Le16, Le32, EncodeRecord;
    var v := RecordAt(block, offset).record;
    FoundRecordBounds(block, offset);
    var r, n, k := Plain(v), v.serializedLength, |v.payload|;
    var s := block[offset..offset + n];
    RecordSlices(block, offset, n, k);
    Field16(block, offset, v.recordType);
    Field16(block, offset + 2, v.flags);
    Field32(block, offset + 4, n);
    Field32(block, offset + 8, k);
    Field32(block, offset + 12, 0);
    Le32OfZero();
    if Tight(block, offset, v) {
      RecordIsUnique(s, r);
    }
    if EncodeRecord(r) == s {
      EncodedRecordIsRecord(r);
    }
  }

  lemma DecodeHead(block: seq<u8>, offset: nat, count: nat)
    requires count > 0 && Decode(block, offset, count).Records?
    ensures RecordAt(block, offset).Found?
    ensures var v := RecordAt(block, offset).record;
      var rest := Decode(block, offset + v.serializedLength, count - 1);
      && rest.Records? && rest.end == Decode(block, offset, count).end
      && Decode(block, offset, count).views == [v] + rest.views
      && PlainAll([v] + rest.views) == [Plain(v)] + PlainAll(rest.views)
      && PlainAll([v] + rest.views)[1..] == PlainAll(rest.views)
  {
    hide RecordAt;
  }

  /** The same for all records of a decode, and for the space they take. */
  lemma {:induction false} RecordsReencode(block: seq<u8>, offset: nat, count: nat)
    requires |block| <= MAX_SIZE && offset <= |block|
    requires Decode(block, offset, count).Records? && Decode(block, offset, count).end == |block|
    ensures var views := Decode(block, offset, count).views;
      && AllEncodable(PlainAll(views))
      && |EncodeAll(PlainAll(views))| <= |block| - offset
      && (AllTight(block, offset, views) <==> EncodeAll(PlainAll(views)) == block[offset..])
    decreases count
  {
    hide RecordAt, EncodeRecord, Tight;
    if count == 0 {
      assert PlainAll([]) == [];
    } else {
      DecodeHead(block, offset, count);
      hide Decode;
      var v := RecordAt(block, offset).record;
      var rest := Decode(block, offset + v.serializedLength, count - 1);
      FoundRecordBounds(block, offset);
      RecordReencodes(block, offset);
      RecordsReencode(block, offset + v.serializedLength, count - 1);
      HeadOfConcatenation(block, offset, v.serializedLength, EncodeRecord(Plain(v)), EncodeAll(PlainAll(rest.views)));
      TightHead(block, offset, v);
    }
  }

  lemma TightHead(block: seq<u8>, offset: nat, v: RecordView)
    requires Encodable(Plain(v))
    ensures Tight(block, offset, v) ==> |EncodeRecord(Plain(v))| == v.serializedLength
  {
  }

  /** Two parts make up the rest of a block exactly when each sits in its place. */
  lemma HeadOfConcatenation(block: seq<u8>, offset: nat, n: nat, head: seq<u8>, tail: seq<u8>)
    requires offset + n <= |block| && |head| <= n && |tail| <= |block| - offset - n
    ensures head + tail == block[offset..] <==> head == block[offset..offset + n] && tail == block[offset + n..]
  {
    var s := block[offset..];
    assert s == block[offset..offset + n] + block[offset + n..];
    if head + tail == s {
      assert |head| == n && |tail| == |block| - offset - n;
      assert head == (head + tail)[..n] && tail == (head + tail)[n..];
      assert block[offset..offset + n] == s[..n] && block[offset + n..] == s[n..];
    }
  }

  /** The block has the shape the builder gives to every block. */
  predicate Canonical(window: seq<u8>) {
    var view := ViewAfter(window);
    && |window| >= HEADER_SIZE
    && Get16(window, 10) == 0
    && view.tlvOffset == HEADER_SIZE
    && Decode(view.block, view.tlvOffset, view.tlvCount).Records?
    && AllTight(view.block, view.tlvOffset, Decode(view.block, view.tlvOffset, view.tlvCount).views)
  }

  /** What is known of an accepted block before any rebuilding. */
  lemma AcceptedFacts(window: seq<u8>)
    requires OpenResult(window) == Ok
    ensures var view := ViewAfter(window);
      var block := view.block;
      && HEADER_SIZE <= |block| <= MAX_SIZE && block <= window
      && block[0..8] == MAGIC && Get16(block, 8) == 1 && Get16(block, 10) == Get16(window, 10)
      && Get16(block, 12) == 64 && Get16(block, 14) == view.flags
      && Get32(block, 16) == |block| && Get32(block, 20) == Crc32c(Crc.Blanked(block, 20, 24))
      && Get64(block, 24) == view.bootId && Get64(block, 32) == view.producerId && Get64(block, 40) == view.createdCounter
      && Get32(block, 48) == view.tlvOffset && Get32(block, 52) == view.tlvCount && Get64(block, 56) == 0
      && HEADER_SIZE <= view.tlvOffset <= |block| && HeaderFlagsKnown(view.flags)
  {
    hide Get16, Get32, Get64, Crc32c, Crc.Blanked, Walk;
    var block := BlockOf(window);
    HeaderFieldsOfPrefix(window, |block|);
    MinorOfPrefix(window, |block|);
    assert window[0..8] == block[0..8];
  }

  lemma MinorOfPrefix(s: seq<u8>, n: nat)
    requires HEADER_SIZE <= n <= |s|
    ensures Get16(s[..n], 10) == Get16(s, 10)
  {
  }

  lemma AcceptedRecordsFit(window: seq<u8>)
    requires OpenResult(window) == Ok
    ensures var view := ViewAfter(window);
      var rs := RecordsOf(view);
      && FitsBlock(rs) && |rs| == view.tlvCount && view.tlvOffset <= |view.block|
      && view.tlvOffset + |EncodeAll(rs)| <= |view.block|
      && Decode(view.block, view.tlvOffset, view.tlvCount).Records?
      && (AllTight(view.block, view.tlvOffset, Decode(view.block, view.tlvOffset, view.tlvCount).views)
          <==> EncodeAll(rs) == view.block[view.tlvOffset..])
  {
    hide CheckHeader, Walk, Get16, Get32, Get64, RecordAt, NthRecord, Decode, AllTight, AcceptableRecords;
    hide Crc32c, ViewAfter, EncodeAll;
    AcceptedFacts(window);
    OpenedRecordsReadBack(window, 0);
    AcceptedEnd(window);
    var view := ViewAfter(window);
    RecordsReencode(view.block, view.tlvOffset, view.tlvCount);
    EncodeAllSize(RecordsOf(view));
  }

  lemma AcceptedEnd(window: seq<u8>)
    requires OpenResult(window) == Ok
    ensures var view := ViewAfter(window);
      var d := Decode(view.block, view.tlvOffset, view.tlvCount);
      d.Records? && d.end == |view.block|
  {
    hide CheckHeader, Walk, Decode, AcceptableRecords, Get32;
    AcceptedIff(window);
  }

  /** Sealing the decoded header and records again reproduces the accepted block exactly when
      the block is canonical. */
  lemma RebuiltIff(window: seq<u8>)
    requires OpenResult(window) == Ok
    ensures var view := ViewAfter(window);
      var rs := RecordsOf(view);
      FitsBlock(rs) && (SealedBlock(HeaderOf(view), rs) == view.block <==> Canonical(window))
  {
    hide ViewAfter, OpenResult, Get16, Get32, Get64, Crc32c, Crc.Blanked, Decode, AllTight, EncodeAll, RecordsOf, IsHeader;
    AcceptedFacts(window);
    AcceptedRecordsFit(window);
    var view := ViewAfter(window);
    if Canonical(window) {
      CanonicalRebuilds(window);
    }
    var h, rs := HeaderOf(view), RecordsOf(view);
    if SealedBlock(h, rs) == view.block {
      SealedBlockReads(h, rs);
    }
  }

  lemma CanonicalRebuilds(window: seq<u8>)
    requires OpenResult(window) == Ok && Canonical(window)
    ensures var view := ViewAfter(window);
      FitsBlock(RecordsOf(view)) && SealedBlock(HeaderOf(view), RecordsOf(view)) == view.block
  {
    hide ViewAfter, OpenResult, Get16, Get32, Get64, Crc32c, Crc.Blanked, Decode, AllTight, EncodeAll;
    hide RecordsOf, IsHeader, HeaderBytes;
    AcceptedFacts(window);
    AcceptedRecordsFit(window);
    var view := ViewAfter(window);
    var block, h, rs := view.block, HeaderOf(view), RecordsOf(view);
    HeaderReads(block, h, |block|, Get32(block, 20), |rs|);
    HeaderIsUnique(block, h, |block|, Get32(block, 20), |rs|);
    BlankedBlock(block, h, |block|, Get32(block, 20), |rs|);
    assert block == block[..HEADER_SIZE] + block[HEADER_SIZE..];
  }

  /** The calls that feed decoded records back to a builder. */
  function AddsOf(rs: seq<Record>): (calls: seq<Call>)
    ensures |calls| == |rs| && forall i | 0 <= i < |rs| :: calls[i] == Add(rs[i])
  {
    seq(|rs|, i requires 0 <= i < |rs| => Add(rs[i]))
  }

  lemma OneAdd(s: B.State, r: Record)
    requires B.Consistent(s) && !s.isSealed && Encodable(r)
    requires HEADER_SIZE + |EncodeAll(s.records)| + RecordLength(r) <= s.capacity
    ensures Perform(s, Add(r)) == s.(records := s.records + [r])
    ensures AllEncodable(s.records + [r]) && |EncodeAll(s.records + [r])| == |EncodeAll(s.records)| + RecordLength(r)
  {
    hide EncodeRecord, EncodeAll;
    EncodeAllAppends(s.records, r);
  }

  lemma FirstOfMany(rs: seq<Record>)
    requires rs != [] && AllEncodable(rs)
    ensures |EncodeAll(rs)| == RecordLength(rs[0]) + |EncodeAll(rs[1..])|
    ensures (AddsOf(rs) + [Seal])[0] == Add(rs[0]) && (AddsOf(rs) + [Seal])[1..] == AddsOf(rs[1..]) + [Seal]
  {
    hide EncodeRecord;
  }

  /** A builder with room for them accepts a list of encodable records without refusing one. */
  lemma {:induction false} AddsSucceed(s: B.State, rs: seq<Record>)
    requires B.Consistent(s) && !s.isSealed && AllEncodable(rs)
    requires HEADER_SIZE + |EncodeAll(s.records)| + |EncodeAll(rs)| <= s.capacity
    ensures PerformAll(s, AddsOf(rs) + [Seal]) == s.(records := s.records + rs, isSealed := true)
    decreases |rs|
  {
    hide EncodeAll, B.Consistent;
    if rs == [] {
      assert AddsOf(rs) + [Seal] == [Seal] && [Seal][1..] == [];
      assert s.records + [] == s.records;
      assert PerformAll(s, [Seal]) == PerformAll(B.SealedState(s), [Seal][1..]);
    } else {
      hide Perform;
      FirstOfMany(rs);
      OneAdd(s, rs[0]);
      AddsSucceed(Perform(s, Add(rs[0])), rs[1..]);
      assert s.records + [rs[0]] + rs[1..] == s.records + rs;
    }
  }

  /** Decode, then rebuild: init with the decoded header, add the decoded records, seal. Any
      builder with room for the block reproduces it byte for byte exactly when it is
      canonical. */
  lemma DecodeThenRebuild(window: seq<u8>, s0: B.State)
    requires OpenResult(window) == Ok
    requires Initialised(s0) && s0.header == HeaderOf(ViewAfter(window)) && |ViewAfter(window).block| <= s0.capacity
    ensures var calls := AddsOf(RecordsOf(ViewAfter(window))) + [Seal];
      History(s0, calls) && (FinalBlock(s0, calls) == ViewAfter(window).block <==> Canonical(window))
  {
    hide ViewAfter, OpenResult, Decode, AllTight, RecordsOf, SealedBlock, Canonical;
    var view := ViewAfter(window);
    var rs := RecordsOf(view);
    AcceptedFacts(window);
    AcceptedRecordsFit(window);
    RebuiltIff(window);
    InitialisedIsConsistent(s0);
    assert EncodeAll(s0.records) == [];
    AddsSucceed(s0, rs);
    assert [] + rs == rs;
    var calls := AddsOf(rs) + [Seal];
    HistoryKeepsAdds(s0, calls);
    assert FinalRecords(s0, calls) == rs;
    FinalBlockIsSealed(s0, calls);
  }
}
