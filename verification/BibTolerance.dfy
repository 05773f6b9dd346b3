/** What the reader does not insist on: padding, gaps, the order of records and the extent of
    references; and what it does: the header length. */
module BibTolerance {
  import opened Bytes
  import opened BibFormat
  import opened BibReader
  import opened BibDecoding
  import opened BibRoundTrip
  import opened SimBib
  import Crc

  // ---- Padding and gaps

  /** Position j lies behind the payload of one of the records, inside its length. */
  predicate InPadding(block: seq<u8>, offset: nat, count: nat, j: nat)
    decreases count
  {
    count > 0
    && match RecordAt(block, offset)
       case Bad(_) => false
       case Found(r) =>
         || offset + RECORD_HEADER_SIZE + |r.payload| <= j < offset + r.serializedLength
         || InPadding(block, offset + r.serializedLength, count - 1, j)
  }

  lemma {:induction false} PaddingIsBehind(block: seq<u8>, offset: nat, count: nat, j: nat)
    requires InPadding(block, offset, count, j)
    ensures RecordAt(block, offset).Found?
    ensures j >= offset + RECORD_HEADER_SIZE + |RecordAt(block, offset).record.payload|
    decreases count
  {
    hide RecordAt;
    var r := RecordAt(block, offset).record;
    FoundInBounds(block, offset);
    if InPadding(block, offset + r.serializedLength, count - 1, j) {
      PaddingIsBehind(block, offset + r.serializedLength, count - 1, j);
    }
  }

  /** From `offset` on, two blocks differ only in padding of the first. */
  predicate DifferInPadding(a: seq<u8>, b: seq<u8>, offset: nat, count: nat) {
    |a| == |b| && forall j | offset <= j < |a| && a[j] != b[j] :: InPadding(a, offset, count, j)
  }

  lemma RecordsAlike(a: seq<u8>, b: seq<u8>, offset: nat, n: nat)
    requires |a| == |b| && n >= RECORD_HEADER_SIZE
    requires forall j | offset <= j < offset + n && j < |a| :: a[j] == b[j]
    requires RecordAt(a, offset).Found? ==> n >= RECORD_HEADER_SIZE + |RecordAt(a, offset).record.payload|
    ensures RecordAt(b, offset) == RecordAt(a, offset)
  {
    if offset + RECORD_HEADER_SIZE <= |a| {
      FieldsAlike(a, b, offset);
      hide Get16, Get32;
      if RecordAt(a, offset).Found? {
        var start, k := offset + RECORD_HEADER_SIZE, Get32(a, offset + 8);
        assert |RecordAt(a, offset).record.payload| == k;
        assert a[start..start + k] == b[start..start + k];
      }
    }
  }

  lemma FieldsAlike(a: seq<u8>, b: seq<u8>, at: nat)
    requires |a| == |b| && at + RECORD_HEADER_SIZE <= |a|
    requires forall j | at <= j < at + RECORD_HEADER_SIZE :: a[j] == b[j]
    ensures Get16(a, at) == Get16(b, at) && Get16(a, at + 2) == Get16(b, at + 2)
    ensures Get32(a, at + 4) == Get32(b, at + 4) && Get32(a, at + 8) == Get32(b, at + 8)
    ensures Get32(a, at + 12) == Get32(b, at + 12)
  {
  }

  lemma FirstRecordAlike(a: seq<u8>, b: seq<u8>, offset: nat, count: nat)
    requires count > 0 && DifferInPadding(a, b, offset, count)
    ensures RecordAt(b, offset) == RecordAt(a, offset)
    ensures RecordAt(a, offset).Found? ==>
              DifferInPadding(a, b, offset + RecordAt(a, offset).record.serializedLength, count - 1)
  {
    hide RecordAt;
    var n := if RecordAt(a, offset).Found? then RECORD_HEADER_SIZE + |RecordAt(a, offset).record.payload|
             else |a| + RECORD_HEADER_SIZE;
    forall j | offset <= j < offset + n && j < |a|
      ensures a[j] == b[j]
    {
      if a[j] != b[j] {
        PaddingIsBehind(a, offset, count, j);
      }
    }
    RecordsAlike(a, b, offset, n);
    if RecordAt(a, offset).Found? {
      FoundInBounds(a, offset);
    }
  }

  /** The walk and the decode do not see padding. */
  lemma {:induction false} WalkIgnoresPadding(a: seq<u8>, b: seq<u8>, offset: nat, count: nat, services: nat, memories: nat)
    requires DifferInPadding(a, b, offset, count)
    ensures Walk(b, offset, count, services, memories) == Walk(a, offset, count, services, memories)
    ensures Decode(b, offset, count) == Decode(a, offset, count)
    decreases count
  {
    hide RecordAt, CheckRecord, DifferInPadding;
    if count == 0 {
      SameSize(a, b, offset, count);
    } else {
      FirstRecordAlike(a, b, offset, count);
      if RecordAt(a, offset).Found? {
        var r := RecordAt(a, offset).record;
        WalkIgnoresPadding(a, b, offset + r.serializedLength, count - 1,
                           services + One(r.recordType == SERVICE_DIRECTORY), memories + One(r.recordType == MEMORY_MAP));
      }
    }
  }

  lemma SameSize(a: seq<u8>, b: seq<u8>, offset: nat, count: nat)
    requires DifferInPadding(a, b, offset, count)
    ensures |a| == |b|
  {
  }

  /** Bytes of a block nobody reads: between the header and the first record, and padding. */
  predicate Unread(window: seq<u8>, j: nat)
    requires CheckHeader(window) == Ok
  {
    HEADER_SIZE <= j < Get32(window, 48) || InPadding(BlockOf(window), Get32(window, 48), Get32(window, 52), j)
  }

  /** The second window agrees with the first outside the checksum and the bytes nobody reads,
      and has the right checksum for what it holds. */
  predicate SameButUnread(s: seq<u8>, t: seq<u8>)
    requires CheckHeader(s) == Ok
  {
    var n := |BlockOf(s)|;
    && |t| >= n
    && (forall j | 0 <= j < n && s[j] != t[j] :: 20 <= j < 24 || Unread(s, j))
    && Get32(t, 20) == Crc32c(Crc.Blanked(t[..n], 20, 24))
  }

  lemma UnreadIsBehindHeader(window: seq<u8>, j: nat)
    requires CheckHeader(window) == Ok && Unread(window, j)
    ensures j >= HEADER_SIZE
  {
    hide RecordAt, Get16, Get64, Get32, Crc32c;
    if j < HEADER_SIZE {
      PaddingIsBehind(BlockOf(window), Get32(window, 48), Get32(window, 52), j);
    }
  }

  lemma HeaderAlike(s: seq<u8>, t: seq<u8>)
    requires |s| >= HEADER_SIZE && |t| >= HEADER_SIZE
    requires forall j | 0 <= j < HEADER_SIZE && !(20 <= j < 24) :: s[j] == t[j]
    ensures s[0..8] == t[0..8]
    ensures Get16(s, 8) == Get16(t, 8) && Get16(s, 12) == Get16(t, 12) && Get16(s, 14) == Get16(t, 14)
    ensures Get32(s, 16) == Get32(t, 16) && Get32(s, 48) == Get32(t, 48) && Get32(s, 52) == Get32(t, 52)
    ensures Get64(s, 24) == Get64(t, 24) && Get64(s, 32) == Get64(t, 32)
    ensures Get64(s, 40) == Get64(t, 40) && Get64(s, 56) == Get64(t, 56)
  {
  }

  lemma HeaderChecksAlike(s: seq<u8>, t: seq<u8>)
    requires CheckHeader(s) == Ok && SameButUnread(s, t)
    ensures CheckHeader(t) == Ok && |BlockOf(t)| == |BlockOf(s)|
    ensures OpenedView(t) == OpenedView(s).(block := BlockOf(t))
    ensures Get32(t, 48) == Get32(s, 48) && Get32(t, 52) == Get32(s, 52)
  {
    hide Get16, Get32, Get64, Crc32c, Crc.Blanked, Unread;
    forall j | 0 <= j < HEADER_SIZE && !(20 <= j < 24)
      ensures s[j] == t[j]
    {
      if s[j] != t[j] {
        UnreadIsBehindHeader(s, j);
      }
    }
    HeaderAlike(s, t);
  }

  lemma BlocksDifferInPadding(s: seq<u8>, t: seq<u8>)
    requires CheckHeader(s) == Ok && SameButUnread(s, t) && CheckHeader(t) == Ok && |BlockOf(t)| == |BlockOf(s)|
    ensures HEADER_SIZE <= Get32(s, 48)
    ensures DifferInPadding(BlockOf(s), BlockOf(t), Get32(s, 48), Get32(s, 52))
  {
    hide Get16, Get32, Get64, Crc32c, Crc.Blanked, InPadding;
  }

  /** Padding and gaps are ignored: two blocks that agree everywhere else, each with a right
      checksum, open alike and give the same header fields and records. */
  lemma PaddingIsIgnored(s: seq<u8>, t: seq<u8>)
    requires CheckHeader(s) == Ok && SameButUnread(s, t)
    ensures OpenResult(t) == OpenResult(s)
    ensures OpenResult(s) == Ok ==>
              && ViewAfter(t) == ViewAfter(s).(block := ViewAfter(t).block)
              && RecordsOf(ViewAfter(t)) == RecordsOf(ViewAfter(s))
  {
    hide CheckHeader, Walk, Decode, SameButUnread, DifferInPadding, Get16, Get32, Get64;
    HeaderChecksAlike(s, t);
    BlocksDifferInPadding(s, t);
    WalkIgnoresPadding(BlockOf(s), BlockOf(t), Get32(s, 48), Get32(s, 52), 0, 0);
  }

  /** A window with one byte of its block replaced and the checksum adjusted. */
  function Resealed(window: seq<u8>, j: nat, value: u8): (t: seq<u8>)
    requires CheckHeader(window) == Ok && HEADER_SIZE <= j < |BlockOf(window)|
    ensures |t| == |window| && t[j] == value
    ensures forall i | 0 <= i < |t| && i != j && !(20 <= i < 24) :: t[i] == window[i]
  {
    var changed := window[j := value];
    changed[..20] + Le32(Crc32c(Crc.Blanked(changed[..|BlockOf(window)|], 20, 24))) + changed[24..]
  }

  lemma ResealedIsChecksummed(window: seq<u8>, j: nat, value: u8)
    requires CheckHeader(window) == Ok && HEADER_SIZE <= j < |BlockOf(window)|
    ensures var t, n := Resealed(window, j, value), |BlockOf(window)|;
            Get32(t, 20) == Crc32c(Crc.Blanked(t[..n], 20, 24))
  {
    hide Crc32c, Get32, CheckHeader, Le32;
    var t, n := Resealed(window, j, value), |BlockOf(window)|;
    var changed := window[j := value];
    var crc := Crc32c(Crc.Blanked(changed[..n], 20, 24));
    assert Crc.Blanked(t[..n], 20, 24) == Crc.Blanked(changed[..n], 20, 24);
    assert t[20..24] == Le32(crc);
    Get32OfLe32(t, 20, crc);
  }

  /** In particular any byte nobody reads may hold any value at all. */
  lemma UnreadMayHoldAnything(window: seq<u8>, j: nat, value: u8)
    requires OpenResult(window) == Ok && HEADER_SIZE <= j < |BlockOf(window)| && Unread(window, j)
    ensures var t := Resealed(window, j, value);
      OpenResult(t) == Ok && RecordsOf(ViewAfter(t)) == RecordsOf(ViewAfter(window))
  {
    hide CheckHeader, Walk, Unread, RecordsOf, ViewAfter, Resealed;
    ResealedIsChecksummed(window, j, value);
    PaddingIsIgnored(window, Resealed(window, j, value));
  }

  // ---- A block with nonzero padding

  const PADDED: Record := Record(3, 0, [7])

  function PaddedRecords(config: Config): seq<Record> {
    [ServiceRecord(config), MemoryRecord(config), PADDED]
  }

  lemma PaddedFits(config: Config)
    ensures FitsBlock(PaddedRecords(config))
    ensures |SealedBlock(HeaderFor(config), PaddedRecords(config))| == 200
  {
    var rs := CapturedRecords(config);
    assert PaddedRecords(config) == rs + [PADDED] && RecordLength(PADDED) == 24;
    hide EncodeReference, EncodeRecord, CapturedRecords, PaddedRecords;
    CapturedSize(config);
    assert |EncodeAll(rs)| == 112;
    EncodeAllAppends(rs, PADDED);
  }

  lemma PaddedIsJudged(config: Config)
    requires ReferencesFit(config)
    ensures Judge(PaddedRecords(config), 0, 0) == Ok
  {
    hide EncodeReference;
    ReferenceIsChecked(SERVICE_DIRECTORY, config.serviceObjectId, config.serviceAddress, config.serviceLength);
    ReferenceIsChecked(MEMORY_MAP, config.memoryObjectId, config.memoryAddress, config.memoryLength);
    var rs := PaddedRecords(config);
    assert CheckRecord(PADDED.recordType, PADDED.flags, PADDED.payload) == Ok;
    hide CheckRecord;
    assert rs[1..] == [rs[1], rs[2]] && rs[1..][1..] == [rs[2]] && rs[1..][1..][1..] == [];
    assert Judge(rs[1..][1..][1..], 1, 1) == Ok;
    assert Judge(rs[1..][1..], 1, 1) == Ok;
    assert Judge(rs[1..], 1, 0) == Ok;
  }

  lemma PaddedBytesAreUnread(config: Config, j: nat)
    requires OnlyBitsBelow(config.headerFlags, 4) && FitsBlock(PaddedRecords(config)) && 193 <= j < 200
    requires CheckHeader(SealedBlock(HeaderFor(config), PaddedRecords(config))) == Ok
    ensures |BlockOf(SealedBlock(HeaderFor(config), PaddedRecords(config)))| == 200
    ensures Unread(SealedBlock(HeaderFor(config), PaddedRecords(config)), j)
  {
    hide EncodeReference, EncodeRecord, EncodeAll, SealedBlock, CheckHeader, Get16, Get32, Get64, RecordAt;
    hide IsHeader, ReadsAsHeader, SealChecksum;
    var h, rs := HeaderFor(config), PaddedRecords(config);
    var block := SealedBlock(h, rs);
    PaddedFits(config);
    SealedHeaderPasses(h, rs, []);
    assert block + [] == block;
    SealedBlockReads(h, rs);
    EncodedRecordsWalk(block, 64, rs, 0, 0);
    DecodeTiles(block, 64, 3);
    PlacesOfPadded(config);
    assert InPadding(block, 176, 1, j);
    assert InPadding(block, 120, 2, j);
  }

  lemma PlacesOfPadded(config: Config)
    requires AllEncodable(PaddedRecords(config))
    ensures var views := ViewsOf(PaddedRecords(config));
      && OffsetOf(views, 64, 0) == 64 && OffsetOf(views, 64, 1) == 120 && OffsetOf(views, 64, 2) == 176
      && views[0].serializedLength == views[1].serializedLength == 56
      && views[2].serializedLength == 24 && |views[2].payload| == 1
  {
    hide EncodeReference;
    var views := ViewsOf(PaddedRecords(config));
    assert views[1..][0] == views[1];
    assert OffsetOf(views[1..], 120, 1) == OffsetOf(views[1..][1..], 176, 0);
  }

  /** Documented to be zero, padding may be anything: here is an accepted block with any value
      in any padding byte of its last record. */
  lemma NonzeroPaddingOpens(config: Config, j: nat, value: u8) returns (window: seq<u8>)
    requires OnlyBitsBelow(config.headerFlags, 4) && ReferencesFit(config) && 193 <= j < 200
    ensures |window| == 200 && window[j] == value && OpenResult(window) == Ok
    ensures RecordsOf(ViewAfter(window)) == PaddedRecords(config)
  {
    hide PaddedRecords, SealedBlock, CheckHeader, Walk, Judge, Unread, Resealed, OpenResult, ViewAfter, RecordsOf;
    var h, rs := HeaderFor(config), PaddedRecords(config);
    PaddedFits(config);
    var block := SealedBlock(h, rs);
    assert block + [] == block;
    PaddedIsJudged(config);
    SealedBlockOpens(h, rs, []);
    SealedBlockRoundTrip(h, rs, block);
    OpenedHeader(block);
    PaddedBytesAreUnread(config, j);
    UnreadMayHoldAnything(block, j, value);
    window := Resealed(block, j, value);
  }

  lemma OpenedHeader(window: seq<u8>)
    requires OpenResult(window) == Ok
    ensures CheckHeader(window) == Ok
  {
  }

  // ---- References that point nowhere

  /** A zero address and a zero length are documented as invalid for a mandatory reference; the
      reader takes both and hands them back. */
  lemma ZeroReferencesOpen(config: Config, window: seq<u8>)
    requires OnlyBitsBelow(config.headerFlags, 4) && FitsBlock(CapturedRecords(config))
    requires config.serviceAddress == config.serviceLength == config.memoryAddress == config.memoryLength == 0
    requires SealedBlock(HeaderFor(config), CapturedRecords(config)) <= window
    ensures OpenResult(window) == Ok
    ensures Lookup(ViewAfter(window), SERVICE_DIRECTORY) ==
            FoundReference(Reference(config.serviceObjectId, 0, 0, 1, 0, 0, []))
    ensures Lookup(ViewAfter(window), MEMORY_MAP) ==
            FoundReference(Reference(config.memoryObjectId, 0, 0, 1, 0, 0, []))
  {
    hide OpenResult, ViewAfter, Lookup, SealedBlock;
    CaptureOpens(config, window);
  }

  // ---- The order of records

  lemma {:induction false} CountOfSplit(a: seq<Record>, r: Record, b: seq<Record>, recordType: u16)
    ensures CountOf(a + [r] + b, recordType) == One(r.recordType == recordType) + CountOf(a + b, recordType)
    decreases |a|
  {
    if a == [] {
      assert ([] + [r] + b)[1..] == b && [] + b == b;
    } else {
      assert (a + [r] + b)[1..] == a[1..] + [r] + b && (a + b)[1..] == a[1..] + b;
      CountOfSplit(a[1..], r, b, recordType);
    }
  }

  lemma {:induction false} EncodeAllSplit(a: seq<Record>, r: Record, b: seq<Record>)
    requires AllEncodable(a + [r] + b)
    ensures AllEncodable(a + b) && Encodable(r)
    ensures |EncodeAll(a + [r] + b)| == RecordLength(r) + |EncodeAll(a + b)|
    decreases |a|
  {
    hide EncodeRecord, Encodable;
    var all := a + [r] + b;
    assert all[|a|] == r;
    assert forall i | 0 <= i < |a + b| :: (a + b)[i] == if i < |a| then all[i] else all[i + 1];
    if a == [] {
      assert all[1..] == b && [] + b == b;
    } else {
      assert all[1..] == a[1..] + [r] + b && (a + b)[1..] == a[1..] + b;
      EncodeAllSplit(a[1..], r, b);
    }
  }

  lemma MemberOf(rs: seq<Record>, qs: seq<Record>, i: nat) returns (j: nat)
    requires multiset(rs) == multiset(qs) && i < |qs|
    ensures j < |rs| && rs[j] == qs[i]
  {
    assert qs[i] in multiset(qs);
    assert qs[i] in multiset(rs);
    j :| 0 <= j < |rs| && rs[j] == qs[i];
  }

  lemma StaysEncodable(rs: seq<Record>, qs: seq<Record>)
    requires AllEncodable(rs) && multiset(rs) == multiset(qs)
    ensures AllEncodable(qs)
  {
    hide Encodable;
    forall i | 0 <= i < |qs|
      ensures Encodable(qs[i])
    {
      var j := MemberOf(rs, qs, i);
    }
  }

  lemma StaysAdmissible(rs: seq<Record>, qs: seq<Record>)
    requires multiset(rs) == multiset(qs) && forall i | 0 <= i < |rs| :: Admissible(rs[i])
    ensures forall i | 0 <= i < |qs| :: Admissible(qs[i])
  {
    hide Admissible;
    forall i | 0 <= i < |qs|
      ensures Admissible(qs[i])
    {
      var j := MemberOf(rs, qs, i);
    }
  }

  lemma WithoutOne(a: seq<Record>, r: Record, b: seq<Record>)
    ensures multiset(a + [r] + b) == multiset(a + b) + multiset{r}
  {
    assert multiset(a + [r] + b) == multiset(a) + multiset([r]) + multiset(b);
    assert multiset(a + b) == multiset(a) + multiset(b);
  }

  lemma CancelOne(x: multiset<Record>, y: multiset<Record>, r: Record)
    requires x + multiset{r} == y + multiset{r}
    ensures x == y
  {
    assert x == (x + multiset{r}) - multiset{r} && y == (y + multiset{r}) - multiset{r};
  }

  lemma WithoutFirst(rs: seq<Record>, qs: seq<Record>) returns (a: seq<Record>, b: seq<Record>)
    requires rs != [] && multiset(rs) == multiset(qs)
    ensures qs == a + [rs[0]] + b && multiset(rs[1..]) == multiset(a + b)
  {
    var i := MemberOf(qs, rs, 0);
    a, b := qs[..i], qs[i + 1..];
    assert qs == a + [rs[0]] + b && rs == [] + [rs[0]] + rs[1..];
    WithoutOne(a, rs[0], b);
    WithoutOne([], rs[0], rs[1..]);
    assert [] + rs[1..] == rs[1..];
    CancelOne(multiset(rs[1..]), multiset(a + b), rs[0]);
  }

  /** Reordering keeps what a block's acceptance depends on. */
  lemma {:induction false} ReorderedAlike(rs: seq<Record>, qs: seq<Record>, recordType: u16)
    requires AllEncodable(rs) && multiset(rs) == multiset(qs)
    ensures |qs| == |rs| && AllEncodable(qs) && |EncodeAll(qs)| == |EncodeAll(rs)|
    ensures CountOf(qs, recordType) == CountOf(rs, recordType)
    decreases |rs|
  {
    hide EncodeRecord, Encodable;
    StaysEncodable(rs, qs);
    assert |multiset(rs)| == |rs| && |multiset(qs)| == |qs|;
    if rs == [] {
    } else {
      var a, b := WithoutFirst(rs, qs);
      CountOfSplit(a, rs[0], b, recordType);
      EncodeAllSplit(a, rs[0], b);
      ReorderedAlike(rs[1..], a + b, recordType);
    }
  }

  lemma SameAcceptance(rs: seq<Record>, qs: seq<Record>)
    requires AllEncodable(rs) && multiset(rs) == multiset(qs)
    ensures AcceptableRecords(rs) <==> AcceptableRecords(qs)
  {
    hide Admissible, EncodeRecord, Encodable;
    ReorderedAlike(rs, qs, SERVICE_DIRECTORY);
    ReorderedAlike(rs, qs, MEMORY_MAP);
    if AcceptableRecords(rs) {
      StaysAdmissible(rs, qs);
    }
    if AcceptableRecords(qs) {
      StaysAdmissible(qs, rs);
    }
  }

  /** Producers are asked for ascending types; to the reader the order is all the same. */
  lemma OrderDoesNotMatter(h: Header, rs: seq<Record>, qs: seq<Record>, tail: seq<u8>)
    requires FitsBlock(rs) && OnlyBitsBelow(h.flags, 4) && multiset(rs) == multiset(qs)
    ensures FitsBlock(qs) && |SealedBlock(h, qs)| == |SealedBlock(h, rs)|
    ensures OpenResult(SealedBlock(h, rs) + tail) == Ok <==> OpenResult(SealedBlock(h, qs) + tail) == Ok
  {
    hide OpenResult, ViewAfter, SealedBlock, AcceptableRecords, EncodeAll, AllEncodable;
    ReorderedAlike(rs, qs, SERVICE_DIRECTORY);
    SameAcceptance(rs, qs);
    SealedBlockRoundTrip(h, rs, SealedBlock(h, rs) + tail);
    SealedBlockRoundTrip(h, qs, SealedBlock(h, qs) + tail);
  }

  /** So a capture with its references in descending order opens as well. */
  lemma DescendingCaptureOpens(config: Config, tail: seq<u8>)
    requires OnlyBitsBelow(config.headerFlags, 4) && ReferencesFit(config)
    ensures FitsBlock([MemoryRecord(config), ServiceRecord(config)])
    ensures OpenResult(SealedBlock(HeaderFor(config), [MemoryRecord(config), ServiceRecord(config)]) + tail) == Ok
  {
    hide OpenResult, ViewAfter, Lookup, SealedBlock, EncodeReference;
    CapturedSize(config);
    CaptureOpens(config, SealedBlock(HeaderFor(config), CapturedRecords(config)) + tail);
    var qs := [MemoryRecord(config), ServiceRecord(config)];
    assert multiset(qs) == multiset(CapturedRecords(config));
    OrderDoesNotMatter(HeaderFor(config), CapturedRecords(config), qs, tail);
  }

  // ---- The header length

  lemma {:induction false} WalkNeverHeaderLength(block: seq<u8>, offset: nat, count: nat, services: nat, memories: nat)
    ensures Walk(block, offset, count, services, memories) != HeaderLengthError
    decreases count
  {
    hide Get16, Get32, Get64;
    if count == 0 {
    } else if RecordAt(block, offset).Found? {
      var r := RecordAt(block, offset).record;
      WalkNeverHeaderLength(block, offset + r.serializedLength, count - 1,
                            services + One(r.recordType == SERVICE_DIRECTORY), memories + One(r.recordType == MEMORY_MAP));
    }
  }

  /** Documented as at least 64, the header length has to be exactly 64: once magic and major
      version pass, every other value is that error, and nothing else is. */
  lemma OnlyOneHeaderLength(window: seq<u8>)
    requires |window| >= HEADER_SIZE && window[0..8] == MAGIC && Get16(window, 8) == 1
    ensures OpenResult(window) == HeaderLengthError <==> Get16(window, 12) != HEADER_SIZE
  {
    hide Get16, Get32, Get64, Crc32c, Walk;
    if CheckHeader(window) == Ok {
      WalkNeverHeaderLength(BlockOf(window), Get32(window, 48), Get32(window, 52), 0, 0);
    }
  }
}
