/** What the reader's walk establishes about any block: the one linear decode behind every
    later access, the tiling of the block, and the exact acceptance condition. */
module BibDecoding {
  import opened Bytes
  import opened Words
  import opened BibFormat
  import opened BibReader

  /** The records of one linear pass, and where it ended. */
  datatype Decoded = Records(views: seq<RecordView>, end: nat) | Undecodable

  function Decode(block: seq<u8>, offset: nat, count: nat): Decoded
    decreases count
  {
    if count == 0 then Records([], offset)
    else
      match RecordAt(block, offset)
      case Bad(_) => Undecodable
      case Found(r) =>
        match Decode(block, offset + r.serializedLength, count - 1)
        case Undecodable => Undecodable
        case Records(rest, end) => Records([r] + rest, end)
  }

  function Plain(r: RecordView): Record {
    Record(r.recordType, r.flags, r.payload)
  }

  function PlainAll(views: seq<RecordView>): (rs: seq<Record>)
    ensures |rs| == |views| && forall i | 0 <= i < |rs| :: rs[i] == Plain(views[i])
  {
    seq(|views|, i requires 0 <= i < |views| => Plain(views[i]))
  }

  /** The number of records of a type. */
  function CountOf(rs: seq<Record>, recordType: u16): nat
    decreases |rs|
  {
    if rs == [] then 0 else One(rs[0].recordType == recordType) + CountOf(rs[1..], recordType)
  }

  /** What the specification asks of a record: an unknown one is optional, and a required
      reference is complete and does not run past the end of the address space. */
  predicate Admissible(r: Record) {
    && (r.recordType in {1, 2, 3, 4, 5, 6, 7, 8, 9, 10} || !Digit(r.flags, 0))
    && (r.recordType in {1, 2} ==>
          |r.payload| >= 40 && Get64(r.payload, 8) + Get64(r.payload, 16) <= 0xFFFF_FFFF_FFFF_FFFF)
  }

  predicate AcceptableRecords(rs: seq<Record>) {
    && (forall i | 0 <= i < |rs| :: Admissible(rs[i]))
    && CountOf(rs, SERVICE_DIRECTORY) == 1
    && CountOf(rs, MEMORY_MAP) == 1
  }

  /** The walk's verdict on a list of records, given what was counted before. */
  function Judge(rs: seq<Record>, services: nat, memories: nat): Error
    decreases |rs|
  {
    if rs == [] then (if services != 1 || memories != 1 then RequiredRecordError else Ok)
    else
      var r := rs[0];
      var error := CheckRecord(r.recordType, r.flags, r.payload);
      if error != Ok then error
      else Judge(rs[1..], services + One(r.recordType == SERVICE_DIRECTORY), memories + One(r.recordType == MEMORY_MAP))
  }

  /** The check on a record passes the admissible ones and says what is wrong with the others. */
  lemma CheckIsAdmissible(r: Record)
    ensures CheckRecord(r.recordType, r.flags, r.payload) == Ok <==> Admissible(r)
    ensures CheckRecord(r.recordType, r.flags, r.payload) ==
            if r.recordType !in {1, 2, 3, 4, 5, 6, 7, 8, 9, 10} && Digit(r.flags, 0) then UnknownMandatoryError
            else if Admissible(r) then Ok
            else if |r.payload| < 40 then TlvBoundsError
            else ReferenceOverflowError
  {
    hide Get64, Digit;
    KnownTypes(r.recordType);
    KnownRecordFlags(r.flags);
  }

  lemma {:induction false} JudgeOk(rs: seq<Record>, services: nat, memories: nat)
    ensures Judge(rs, services, memories) == Ok <==>
            && (forall i | 0 <= i < |rs| :: Admissible(rs[i]))
            && services + CountOf(rs, SERVICE_DIRECTORY) == 1
            && memories + CountOf(rs, MEMORY_MAP) == 1
    decreases |rs|
  {
    hide Admissible, CheckRecord;
    if rs == [] {
    } else {
      var r := rs[0];
      CheckIsAdmissible(r);
      JudgeOk(rs[1..], services + One(r.recordType == SERVICE_DIRECTORY), memories + One(r.recordType == MEMORY_MAP));
      assert (forall i | 0 <= i < |rs| :: Admissible(rs[i])) <==>
             Admissible(r) && forall i | 0 <= i < |rs[1..]| :: Admissible(rs[1..][i]) by {
        assert forall i | 1 <= i < |rs| :: rs[i] == rs[1..][i - 1];
      }
    }
  }

  lemma BadIsAnError(block: seq<u8>, offset: nat)
    ensures RecordAt(block, offset) != Bad(Ok)
  {
    hide Get16, Get32;
  }

  /** The walk accepts exactly the blocks that decode to their very end into records the
      judgement accepts. */
  lemma {:induction false} WalkIsJudgement(block: seq<u8>, offset: nat, count: nat, services: nat, memories: nat)
    ensures Walk(block, offset, count, services, memories) == Ok <==>
            var d := Decode(block, offset, count);
            d.Records? && d.end == |block| && Judge(PlainAll(d.views), services, memories) == Ok
    decreases count
  {
    hide RecordAt, CheckRecord, Judge;
    BadIsAnError(block, offset);
    if count == 0 {
      JudgeNone(services, memories);
    } else if RecordAt(block, offset).Found? {
      var r := RecordAt(block, offset).record;
      var s, m := services + One(r.recordType == SERVICE_DIRECTORY), memories + One(r.recordType == MEMORY_MAP);
      WalkIsJudgement(block, offset + r.serializedLength, count - 1, s, m);
      var rest := Decode(block, offset + r.serializedLength, count - 1);
      if rest.Records? {
        JudgeHead(r, rest.views, services, memories);
      }
      hide PlainAll;
    }
  }

  lemma JudgeNone(services: nat, memories: nat)
    ensures Judge(PlainAll([]), services, memories) == if services != 1 || memories != 1 then RequiredRecordError else Ok
  {
    assert PlainAll([]) == [];
  }

  lemma JudgeHead(r: RecordView, rest: seq<RecordView>, services: nat, memories: nat)
    ensures Judge(PlainAll([r] + rest), services, memories) ==
            var error := CheckRecord(r.recordType, r.flags, r.payload);
            if error != Ok then error
            else Judge(PlainAll(rest), services + One(r.recordType == SERVICE_DIRECTORY),
                       memories + One(r.recordType == MEMORY_MAP))
  {
    hide CheckRecord;
    var all := PlainAll([r] + rest);
    assert all[1..] == PlainAll(rest) && all[0] == Plain(r);
  }

  /** Consecutive records with no gap: where each one starts. */
  function OffsetOf(views: seq<RecordView>, offset: nat, i: nat): nat
    requires i <= |views|
    decreases i
  {
    if i == 0 then offset else OffsetOf(views[1..], offset + views[0].serializedLength, i - 1)
  }

  /** A successful decode has `count` records that tile the block from `offset` to `end`, each
      readable at its own place and by its index. */
  lemma {:induction false} DecodeTiles(block: seq<u8>, offset: nat, count: nat)
    requires Decode(block, offset, count).Records?
    ensures var d := Decode(block, offset, count);
      && |d.views| == count && OffsetOf(d.views, offset, count) == d.end
      && forall i | 0 <= i < count ::
           && RecordAt(block, OffsetOf(d.views, offset, i)) == Found(d.views[i])
           && NthRecord(block, offset, i) == Found(d.views[i])
    decreases count
  {
    hide RecordAt;
    if count == 0 {
    } else {
      var d := Decode(block, offset, count);
      var r := RecordAt(block, offset).record;
      var rest := Decode(block, offset + r.serializedLength, count - 1);
      DecodeTiles(block, offset + r.serializedLength, count - 1);
      assert d.views == [r] + rest.views && d.views[1..] == rest.views;
      forall i | 0 <= i < count
        ensures RecordAt(block, OffsetOf(d.views, offset, i)) == Found(d.views[i])
        ensures NthRecord(block, offset, i) == Found(d.views[i])
      {
        if i > 0 {
          assert d.views[i] == rest.views[i - 1];
        }
      }
    }
  }

  /** Admissible records, each where the one before it ends. */
  predicate Passed(block: seq<u8>, offset: nat, views: seq<RecordView>) {
    forall i | 0 <= i < |views| ::
      RecordAt(block, OffsetOf(views, offset, i)) == Found(views[i]) && Admissible(Plain(views[i]))
  }

  /** The walk's verdict, whatever the block: it passes over admissible records up to the count,
      or to the first record that is not there or not admissible, which decides. */
  lemma {:induction false} WalkVerdict(block: seq<u8>, offset: nat, count: nat, services: nat, memories: nat)
    returns (views: seq<RecordView>)
    ensures |views| <= count && Passed(block, offset, views)
    ensures var end := OffsetOf(views, offset, |views|);
      Walk(block, offset, count, services, memories) ==
      if |views| == count then
        if end != |block| then TlvBoundsError
        else if services + CountOf(PlainAll(views), 1) != 1 || memories + CountOf(PlainAll(views), 2) != 1
        then RequiredRecordError
        else Ok
      else
        match RecordAt(block, end)
        case Bad(error) => error
        case Found(r) => CheckRecord(r.recordType, r.flags, r.payload)
    ensures |views| < count ==>
              var last := RecordAt(block, OffsetOf(views, offset, |views|));
              last.Found? ==> !Admissible(Plain(last.record))
    decreases count
  {
    hide RecordAt, CheckRecord, Admissible, Passed;
    views := [];
    NonePassed(block, offset);
    assert PlainAll([]) == [];
    if count > 0 && RecordAt(block, offset).Found? {
      var r := RecordAt(block, offset).record;
      CheckIsAdmissible(Plain(r));
      if Admissible(Plain(r)) {
        var rest := WalkVerdict(block, offset + r.serializedLength, count - 1,
                                services + One(r.recordType == 1), memories + One(r.recordType == 2));
        PassedPrepends(block, offset, r, rest);
        OffsetPrepends(offset, r, rest, |rest|);
        CountPrepends(r, rest, 1);
        CountPrepends(r, rest, 2);
        views := [r] + rest;
      }
    }
  }

  lemma NonePassed(block: seq<u8>, offset: nat)
    ensures Passed(block, offset, [])
  {
  }

  lemma PassedPrepends(block: seq<u8>, offset: nat, r: RecordView, rest: seq<RecordView>)
    requires RecordAt(block, offset) == Found(r) && Admissible(Plain(r)) && Passed(block, offset + r.serializedLength, rest)
    ensures Passed(block, offset, [r] + rest)
  {
    hide RecordAt, Admissible;
    var views := [r] + rest;
    forall i | 0 <= i < |views|
      ensures RecordAt(block, OffsetOf(views, offset, i)) == Found(views[i]) && Admissible(Plain(views[i]))
    {
      if i > 0 {
        OffsetPrepends(offset, r, rest, i - 1);
        assert views[i] == rest[i - 1];
      }
    }
  }

  lemma OffsetPrepends(offset: nat, r: RecordView, rest: seq<RecordView>, i: nat)
    requires i <= |rest|
    ensures OffsetOf([r] + rest, offset, i + 1) == OffsetOf(rest, offset + r.serializedLength, i)
  {
    assert ([r] + rest)[1..] == rest;
  }

  lemma CountPrepends(r: RecordView, rest: seq<RecordView>, recordType: u16)
    ensures CountOf(PlainAll([r] + rest), recordType) == One(r.recordType == recordType) + CountOf(PlainAll(rest), recordType)
  {
    var all := PlainAll([r] + rest);
    assert all[1..] == PlainAll(rest) && all[0] == Plain(r);
  }

  /** Whatever count the header claims, the walk looks at no more records than fit. */
  lemma {:induction false} WalkIsBounded(block: seq<u8>, offset: nat, count: nat)
    requires offset <= |block|
    ensures WalkSteps(block, offset, count) <= (|block| - offset) / 16 + 1
    decreases count
  {
    hide RecordAt, CheckRecord;
    if count > 0 && RecordAt(block, offset).Found? {
      FoundInBounds(block, offset);
      var r := RecordAt(block, offset).record;
      WalkIsBounded(block, offset + r.serializedLength, count - 1);
      assert (|block| - offset - r.serializedLength) / 16 + 1 <= (|block| - offset) / 16;
    }
  }

  /** The exact acceptance condition of the reader. */
  lemma AcceptedIff(window: seq<u8>)
    ensures OpenResult(window) == Ok <==>
            && CheckHeader(window) == Ok
            && var d := Decode(BlockOf(window), Get32(window, 48), Get32(window, 52));
            && d.Records? && d.end == |BlockOf(window)| && AcceptableRecords(PlainAll(d.views))
  {
    hide Walk, Decode, Judge, Admissible, Get32, RecordAt;
    if CheckHeader(window) == Ok {
      hide CheckHeader;
      var block, offset, count := BlockOf(window), Get32(window, 48), Get32(window, 52);
      WalkIsJudgement(block, offset, count, 0, 0);
      var d := Decode(block, offset, count);
      if d.Records? {
        JudgeOk(PlainAll(d.views), 0, 0);
      }
    }
  }

  /** After a successful open every record below the count can be read, and they tile the
      block; past the count there is nothing. */
  lemma OpenedRecordsReadBack(window: seq<u8>, i: nat)
    requires OpenResult(window) == Ok
    ensures var view := ViewAfter(window);
      var d := Decode(view.block, view.tlvOffset, view.tlvCount);
      && d.Records? && |d.views| == view.tlvCount
      && OffsetOf(d.views, view.tlvOffset, view.tlvCount) == |view.block|
      && ReadRecord(view, i) == if i < view.tlvCount then Found(d.views[i]) else Bad(TlvBoundsError)
  {
    hide CheckHeader, Walk, Decode, Get32, RecordAt, NthRecord, AcceptableRecords;
    AcceptedIff(window);
    var view := ViewAfter(window);
    DecodeTiles(view.block, view.tlvOffset, view.tlvCount);
  }

  /** Through a cleared view nothing can be read. */
  lemma ClearedViewReadsNothing(i: nat, recordType: u16)
    ensures ReadRecord(CLEARED, i) == Bad(TlvBoundsError)
    ensures FirstReference(CLEARED.block, CLEARED.tlvOffset, CLEARED.tlvCount, recordType) ==
            NoReference(RequiredRecordError)
  {
  }

  // ---- Reference lookup

  /** The first record of a type in a list. */
  function FirstOf(rs: seq<Record>, recordType: u16): (i: nat)
    requires CountOf(rs, recordType) > 0
    ensures i < |rs| && rs[i].recordType == recordType
    ensures forall k | 0 <= k < i :: rs[k].recordType != recordType
    decreases |rs|
  {
    if rs[0].recordType == recordType then 0 else 1 + FirstOf(rs[1..], recordType)
  }

  /** The quadratic lookup returns the first record of the type in the linear decode. */
  lemma {:induction false} LookupIsFirst(block: seq<u8>, offset: nat, count: nat, recordType: u16)
    requires Decode(block, offset, count).Records?
    ensures var rs := PlainAll(Decode(block, offset, count).views);
            FirstReference(block, offset, count, recordType) ==
            if CountOf(rs, recordType) == 0 then NoReference(RequiredRecordError)
            else ParseReference(rs[FirstOf(rs, recordType)].payload)
    decreases count
  {
    hide RecordAt, ParseReference;
    if count == 0 {
    } else {
      var r := RecordAt(block, offset).record;
      var rest := Decode(block, offset + r.serializedLength, count - 1);
      LookupIsFirst(block, offset + r.serializedLength, count - 1, recordType);
      var rs := PlainAll([r] + rest.views);
      assert rs[1..] == PlainAll(rest.views);
      assert rs[0] == Plain(r);
    }
  }

  /** The records behind a view. */
  function RecordsOf(view: ViewData): seq<Record> {
    match Decode(view.block, view.tlvOffset, view.tlvCount)
    case Records(views, _) => PlainAll(views)
    case Undecodable => []
  }

  function Lookup(view: ViewData, recordType: u16): ReferenceResult {
    FirstReference(view.block, view.tlvOffset, view.tlvCount, recordType)
  }

  /** After a successful open, a required reference is always there; its lookup can only fail
      on an integrity length that exceeds the payload. */
  lemma RequiredLookupFindsRecord(window: seq<u8>, recordType: u16) returns (payload: seq<u8>)
    requires OpenResult(window) == Ok && IsRequired(recordType)
    ensures var rs := RecordsOf(ViewAfter(window));
      CountOf(rs, recordType) == 1 && payload == rs[FirstOf(rs, recordType)].payload
    ensures |payload| >= REFERENCE_SIZE
    ensures Lookup(ViewAfter(window), recordType) == ParseReference(payload)
    ensures if Get32(payload, 36) <= |payload| - REFERENCE_SIZE
            then Lookup(ViewAfter(window), recordType).FoundReference?
            else Lookup(ViewAfter(window), recordType) == NoReference(ReferenceIntegrityError)
    ensures Get64(payload, 8) + Get64(payload, 16) <= UINT64_MAX
  {
    hide CheckHeader, Walk, Decode, RecordAt, Get32, Get64;
    AcceptedIff(window);
    var view := ViewAfter(window);
    LookupIsFirst(view.block, view.tlvOffset, view.tlvCount, recordType);
    var rs := RecordsOf(view);
    payload := rs[FirstOf(rs, recordType)].payload;
  }
}
