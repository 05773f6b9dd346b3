/** The Boot Information Block consumer (src/bib/bib_reader.c): validation of a handoff
    window, and record access through the resulting view. */
module BibReader {
  import opened Bytes
  import opened BibFormat
  import opened Words
  import Crc

  datatype Error =
    | Ok
    | WindowError
    | MagicError
    | VersionError
    | HeaderLengthError
    | TotalLengthError
    | CrcError
    | HeaderReservedError
    | TlvBoundsError
    | TlvReservedError
    | UnknownMandatoryError
    | RequiredRecordError
    | ReferenceOverflowError
    | ReferenceIntegrityError

  datatype RecordView = RecordView(recordType: u16, flags: u16, payload: seq<u8>, serializedLength: u32)

  datatype RecordResult = Found(record: RecordView) | Bad(error: Error)

  datatype ReferenceResult = FoundReference(reference: Reference) | NoReference(error: Error)

  /** The content of a view; a cleared one is all zero. */
  datatype ViewData = ViewData(block: seq<u8>, tlvOffset: u32, tlvCount: u32, flags: u16,
                               bootId: u64, producerId: u64, createdCounter: u64)

  const CLEARED: ViewData := ViewData([], 0, 0, 0, 0, 0, 0)

  // ---- What the reader decides

  /** The record at an offset of a block. */
  function RecordAt(block: seq<u8>, offset: nat): RecordResult {
    if offset > |block| || |block| - offset < RECORD_HEADER_SIZE then Bad(TlvBoundsError)
    else
      var length, payloadLength := Get32(block, offset + 4), Get32(block, offset + 8);
      if length < RECORD_HEADER_SIZE || length % 8 != 0 || length > |block| - offset
         || payloadLength > length - RECORD_HEADER_SIZE then Bad(TlvBoundsError)
      else if !RecordFlagsKnown(Get16(block, offset + 2)) || Get32(block, offset + 12) != 0 then Bad(TlvReservedError)
      else Found(RecordView(Get16(block, offset), Get16(block, offset + 2),
                            block[offset + RECORD_HEADER_SIZE..offset + RECORD_HEADER_SIZE + payloadLength], length))
  }

  /** The checks on one decoded record. */
  function CheckRecord(recordType: u16, flags: u16, payload: seq<u8>): Error {
    if !KnownType(recordType) && Mandatory(flags) then UnknownMandatoryError
    else if !IsRequired(recordType) then Ok
    else if |payload| < REFERENCE_SIZE then TlvBoundsError
    else if Get64(payload, 8) > UINT64_MAX - Get64(payload, 16) then ReferenceOverflowError
    else Ok
  }

  function One(b: bool): nat {
    if b then 1 else 0
  }

  /** The record walk from an offset, with the required records counted so far. */
  function Walk(block: seq<u8>, offset: nat, count: nat, services: nat, memories: nat): Error
    decreases count
  {
    if count == 0 then
      if offset != |block| then TlvBoundsError
      else if services != 1 || memories != 1 then RequiredRecordError
      else Ok
    else
      match RecordAt(block, offset)
      case Bad(error) => error
      case Found(r) =>
        var error := CheckRecord(r.recordType, r.flags, r.payload);
        if error != Ok then error
        else Walk(block, offset + r.serializedLength, count - 1,
                  services + One(r.recordType == SERVICE_DIRECTORY), memories + One(r.recordType == MEMORY_MAP))
  }

  /** The number of records the walk looks at. */
  function WalkSteps(block: seq<u8>, offset: nat, count: nat): nat
    decreases count
  {
    if count == 0 then 0
    else
      match RecordAt(block, offset)
      case Bad(_) => 1
      case Found(r) =>
        if CheckRecord(r.recordType, r.flags, r.payload) != Ok then 1
        else 1 + WalkSteps(block, offset + r.serializedLength, count - 1)
  }

  /** The checks on the fixed header. */
  function CheckHeader(window: seq<u8>): Error {
    if |window| < HEADER_SIZE then WindowError
    else if window[0..8] != MAGIC then MagicError
    else if Get16(window, 8) != 1 then VersionError
    else if Get16(window, 12) != HEADER_SIZE then HeaderLengthError
    else
      var total := Get32(window, 16);
      if total < HEADER_SIZE || total > |window| || total > MAX_SIZE || total % 8 != 0 then TotalLengthError
      else if Get32(window, 20) != Crc32c(Crc.Blanked(window[..total], 20, 24)) then CrcError
      else if !HeaderFlagsKnown(Get16(window, 14)) || Get64(window, 56) != 0 then HeaderReservedError
      else if Get32(window, 48) < HEADER_SIZE || Get32(window, 48) > total || Get32(window, 48) % 8 != 0 then TlvBoundsError
      else Ok
  }

  /** The block inside a window whose header passed. */
  function BlockOf(window: seq<u8>): (block: seq<u8>)
    requires CheckHeader(window) == Ok
    ensures HEADER_SIZE <= |block| == Get32(window, 16) <= |window| && |block| <= MAX_SIZE
  {
    window[..Get32(window, 16)]
  }

  function OpenResult(window: seq<u8>): Error {
    var error := CheckHeader(window);
    if error != Ok then error
    else Walk(BlockOf(window), Get32(window, 48), Get32(window, 52), 0, 0)
  }

  function OpenedView(window: seq<u8>): ViewData
    requires CheckHeader(window) == Ok
  {
    ViewData(BlockOf(window), Get32(window, 48), Get32(window, 52), Get16(window, 14),
             Get64(window, 24), Get64(window, 32), Get64(window, 40))
  }

  /** What an open leaves in a view, past the window check. */
  function ViewAfter(window: seq<u8>): ViewData {
    if OpenResult(window) == Ok then OpenedView(window) else CLEARED
  }

  /** The record reached by skipping `index` records. */
  function NthRecord(block: seq<u8>, offset: nat, index: nat): RecordResult
    decreases index
  {
    if index == 0 then RecordAt(block, offset)
    else
      match RecordAt(block, offset)
      case Bad(error) => Bad(error)
      case Found(r) => NthRecord(block, offset + r.serializedLength, index - 1)
  }

  function ReadRecord(view: ViewData, index: nat): RecordResult {
    if index >= view.tlvCount then Bad(TlvBoundsError) else NthRecord(view.block, view.tlvOffset, index)
  }

  function ParseReference(payload: seq<u8>): ReferenceResult {
    if |payload| < REFERENCE_SIZE then NoReference(TlvBoundsError)
    else if Get32(payload, 36) > |payload| - REFERENCE_SIZE then NoReference(ReferenceIntegrityError)
    else FoundReference(Reference(Get64(payload, 0), Get64(payload, 8), Get64(payload, 16), Get32(payload, 24),
                                  Get32(payload, 28), Get32(payload, 32),
                                  payload[REFERENCE_SIZE..REFERENCE_SIZE + Get32(payload, 36)]))
  }

  /** The first record of a type in one linear pass over the block. */
  function FirstReference(block: seq<u8>, offset: nat, count: nat, recordType: u16): ReferenceResult
    decreases count
  {
    if count == 0 then NoReference(RequiredRecordError)
    else
      match RecordAt(block, offset)
      case Bad(error) => NoReference(error)
      case Found(r) =>
        if r.recordType == recordType then ParseReference(r.payload)
        else FirstReference(block, offset + r.serializedLength, count - 1, recordType)
  }

  // ---- The procedures

  /** The CRC with bytes 20 to 23 read as zero. */
  method Crc32cWithZeroedField(data: array<u8>, length: nat) returns (r: u32)
    requires length <= data.Length
    ensures r == Crc32c(Crc.Blanked(data[..length], 20, 24))
  {
    ghost var all := Crc.Blanked(data[..length], 20, 24);
    r := 0xFFFF_FFFF;
    var i := 0;
    while i < length
      invariant 0 <= i <= length
      invariant Crc.Update(r, all[i..], Crc.CRC32C) == Crc.Update(0xFFFF_FFFF, all, Crc.CRC32C)
    {
      var byte := if 20 <= i < 24 then 0 else data[i];
      assert byte == all[i] && all[i..][1..] == all[i + 1..];
      r := BitXor(r, byte);
      r := Crc.TernaryByte(r, 0x82F6_3B78);
      i := i + 1;
    }
    r := BitXor(r, 0xFFFF_FFFF);
  }

  lemma RecordFieldsOfPrefix(s: seq<u8>, n: nat, at: nat)
    requires at + RECORD_HEADER_SIZE <= n <= |s|
    ensures Get16(s[..n], at) == Get16(s, at) && Get16(s[..n], at + 2) == Get16(s, at + 2)
    ensures Get32(s[..n], at + 4) == Get32(s, at + 4) && Get32(s[..n], at + 8) == Get32(s, at + 8)
    ensures Get32(s[..n], at + 12) == Get32(s, at + 12)
  {
  }

  lemma HeaderFieldsOfPrefix(s: seq<u8>, n: nat)
    requires HEADER_SIZE <= n <= |s|
    ensures Get16(s[..n], 8) == Get16(s, 8) && Get16(s[..n], 12) == Get16(s, 12) && Get16(s[..n], 14) == Get16(s, 14)
    ensures Get32(s[..n], 16) == Get32(s, 16) && Get32(s[..n], 20) == Get32(s, 20)
    ensures Get32(s[..n], 48) == Get32(s, 48) && Get32(s[..n], 52) == Get32(s, 52)
    ensures Get64(s[..n], 24) == Get64(s, 24) && Get64(s[..n], 32) == Get64(s, 32)
    ensures Get64(s[..n], 40) == Get64(s, 40) && Get64(s[..n], 56) == Get64(s, 56)
  {
  }

  lemma FoundInBounds(block: seq<u8>, offset: nat)
    requires RecordAt(block, offset).Found?
    ensures var r := RecordAt(block, offset).record;
      && RECORD_HEADER_SIZE <= r.serializedLength && offset + r.serializedLength <= |block|
      && |r.payload| <= r.serializedLength - RECORD_HEADER_SIZE && r.serializedLength % 8 == 0
  {
    hide Get16;
  }

  lemma NoBlockNoRecord(offset: nat, index: nat)
    ensures NthRecord([], offset, index) == Bad(TlvBoundsError)
  {
    assert RecordAt([], offset) == Bad(TlvBoundsError);
  }

  lemma PrefixOfArray(p: array<u8>, n: nat)
    requires n <= p.Length
    ensures p[..n] == p[..][..n]
  {
  }

  lemma SliceOfPrefix(p: array<u8>, n: nat, i: nat, j: nat)
    requires i <= j <= n <= p.Length
    ensures p[..n][i..j] == p[i..j]
  {
  }

  /** Walking from `at` finds what walking from the start and skipping `index` records finds. */
  ghost predicate SameFrom(block: seq<u8>, start: nat, index: nat, at: nat) {
    forall n: nat :: NthRecord(block, at, n) == NthRecord(block, start, index + n)
  }

  lemma SameNow(block: seq<u8>, start: nat, index: nat, at: nat)
    requires SameFrom(block, start, index, at)
    ensures NthRecord(block, start, index) == RecordAt(block, at)
  {
    hide RecordAt;
    assert NthRecord(block, at, 0) == NthRecord(block, start, index + 0);
  }

  lemma NextNth(block: seq<u8>, start: nat, index: nat, at: nat)
    requires RecordAt(block, at).Found? && SameFrom(block, start, index, at)
    ensures SameFrom(block, start, index + 1, at + RecordAt(block, at).record.serializedLength)
  {
    hide RecordAt;
    var next := at + RecordAt(block, at).record.serializedLength;
    forall n: nat
      ensures NthRecord(block, next, n) == NthRecord(block, start, index + 1 + n)
    {
      assert NthRecord(block, at, n + 1) == NthRecord(block, start, index + (n + 1));
    }
  }

  class View {
    var buffer: array?<u8>
    var totalLength: u32
    var tlvOffset: u32
    var tlvCount: u32
    var flags: u16
    var bootId: u64
    var producerId: u64
    var createdCounter: u64

    ghost predicate Valid()
      reads this
    {
      if buffer == null then totalLength == 0 else totalLength <= buffer.Length
    }

    ghost function Block(): seq<u8>
      requires Valid()
      reads this, buffer
    {
      if buffer == null then [] else buffer[..totalLength]
    }

    ghost function Value(): ViewData
      requires Valid()
      reads this, buffer
    {
      ViewData(Block(), tlvOffset, tlvCount, flags, bootId, producerId, createdCounter)
    }

    constructor ()
      ensures Valid() && buffer == null && Value() == CLEARED
    {
      buffer := null;
      totalLength, tlvOffset, tlvCount, flags := 0, 0, 0, 0;
      bootId, producerId, createdCounter := 0, 0, 0;
    }

    method Clear()
      modifies this
      ensures Valid() && buffer == null && Value() == CLEARED
    {
      buffer := null;
      totalLength, tlvOffset, tlvCount, flags := 0, 0, 0, 0;
      bootId, producerId, createdCounter := 0, 0, 0;
    }

    method RecordAtOffset(offset: u32) returns (result: RecordResult)
      requires Valid()
      ensures result == RecordAt(Block(), offset)
    {
      if offset > totalLength || totalLength - offset < RECORD_HEADER_SIZE {
        return Bad(TlvBoundsError);
      }
      hide Get16, Get32, RecordFlagsKnown;
      ghost var block := Block();
      RecordFieldsOfPrefix(buffer[..], totalLength, offset);
      PrefixOfArray(buffer, totalLength);
      var length := ReadLe32(buffer, offset + 4);
      var payloadLength := ReadLe32(buffer, offset + 8);
      if length < RECORD_HEADER_SIZE || length % 8 != 0 || length > totalLength - offset
         || payloadLength > length - RECORD_HEADER_SIZE {
        return Bad(TlvBoundsError);
      }
      var recordFlags := ReadLe16(buffer, offset + 2);
      var reserved := ReadLe32(buffer, offset + 12);
      if !RecordFlagsKnown(recordFlags) || reserved != 0 {
        return Bad(TlvReservedError);
      }
      var recordType := ReadLe16(buffer, offset);
      var start := offset + RECORD_HEADER_SIZE;
      SliceOfPrefix(buffer, totalLength, start, start + payloadLength);
      result := Found(RecordView(recordType, recordFlags, buffer[start..start + payloadLength], length));
    }

    /** The header half of an open. */
    method ReadHeader(p: array<u8>, windowLength: nat) returns (error: Error)
      requires Valid() && buffer == null && Value() == CLEARED
      requires HEADER_SIZE <= windowLength <= p.Length
      modifies this
      ensures Valid()
      ensures error == CheckHeader(p[..windowLength])
      ensures error == Ok ==> buffer == p && Value() == OpenedView(p[..windowLength])
      ensures error != Ok ==> buffer == null && Value() == CLEARED
    {
      hide Get16, Get32, Get64, Crc32c, Crc.Blanked;
      ghost var w := p[..windowLength];
      HeaderFieldsOfPrefix(p[..], windowLength);
      assert w[0..8] == p[0..8];
      if p[0..8] != MAGIC {
        return MagicError;
      }
      var major := ReadLe16(p, 8);
      if major != 1 {
        return VersionError;
      }
      var headerLength := ReadLe16(p, 12);
      if headerLength != HEADER_SIZE {
        return HeaderLengthError;
      }
      var total := ReadLe32(p, 16);
      if total < HEADER_SIZE || total > windowLength || total > MAX_SIZE || total % 8 != 0 {
        return TotalLengthError;
      }
      var stored := ReadLe32(p, 20);
      var crc := Crc32cWithZeroedField(p, total);
      assert p[..total] == w[..total];
      if stored != crc {
        return CrcError;
      }
      var headerFlags := ReadLe16(p, 14);
      var reserved := ReadLe64(p, 56);
      if !HeaderFlagsKnown(headerFlags) || reserved != 0 {
        return HeaderReservedError;
      }
      Fill(p, total, headerFlags);
      if tlvOffset < HEADER_SIZE || tlvOffset > total || tlvOffset % 8 != 0 {
        Clear();
        return TlvBoundsError;
      }
      error := Ok;
    }

    method Fill(p: array<u8>, total: u32, headerFlags: u16)
      requires HEADER_SIZE <= total <= p.Length
      modifies this
      ensures Valid() && buffer == p
      ensures Value() == ViewData(p[..total], Get32(p[..], 48), Get32(p[..], 52), headerFlags,
                                  Get64(p[..], 24), Get64(p[..], 32), Get64(p[..], 40))
    {
      hide Get32, Get64;
      buffer := p;
      totalLength := total;
      tlvOffset := ReadLe32(p, 48);
      tlvCount := ReadLe32(p, 52);
      flags := headerFlags;
      bootId := ReadLe64(p, 24);
      producerId := ReadLe64(p, 32);
      createdCounter := ReadLe64(p, 40);
    }

    /** The checks of one turn of the walk. */
    method CheckOne(r: RecordView) returns (error: Error)
      ensures error == CheckRecord(r.recordType, r.flags, r.payload)
    {
      if !KnownType(r.recordType) && Mandatory(r.flags) {
        return UnknownMandatoryError;
      }
      if r.recordType == SERVICE_DIRECTORY || r.recordType == MEMORY_MAP {
        if |r.payload| < REFERENCE_SIZE {
          return TlvBoundsError;
        }
        var address, length := Get64(r.payload, 8), Get64(r.payload, 16);
        if address > UINT64_MAX - length {
          return ReferenceOverflowError;
        }
      }
      error := Ok;
    }

    /** The record half of an open: one walk that checks, counts and adds up. */
    method CheckRecords() returns (error: Error, ghost steps: nat)
      requires Valid() && buffer != null && tlvOffset <= totalLength
      ensures error == Walk(Block(), tlvOffset, tlvCount, 0, 0)
      ensures steps == WalkSteps(Block(), tlvOffset, tlvCount)
    {
      hide RecordAt, CheckRecord;
      steps := 0;
      ghost var block := Block();
      var offset: u32 := tlvOffset;
      var services, memories, index := 0, 0, 0;
      while index < tlvCount
        invariant 0 <= index <= tlvCount && offset <= totalLength && services >= 0 && memories >= 0
        invariant Walk(block, offset, tlvCount - index, services, memories) == Walk(block, tlvOffset, tlvCount, 0, 0)
        invariant steps + WalkSteps(block, offset, tlvCount - index) == WalkSteps(block, tlvOffset, tlvCount)
      {
        var result := RecordAtOffset(offset);
        steps := steps + 1;
        if result.Bad? {
          return result.error, steps;
        }
        var r := result.record;
        FoundInBounds(block, offset);
        error := CheckOne(r);
        if error != Ok {
          return;
        }
        services := services + One(r.recordType == SERVICE_DIRECTORY);
        memories := memories + One(r.recordType == MEMORY_MAP);
        offset := offset + r.serializedLength;
        index := index + 1;
      }
      if offset != totalLength {
        return TlvBoundsError, steps;
      }
      if services != 1 || memories != 1 {
        return RequiredRecordError, steps;
      }
      error := Ok;
    }

    /** Validates a handoff window. Only the window is looked at; a view of the block is left
        behind on success, and an all-zero view on every failure past the window check. */
    method Open(p: array<u8>, windowLength: nat) returns (error: Error, ghost steps: nat)
      requires Valid() && windowLength <= p.Length
      modifies this
      ensures Valid()
      ensures error == OpenResult(p[..windowLength])
      ensures windowLength < HEADER_SIZE ==> error == WindowError && Value() == old(Value()) && buffer == old(buffer)
      ensures windowLength >= HEADER_SIZE ==>
                Value() == ViewAfter(p[..windowLength]) && buffer == if error == Ok then p else null
      ensures steps == if CheckHeader(p[..windowLength]) != Ok then 0
                       else WalkSteps(BlockOf(p[..windowLength]), Get32(p[..], 48), Get32(p[..], 52))
    {
      hide Get16, Get32, Get64, Walk, WalkSteps;
      steps := 0;
      if windowLength < HEADER_SIZE {
        return WindowError, steps;
      }
      hide CheckHeader;
      Clear();
      error := ReadHeader(p, windowLength);
      if error != Ok {
        return;
      }
      HeaderFieldsOfPrefix(p[..], windowLength);
      error, steps := CheckRecords();
      if error != Ok {
        Clear();
      }
    }

    /** Record `index`, found by walking from the first one. */
    method Record(index: u32) returns (result: RecordResult)
      requires Valid()
      ensures result == ReadRecord(Value(), index)
    {
      hide RecordAt;
      if buffer == null || index >= tlvCount {
        NoBlockNoRecord(tlvOffset, index);
        return Bad(TlvBoundsError);
      }
      result := SkipTo(index);
    }

    /** Skips `index` records and reads the next one. */
    method SkipTo(index: u32) returns (result: RecordResult)
      requires Valid()
      ensures result == NthRecord(Block(), tlvOffset, index)
    {
      hide RecordAt;
      ghost var block := Block();
      var offset: u32 := tlvOffset;
      var current := 0;
      while current < index
        invariant 0 <= current <= index
        invariant NthRecord(block, offset, index - current) == NthRecord(block, tlvOffset, index)
      {
        var skip := RecordAtOffset(offset);
        if skip.Bad? {
          return skip;
        }
        FoundInBounds(block, offset);
        offset := offset + skip.record.serializedLength;
        current := current + 1;
      }
      result := RecordAtOffset(offset);
    }

    /** Looks every record up by index, walking the block again each time. */
    method FindReference(recordType: u16) returns (result: ReferenceResult)
      requires Valid()
      ensures result == FirstReference(Block(), tlvOffset, tlvCount, recordType)
    {
      hide RecordAt, ParseReference;
      ghost var block := Block();
      ghost var at: nat := tlvOffset;
      var index := 0;
      while index < tlvCount
        invariant 0 <= index <= tlvCount
        invariant FirstReference(block, at, tlvCount - index, recordType)
                  == FirstReference(block, tlvOffset, tlvCount, recordType)
        invariant SameFrom(block, tlvOffset, index, at)
      {
        var next := Record(index);
        SameNow(block, tlvOffset, index, at);
        assert next == RecordAt(block, at);
        if next.Bad? {
          return NoReference(next.error);
        }
        var r := next.record;
        if r.recordType == recordType {
          return ParseReference(r.payload);
        }
        NextNth(block, tlvOffset, index, at);
        at := at + r.serializedLength;
        index := index + 1;
      }
      result := NoReference(RequiredRecordError);
    }
  }
}
