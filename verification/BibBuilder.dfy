/** The Boot Information Block producer (src/bib/bib_builder.c): init, any number of adds,
    then seal. */
module BibBuilder {
  import opened Bytes
  import opened BibFormat
  import opened Words
  import Crc

  datatype Status =
    | Ok
    | ArgumentError
    | CapacityError
    | StateError
    | FlagsError
    | LengthError

  /** The builder as its caller understands it: what was put in, and whether it is sealed. */
  datatype State = State(capacity: nat, header: Header, records: seq<Record>, isSealed: bool)

  predicate Consistent(s: State) {
    && FitsBlock(s.records)
    && HEADER_SIZE + |EncodeAll(s.records)| <= s.capacity <= UINT32_MAX
    && HeaderFlagsKnown(s.header.flags)
  }

  function InitStatus(capacity: nat, flags: u16): Status {
    if capacity < HEADER_SIZE || capacity > UINT32_MAX then ArgumentError
    else if !HeaderFlagsKnown(flags) then FlagsError
    else Ok
  }

  function AddStatus(s: State, r: Record): Status
    requires Consistent(s)
  {
    if s.isSealed then StateError
    else if !RecordFlagsKnown(r.flags) then FlagsError
    else if RECORD_HEADER_SIZE + |r.payload| > UINT32_MAX - 7 then LengthError
    else if RecordLength(r) > s.capacity - HEADER_SIZE - |EncodeAll(s.records)| then CapacityError
    else Ok
  }

  function Added(s: State, r: Record): (s': State)
    requires Consistent(s)
    ensures Consistent(s')
  {
    if AddStatus(s, r) != Ok then s
    else
      EncodeAllAppends(s.records, r);
      EncodeAllSize(s.records + [r]);
      s.(records := s.records + [r])
  }

  function SealStatus(s: State): Status {
    if s.isSealed then StateError else Ok
  }

  function SealedState(s: State): State {
    s.(isSealed := true)
  }

  /** The bytes a consistent builder holds. */
  function Image(s: State): seq<u8>
    requires Consistent(s)
  {
    if s.isSealed then SealedBlock(s.header, s.records) else OpenBlock(s.header, s.records)
  }

  method ComputeCrc32c(data: array<u8>, length: nat) returns (r: u32)
    requires length <= data.Length
    ensures r == Crc32c(data[..length])
  {
    ghost var all := data[..length];
    r := 0xFFFF_FFFF;
    var i := 0;
    while i < length
      invariant 0 <= i <= length
      invariant Crc.Update(r, all[i..], Crc.CRC32C) == Crc.Update(0xFFFF_FFFF, all, Crc.CRC32C)
    {
      r := BitXor(r, data[i]);
      r := Crc.TernaryByte(r, 0x82F6_3B78);
      assert all[i] == data[i] && all[i..][1..] == all[i + 1..];
      i := i + 1;
    }
    r := BitXor(r, 0xFFFF_FFFF);
  }

  /** Clears the buffer and writes the fields known from the start. */
  method WriteHeader(p: array<u8>, capacity: nat, h: Header)
    requires HEADER_SIZE <= capacity <= p.Length
    modifies p
    ensures p[..HEADER_SIZE] == HeaderBytes(h, 0, 0, 0)
    ensures p[HEADER_SIZE..capacity] == Zeros(capacity - HEADER_SIZE)
    ensures forall i | capacity <= i < p.Length :: p[i] == old(p[i])
  {
    FillZero(p, 0, capacity);
    WriteFront(p, h.flags);
    assert forall i | 16 <= i < capacity :: p[i] == 0;
    WriteBack(p, h);
    assert forall i | 52 <= i < capacity || 16 <= i < 24 :: p[i] == 0;
    assert p[16..20] == Zeros(4) == Le32(0) && p[20..24] == Zeros(4);
    assert p[52..56] == Zeros(4) && p[56..64] == Zeros(8);
    HeaderIsUnique(p[..], h, 0, 0, 0);
  }

  method WriteFront(p: array<u8>, flags: u16)
    requires HEADER_SIZE <= p.Length
    modifies p
    ensures p[0..8] == MAGIC && p[8..10] == Le16(1) && p[10..12] == Le16(0) && p[12..14] == Le16(64)
    ensures p[14..16] == Le16(flags)
    ensures forall i | 16 <= i < p.Length :: p[i] == old(p[i])
  {
    CopyIn(p, 0, MAGIC);
    WriteLe16(p, 8, 1);
    WriteLe16(p, 10, 0);
    WriteLe16(p, 12, 64);
    WriteLe16(p, 14, flags);
  }

  method WriteBack(p: array<u8>, h: Header)
    requires HEADER_SIZE <= p.Length
    modifies p
    ensures forall i | 0 <= i < p.Length && !(24 <= i < 52) :: p[i] == old(p[i])
    ensures p[24..32] == Le64(h.bootId) && p[32..40] == Le64(h.producerId) && p[40..48] == Le64(h.createdCounter)
    ensures p[48..52] == Le32(64)
  {
    WriteLe64(p, 24, h.bootId);
    WriteLe64(p, 32, h.producerId);
    WriteLe64(p, 40, h.createdCounter);
    WriteLe32(p, 48, 64);
  }

  /** Clears the region of a record and writes its header and payload. */
  method WriteRecord(p: array<u8>, at: nat, r: Record, recordLength: u32)
    requires Encodable(r) && recordLength == RecordLength(r) && at + recordLength <= p.Length
    modifies p
    ensures p[at..at + recordLength] == EncodeRecord(r)
    ensures forall i | 0 <= i < p.Length && !(at <= i < at + recordLength) :: p[i] == old(p[i])
  {
    hide Le16, Le32, EncodeRecord, RecordLength;
    FillZero(p, at, recordLength);
    WriteRecordHead(p, at, r, recordLength);
    ghost var head := p[..];
    assert head[at..at + 2] == p[at..at + 2] && head[at + 2..at + 4] == p[at + 2..at + 4];
    assert head[at + 4..at + 8] == p[at + 4..at + 8] && head[at + 8..at + 12] == p[at + 8..at + 12];
    if |r.payload| != 0 {
      CopyIn(p, at + RECORD_HEADER_SIZE, r.payload);
    }
    ghost var s, start := p[..], at + 16;
    assert s[start..start + |r.payload|] == r.payload;
    RecordWritten(head, s, at, r);
    assert s[at..at + recordLength] == p[at..at + recordLength];
  }

  lemma RecordWritten(head: seq<u8>, s: seq<u8>, at: nat, r: Record)
    requires Encodable(r) && at + RecordLength(r) <= |head| == |s|
    requires head[at..at + 2] == Le16(r.recordType) && head[at + 2..at + 4] == Le16(r.flags)
    requires head[at + 4..at + 8] == Le32(RecordLength(r)) && head[at + 8..at + 12] == Le32(|r.payload|)
    requires forall i | at + 12 <= i < at + RecordLength(r) :: head[i] == 0
    requires forall i | 0 <= i < |s| && !(at + 16 <= i < at + 16 + |r.payload|) :: s[i] == head[i]
    requires s[at + 16..at + 16 + |r.payload|] == r.payload
    ensures s[at..at + RecordLength(r)] == EncodeRecord(r)
  {
    hide Le16, Le32, EncodeRecord;
    var n := RecordLength(r);
    var t := s[at..at + n];
    SliceOfSlice(s, at, n, 0, 2);
    SliceOfSlice(s, at, n, 2, 4);
    SliceOfSlice(s, at, n, 4, 8);
    SliceOfSlice(s, at, n, 8, 12);
    SliceOfSlice(s, at, n, 16, 16 + |r.payload|);
    assert s[at..at + 2] == head[at..at + 2] && s[at + 2..at + 4] == head[at + 2..at + 4];
    assert s[at + 4..at + 8] == head[at + 4..at + 8] && s[at + 8..at + 12] == head[at + 8..at + 12];
    forall i | 12 <= i < 16 || 16 + |r.payload| <= i < n
      ensures t[i] == 0
    {
      assert t[i] == s[at + i] == head[at + i];
    }
    assert t[12..16] == Zeros(4) && t[16 + |r.payload|..] == Padding(r);
    RecordIsUnique(t, r);
  }

  lemma ImageGrows(s: State, r: Record)
    requires Consistent(s) && AddStatus(s, r) == Ok
    ensures Image(Added(s, r)) == Image(s) + EncodeRecord(r)
    ensures |Image(s)| == HEADER_SIZE + |EncodeAll(s.records)|
    ensures |Added(s, r).records| == |s.records| + 1
  {
    EncodeAllAppends(s.records, r);
    var h := HeaderBytes(s.header, 0, 0, 0);
    assert h + (EncodeAll(s.records) + EncodeRecord(r)) == (h + EncodeAll(s.records)) + EncodeRecord(r);
  }

  method WriteRecordHead(p: array<u8>, at: nat, r: Record, recordLength: u32)
    requires |r.payload| <= UINT32_MAX && at + RECORD_HEADER_SIZE <= p.Length
    modifies p
    ensures p[at..at + 2] == Le16(r.recordType) && p[at + 2..at + 4] == Le16(r.flags)
    ensures p[at + 4..at + 8] == Le32(recordLength) && p[at + 8..at + 12] == Le32(|r.payload|)
    ensures forall i | 0 <= i < p.Length && !(at <= i < at + 12) :: p[i] == old(p[i])
  {
    WriteLe16(p, at, r.recordType);
    WriteLe16(p, at + 2, r.flags);
    WriteLe32(p, at + 4, recordLength);
    WriteLe32(p, at + 8, |r.payload|);
  }

  method WriteReference(p: array<u8>, objectId: u64, address: u64, length: u64, formatMajor: u32, formatMinor: u32)
    requires p.Length == REFERENCE_SIZE
    modifies p
    ensures p[..] == EncodeReference(objectId, address, length, formatMajor, formatMinor)
  {
    FillZero(p, 0, REFERENCE_SIZE);
    WriteLe64(p, 0, objectId);
    WriteLe64(p, 8, address);
    WriteLe64(p, 16, length);
    WriteLe32(p, 24, formatMajor);
    WriteLe32(p, 28, formatMinor);
    assert p[32..40] == Zeros(8);
    ReferenceParts(p[..], objectId, address, length, formatMajor, formatMinor);
  }

  lemma ReferenceParts(s: seq<u8>, objectId: u64, address: u64, length: u64, formatMajor: u32, formatMinor: u32)
    requires |s| == REFERENCE_SIZE
    requires s[0..8] == Le64(objectId) && s[8..16] == Le64(address) && s[16..24] == Le64(length)
    requires s[24..28] == Le32(formatMajor) && s[28..32] == Le32(formatMinor) && s[32..40] == Zeros(8)
    ensures s == EncodeReference(objectId, address, length, formatMajor, formatMinor)
  {
    assert s == s[0..8] + s[8..16] + s[16..24] + s[24..28] + s[28..32] + s[32..40];
  }

  /** The part of a seal that writes. */
  method SealBuffer(p: array<u8>, length: u32, tlvCount: u32, ghost h: Header, ghost rs: seq<Record>)
    requires FitsBlock(rs) && length == HEADER_SIZE + |EncodeAll(rs)| <= p.Length && tlvCount == |rs|
    requires p[..length] == OpenBlock(h, rs)
    modifies p
    ensures p[..length] == SealedBlock(h, rs)
    ensures forall i | 0 <= i < p.Length && !(16 <= i < 24) && !(52 <= i < 56) :: p[i] == old(p[i])
  {
    ghost var body := EncodeAll(rs);
    WriteSizes(p, length, tlvCount, h, body);
    var crc := ComputeCrc32c(p, length);
    WriteChecksum(p, length, tlvCount, crc, h, body);
  }

  method WriteChecksum(p: array<u8>, length: u32, tlvCount: u32, crc: u32, ghost h: Header, ghost body: seq<u8>)
    requires length == HEADER_SIZE + |body| <= p.Length
    requires p[..length] == HeaderBytes(h, length, 0, tlvCount) + body
    modifies p
    ensures p[..length] == HeaderBytes(h, length, crc, tlvCount) + body
    ensures forall i | 0 <= i < p.Length && !(20 <= i < 24) :: p[i] == old(p[i])
  {
    ghost var blank := p[..length];
    WriteLe32(p, 20, crc);
    HeaderOfBlock(h, length, 0, tlvCount, body);
    assert blank[HEADER_SIZE..] == body;
    ghost var t := p[..length];
    assert t[20..24] == p[20..24];
    forall i | 16 <= i < 20 || 52 <= i < 56
      ensures t[i] == blank[i]
    {
    }
    assert t[16..20] == blank[16..20] && t[52..56] == blank[52..56];
    HeaderPatched(blank, t, h, length, 0, tlvCount, length, crc, tlvCount);
  }

  method WriteSizes(p: array<u8>, length: u32, tlvCount: u32, ghost h: Header, ghost body: seq<u8>)
    requires length == HEADER_SIZE + |body| <= p.Length
    requires p[..length] == HeaderBytes(h, 0, 0, 0) + body
    modifies p
    ensures p[..length] == HeaderBytes(h, length, 0, tlvCount) + body
    ensures forall i | 0 <= i < p.Length && !(16 <= i < 24) && !(52 <= i < 56) :: p[i] == old(p[i])
  {
    ghost var open := p[..length];
    WriteLe32(p, 16, length);
    WriteLe32(p, 20, 0);
    WriteLe32(p, 52, tlvCount);
    HeaderOfBlock(h, 0, 0, 0, body);
    assert open[HEADER_SIZE..] == body;
    ghost var t := p[..length];
    assert t[16..20] == p[16..20] && t[20..24] == p[20..24] && t[52..56] == p[52..56];
    HeaderPatched(open, t, h, 0, 0, 0, length, 0, tlvCount);
  }

  class Builder {
    var buffer: array?<u8>
    var capacity: nat
    var length: u32
    var tlvCount: u32
    var isSealed: bool
    ghost var header: Header
    ghost var records: seq<Record>

    ghost function Value(): State
      reads this
    {
      State(capacity, header, records, isSealed)
    }

    /** Either never initialised, or holding exactly the image of its state. */
    ghost predicate Valid()
      reads this, buffer
    {
      buffer != null ==>
        && Consistent(Value())
        && capacity <= buffer.Length
        && length == HEADER_SIZE + |EncodeAll(records)|
        && tlvCount == |records|
        && buffer[..length] == Image(Value())
    }

    constructor ()
      ensures Valid() && buffer == null
    {
      buffer := null;
      capacity, length, tlvCount, isSealed := 0, 0, 0, false;
      header, records := Header(0, 0, 0, 0), [];
    }

    method Init(p: array<u8>, capacity: nat, flags: u16, bootId: u64, producerId: u64, createdCounter: u64)
      returns (status: Status)
      requires Valid() && capacity <= p.Length
      modifies this, p
      ensures status == InitStatus(capacity, flags)
      ensures status == Ok <==> 64 <= capacity <= 0xFFFF_FFFF && OnlyBitsBelow(flags, 4)
      ensures status == Ok ==>
                && Valid() && buffer == p
                && Value() == State(capacity, Header(flags, bootId, producerId, createdCounter), [], false)
                && p[length..capacity] == Zeros(capacity - length)
      ensures status != Ok ==> Valid() && Value() == old(Value()) && buffer == old(buffer) && p[..] == old(p[..])
      ensures p[capacity..] == old(p[capacity..])
    {
      hide OnlyBitsBelow;
      KnownHeaderFlags(flags);
      if capacity < HEADER_SIZE || capacity > UINT32_MAX {
        return ArgumentError;
      }
      if !HeaderFlagsKnown(flags) {
        return FlagsError;
      }
      WriteHeader(p, capacity, Header(flags, bootId, producerId, createdCounter));
      buffer := p;
      this.capacity := capacity;
      length := 64;
      tlvCount := 0;
      isSealed := false;
      header := Header(flags, bootId, producerId, createdCounter);
      records := [];
      status := Ok;
    }

    /** Appends a record, or leaves the builder and every byte of the buffer as they were. */
    method AddTlv(recordType: u16, flags: u16, payload: seq<u8>) returns (status: Status)
      requires Valid() && |payload| <= UINT32_MAX
      modifies this, buffer
      ensures Valid() && buffer == old(buffer)
      ensures buffer == null ==> status == ArgumentError
      ensures buffer != null ==>
                && status == AddStatus(old(Value()), Record(recordType, flags, payload))
                && Value() == Added(old(Value()), Record(recordType, flags, payload))
                && (forall i | 0 <= i < buffer.Length && !(old(length) <= i < length) :: buffer[i] == old(buffer[i]))
      ensures status != Ok ==> Value() == old(Value()) && length == old(length) && tlvCount == old(tlvCount)
    {
      if buffer == null {
        return ArgumentError;
      }
      if isSealed {
        return StateError;
      }
      if !RecordFlagsKnown(flags) {
        return FlagsError;
      }
      if |payload| > UINT32_MAX - RECORD_HEADER_SIZE {
        return LengthError;
      }
      var unalignedLength: u32 := RECORD_HEADER_SIZE + |payload|;
      if unalignedLength > UINT32_MAX - 7 {
        return LengthError;
      }
      var recordLength: u32 := AlignUp8(unalignedLength);
      if length > capacity || recordLength > capacity - length {
        return CapacityError;
      }
      Append(Record(recordType, flags, payload), recordLength);
      status := Ok;
    }

    /** The part of an add that writes. */
    method Append(r: Record, recordLength: u32)
      requires Valid() && buffer != null && recordLength == RecordLength(r)
      requires AddStatus(Value(), r) == Ok
      modifies this, buffer
      ensures Valid() && buffer == old(buffer) && Value() == Added(old(Value()), r)
      ensures length == old(length) + recordLength
      ensures forall i | 0 <= i < buffer.Length && !(old(length) <= i < length) :: buffer[i] == old(buffer[i])
    {
      hide OpenBlock, EncodeAll, EncodeRecord;
      ImageGrows(Value(), r);
      WriteRecord(buffer, length, r, recordLength);
      assert buffer[..length] == old(buffer[..length]);
      assert buffer[..length + recordLength] == buffer[..length] + buffer[length..length + recordLength];
      length := length + recordLength;
      tlvCount := tlvCount + 1;
      records := records + [r];
      assert Value() == Added(old(Value()), r);
    }

    /** Adds the fixed reference payload, with no integrity data after it. */
    method AddReference(recordType: u16, flags: u16, objectId: u64, address: u64, referenceLength: u64,
                        formatMajor: u32, formatMinor: u32) returns (status: Status)
      requires Valid()
      modifies this, buffer
      ensures Valid() && buffer == old(buffer)
      ensures buffer == null ==> status == ArgumentError
      ensures buffer != null ==>
                var r := Record(recordType, flags,
                                EncodeReference(objectId, address, referenceLength, formatMajor, formatMinor));
                && status == AddStatus(old(Value()), r)
                && Value() == Added(old(Value()), r)
                && (forall i | 0 <= i < buffer.Length && !(old(length) <= i < length) :: buffer[i] == old(buffer[i]))
      ensures status != Ok ==> Value() == old(Value()) && length == old(length) && tlvCount == old(tlvCount)
    {
      var payload := new u8[40];
      WriteReference(payload, objectId, address, referenceLength, formatMajor, formatMinor);
      status := AddTlv(recordType, flags, payload[..]);
    }

    /** Writes the lengths and the checksum. A second seal changes nothing. */
    method Seal() returns (status: Status, serializedLength: nat)
      requires Valid()
      modifies this, buffer
      ensures Valid() && buffer == old(buffer)
      ensures buffer == null ==> status == ArgumentError
      ensures buffer != null ==> status == SealStatus(old(Value()))
      ensures status == Ok ==>
                && Value() == SealedState(old(Value())) && serializedLength == length == old(length)
                && (forall i | 0 <= i < buffer.Length && !(16 <= i < 24) && !(52 <= i < 56) :: buffer[i] == old(buffer[i]))
      ensures status != Ok ==> Value() == old(Value()) && (buffer != null ==> buffer[..] == old(buffer[..]))
    {
      if buffer == null {
        return ArgumentError, 0;
      }
      if isSealed {
        return StateError, 0;
      }
      hide SealedBlock, OpenBlock, EncodeAll, FitsBlock, HeaderFlagsKnown;
      ghost var before := Value();
      assert Image(before) == OpenBlock(header, records);
      SealBuffer(buffer, length, tlvCount, header, records);
      isSealed := true;
      assert Value() == SealedState(before);
      assert buffer[..length] == Image(Value());
      status, serializedLength := Ok, length;
    }
  }
}
