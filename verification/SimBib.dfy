/** The simulator's Boot Information Block capture (src/sim/sim_bib.c): one fixed run of the
    builder, and what a reader makes of its result. */
module SimBib {
  import opened Bytes
  import opened BibFormat
  import opened BibReader
  import opened BibDecoding
  import opened BibRoundTrip
  import B = BibBuilder

  const CAPTURE_SIZE: nat := 176

  datatype Config = Config(
    headerFlags: u16, bootId: u64, producerId: u64, createdCounter: u64,
    serviceObjectId: u64, serviceAddress: u64, serviceLength: u64,
    memoryObjectId: u64, memoryAddress: u64, memoryLength: u64)

  function HeaderFor(config: Config): Header {
    Header(config.headerFlags, config.bootId, config.producerId, config.createdCounter)
  }

  /** The directory reference: mandatory, format 1.0. */
  function ServiceRecord(config: Config): Record {
    Record(SERVICE_DIRECTORY, 1, EncodeReference(config.serviceObjectId, config.serviceAddress, config.serviceLength, 1, 0))
  }

  /** The memory map reference: mandatory, format 1.0. */
  function MemoryRecord(config: Config): Record {
    Record(MEMORY_MAP, 1, EncodeReference(config.memoryObjectId, config.memoryAddress, config.memoryLength, 1, 0))
  }

  function CapturedRecords(config: Config): seq<Record> {
    [ServiceRecord(config), MemoryRecord(config)]
  }

  lemma CapturedSize(config: Config)
    ensures FitsBlock(CapturedRecords(config))
    ensures AllEncodable([ServiceRecord(config)]) && |EncodeAll([ServiceRecord(config)])| == 56
    ensures |SealedBlock(HeaderFor(config), CapturedRecords(config))| == CAPTURE_SIZE
  {
    hide EncodeReference, EncodeRecord;
    var s, m := ServiceRecord(config), MemoryRecord(config);
    assert RecordLength(s) == 56 && RecordLength(m) == 56;
    assert [s][1..] == [] && [m][1..] == [];
    assert CapturedRecords(config)[1..] == [m];
    assert |EncodeAll([s])| == 56 && |EncodeAll([m])| == 56;
  }

  /** Succeeds exactly when the builder takes the buffer and all 176 bytes fit. */
  function CaptureStatus(config: Config, capacity: nat): B.Status {
    if B.InitStatus(capacity, config.headerFlags) != B.Ok then B.InitStatus(capacity, config.headerFlags)
    else if capacity < CAPTURE_SIZE then B.CapacityError
    else B.Ok
  }

  /** The states the capture goes through. */
  function StateAfter(config: Config, capacity: nat, n: nat, isSealed: bool): B.State
    requires n <= 2
  {
    B.State(capacity, HeaderFor(config), CapturedRecords(config)[..n], isSealed)
  }

  lemma StatesFollow(config: Config, capacity: nat)
    requires B.InitStatus(capacity, config.headerFlags) == B.Ok
    ensures var s0 := StateAfter(config, capacity, 0, false);
      && B.Consistent(s0)
      && B.AddStatus(s0, ServiceRecord(config)) == (if capacity < 120 then B.CapacityError else B.Ok)
      && (capacity >= 120 ==> B.Added(s0, ServiceRecord(config)) == StateAfter(config, capacity, 1, false))
    ensures capacity >= 120 ==>
      var s1 := StateAfter(config, capacity, 1, false);
      && B.Consistent(s1)
      && B.AddStatus(s1, MemoryRecord(config)) == (if capacity < CAPTURE_SIZE then B.CapacityError else B.Ok)
      && (capacity >= CAPTURE_SIZE ==> B.Added(s1, MemoryRecord(config)) == StateAfter(config, capacity, 2, false))
  {
    hide EncodeReference, EncodeRecord;
    CapturedSize(config);
    var rs := CapturedRecords(config);
    assert rs[..0] == [] && rs[..1] == [rs[0]] && rs[..2] == rs;
    assert EncodeAll(rs[..0]) == [];
    assert RecordLength(rs[0]) == 56 && RecordLength(rs[1]) == 56;
  }

  lemma FinalImage(config: Config, capacity: nat)
    requires B.Consistent(StateAfter(config, capacity, 2, true))
    ensures FitsBlock(CapturedRecords(config))
    ensures B.Image(StateAfter(config, capacity, 2, true)) == SealedBlock(HeaderFor(config), CapturedRecords(config))
    ensures |B.Image(StateAfter(config, capacity, 2, true))| == CAPTURE_SIZE
  {
    hide EncodeReference, EncodeRecord, SealedBlock;
    CapturedSize(config);
    assert CapturedRecords(config)[..2] == CapturedRecords(config);
  }

  method Capture(config: Config, buffer: array<u8>, capacity: nat) returns (status: B.Status, serializedLength: nat)
    requires capacity <= buffer.Length
    modifies buffer
    ensures status == CaptureStatus(config, capacity)
    ensures status == B.Ok ==>
              && FitsBlock(CapturedRecords(config)) && serializedLength == CAPTURE_SIZE <= buffer.Length
              && buffer[..CAPTURE_SIZE] == SealedBlock(HeaderFor(config), CapturedRecords(config))
    ensures buffer[capacity..] == old(buffer[capacity..])
  {
    hide EncodeReference, EncodeAll, SealedBlock, OpenBlock, B.AddStatus, B.Added, CapturedRecords, B.Image;
    serializedLength := 0;
    var builder := new B.Builder();
    status := builder.Init(buffer, capacity, config.headerFlags, config.bootId, config.producerId, config.createdCounter);
    if status != B.Ok {
      return;
    }
    StatesFollow(config, capacity);
    assert builder.Value() == StateAfter(config, capacity, 0, false);
    status := builder.AddReference(SERVICE_DIRECTORY, 1, config.serviceObjectId, config.serviceAddress,
                                   config.serviceLength, 1, 0);
    if status != B.Ok {
      return;
    }
    status := builder.AddReference(MEMORY_MAP, 1, config.memoryObjectId, config.memoryAddress,
                                   config.memoryLength, 1, 0);
    if status != B.Ok {
      return;
    }
    status, serializedLength := builder.Seal();
    FinalImage(config, capacity);
  }

  predicate InAddressSpace(address: u64, length: u64) {
    address + length <= UINT64_MAX
  }

  predicate ReferencesFit(config: Config) {
    && InAddressSpace(config.serviceAddress, config.serviceLength)
    && InAddressSpace(config.memoryAddress, config.memoryLength)
  }

  lemma ReferenceIsChecked(recordType: u16, objectId: u64, address: u64, length: u64)
    requires IsRequired(recordType)
    ensures CheckRecord(recordType, 1, EncodeReference(objectId, address, length, 1, 0)) ==
            if InAddressSpace(address, length) then Ok else ReferenceOverflowError
  {
    hide EncodeReference, Get64;
    ReferenceParses(objectId, address, length, 1, 0);
  }

  lemma CaptureIsJudged(config: Config)
    ensures Judge(CapturedRecords(config), 0, 0) ==
            if ReferencesFit(config) then Ok else ReferenceOverflowError
  {
    hide EncodeReference, CheckRecord;
    ReferenceIsChecked(SERVICE_DIRECTORY, config.serviceObjectId, config.serviceAddress, config.serviceLength);
    ReferenceIsChecked(MEMORY_MAP, config.memoryObjectId, config.memoryAddress, config.memoryLength);
    var rs := CapturedRecords(config);
    assert rs[1..] == [MemoryRecord(config)] && rs[1..][1..] == [];
    assert Judge(rs[1..][1..], 1, 1) == Ok;
  }

  /** Every capture is read as a valid block, unless one of its references runs past the end of
      the address space; the reader then hands back both references as configured. */
  lemma CaptureOpens(config: Config, window: seq<u8>)
    requires OnlyBitsBelow(config.headerFlags, 4) && FitsBlock(CapturedRecords(config))
    requires SealedBlock(HeaderFor(config), CapturedRecords(config)) <= window
    ensures OpenResult(window) ==
            if ReferencesFit(config) then Ok else ReferenceOverflowError
    ensures OpenResult(window) == Ok ==>
              RecordsOf(ViewAfter(window)) == [
                Record(1, 1, EncodeReference(config.serviceObjectId, config.serviceAddress, config.serviceLength, 1, 0)),
                Record(2, 1, EncodeReference(config.memoryObjectId, config.memoryAddress, config.memoryLength, 1, 0))]
    ensures OpenResult(window) == Ok ==>
              && Lookup(ViewAfter(window), SERVICE_DIRECTORY) ==
                   FoundReference(Reference(config.serviceObjectId, config.serviceAddress, config.serviceLength, 1, 0, 0, []))
              && Lookup(ViewAfter(window), MEMORY_MAP) ==
                   FoundReference(Reference(config.memoryObjectId, config.memoryAddress, config.memoryLength, 1, 0, 0, []))
  {
    var h, rs := HeaderFor(config), CapturedRecords(config);
    hide EncodeReference, SealedBlock, Judge, CheckHeader, Walk, Lookup, ViewAfter, OpenResult, RecordsOf;
    assert rs == [ServiceRecord(config), MemoryRecord(config)];
    hide CapturedRecords;
    CapturedSize(config);
    var tail := window[|SealedBlock(h, rs)|..];
    assert window == SealedBlock(h, rs) + tail;
    SealedBlockOpens(h, rs, tail);
    CaptureIsJudged(config);
    SealedBlockRoundTrip(h, rs, window);
    if OpenResult(window) == Ok {
      CaptureLooksUp(config, window);
    }
  }

  lemma CaptureLooksUp(config: Config, window: seq<u8>)
    requires OpenResult(window) == Ok && RecordsOf(ViewAfter(window)) == CapturedRecords(config)
    ensures Lookup(ViewAfter(window), SERVICE_DIRECTORY) ==
            FoundReference(Reference(config.serviceObjectId, config.serviceAddress, config.serviceLength, 1, 0, 0, []))
    ensures Lookup(ViewAfter(window), MEMORY_MAP) ==
            FoundReference(Reference(config.memoryObjectId, config.memoryAddress, config.memoryLength, 1, 0, 0, []))
  {
    hide EncodeReference, ParseReference, OpenResult, ViewAfter, Lookup;
    var s := RequiredLookupFindsRecord(window, SERVICE_DIRECTORY);
    var m := RequiredLookupFindsRecord(window, MEMORY_MAP);
    ReferenceParses(config.serviceObjectId, config.serviceAddress, config.serviceLength, 1, 0);
    ReferenceParses(config.memoryObjectId, config.memoryAddress, config.memoryLength, 1, 0);
  }
}
