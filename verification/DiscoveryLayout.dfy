/** The record structures of a discovery image, byte by byte (include/atarix/discovery.h), and
    what the parser makes of each. */
module DiscoveryLayout {
  import opened Bytes
  import opened DiscoveryFormat
  import opened DiscoveryDatabase
  import opened DiscoveryParser

  /** The entries that have a record structure and a table. */
  type TypedEntry = e: Entry | !e.Other? witness OfDependency(Dependency(0, 0, 0, 0, 0))

  function RecordType(e: TypedEntry): u16 {
    match e
    case OfResource(_) => 1
    case OfService(_) => 2
    case OfDependency(_) => 4
    case OfInstrument(_) => 5
  }

  /** A type or identifier, its version and its flags. */
  function Tags(id: u16, version: u16, flags: u32): (s: seq<u8>)
    ensures |s| == 8
  {
    Le16(id) + Le16(version) + Le32(flags)
  }

  /** The 24 bytes behind the record header. */
  function Fields(e: TypedEntry): (s: seq<u8>)
    ensures |s| == 24
  {
    match e
    case OfResource(r) =>
      Tags(r.resourceType, r.version, r.flags) + Le64(r.handle) + (Le32(r.providerId) + Le32(r.instanceId))
    case OfService(s) =>
      Tags(s.serviceId, s.version, s.flags) + Le64(s.handle) + (Le32(s.providerId) + Le32(s.instanceId))
    case OfDependency(d) =>
      Le64(d.consumer) + Le64(d.provider) + Tags(d.dependencyType, d.version, d.flags)
    case OfInstrument(i) =>
      Tags(i.instrumentType, i.version, i.flags) + Le64(i.handle) + Le64(i.observed)
  }

  /** A record header: its type, its version and its length. */
  function HeadBytes(recordType: u16, version: u16, length: u32): (s: seq<u8>)
    ensures |s| == RECORD_HEADER_SIZE
  {
    Le16(recordType) + Le16(version) + Le32(length)
  }

  /** A record of version 1 and just as long as it has to be. */
  function RecordBytes(e: TypedEntry): (s: seq<u8>)
    ensures |s| == TYPED_RECORD_SIZE
  {
    HeadBytes(RecordType(e), 1, 32) + Fields(e)
  }

  // ---- Reading the bytes back

  lemma ThreeParts(s: seq<u8>, at: nat, a: seq<u8>, b: seq<u8>, c: seq<u8>)
    requires |a| == |b| == |c| == 8 && at + 24 <= |s| && s[at..at + 24] == a + b + c
    ensures s[at..at + 8] == a && s[at + 8..at + 16] == b && s[at + 16..at + 24] == c
  {
    var t := s[at..at + 24];
    assert t[0..8] == a && t[8..16] == b && t[16..24] == c;
    SliceOfSlice(s, at, 24, 0, 8);
    SliceOfSlice(s, at, 24, 8, 16);
    SliceOfSlice(s, at, 24, 16, 24);
  }

  lemma TagsRead(s: seq<u8>, at: nat, id: u16, version: u16, flags: u32)
    requires at + 8 <= |s| && s[at..at + 8] == Tags(id, version, flags)
    ensures Get16(s, at) == id && Get16(s, at + 2) == version && Get32(s, at + 4) == flags
  {
    hide Get16, Get32, Le16, Le32;
    var t := s[at..at + 8];
    assert t[0..2] == Le16(id) && t[2..4] == Le16(version) && t[4..8] == Le32(flags);
    SliceOfSlice(s, at, 8, 0, 2);
    SliceOfSlice(s, at, 8, 2, 4);
    SliceOfSlice(s, at, 8, 4, 8);
    Get16OfLe16(s, at, id);
    Get16OfLe16(s, at + 2, version);
    Get32OfLe32(s, at + 4, flags);
  }

  lemma NumbersRead(s: seq<u8>, at: nat, a: u32, b: u32)
    requires at + 8 <= |s| && s[at..at + 8] == Le32(a) + Le32(b)
    ensures Get32(s, at) == a && Get32(s, at + 4) == b
  {
    hide Get32, Le32;
    var t := s[at..at + 8];
    assert t[0..4] == Le32(a) && t[4..8] == Le32(b);
    SliceOfSlice(s, at, 8, 0, 4);
    SliceOfSlice(s, at, 8, 4, 8);
    Get32OfLe32(s, at, a);
    Get32OfLe32(s, at + 4, b);
  }

  /** A record with this type and these fields, wherever it stands and whatever its version and
      length say. */
  predicate HoldsEntry(image: seq<u8>, at: nat, e: TypedEntry) {
    at + 32 <= |image| && image[at..at + 2] == Le16(RecordType(e)) && image[at + 8..at + 32] == Fields(e)
  }

  lemma FieldsRead(image: seq<u8>, at: nat, e: TypedEntry)
    requires HoldsEntry(image, at, e)
    ensures match e
      case OfResource(r) => ResourceAt(image, at) == r
      case OfService(s) => ServiceAt(image, at) == s
      case OfDependency(d) => DependencyAt(image, at) == d
      case OfInstrument(i) => InstrumentAt(image, at) == i
  {
    hide Get16, Get32, Get64, Le16, Le32, Le64, Tags;
    match e
    case OfResource(r) =>
      ThreeParts(image, at + 8, Tags(r.resourceType, r.version, r.flags), Le64(r.handle),
                 Le32(r.providerId) + Le32(r.instanceId));
      TagsRead(image, at + 8, r.resourceType, r.version, r.flags);
      Get64OfLe64(image, at + 16, r.handle);
      NumbersRead(image, at + 24, r.providerId, r.instanceId);
    case OfService(s) =>
      ThreeParts(image, at + 8, Tags(s.serviceId, s.version, s.flags), Le64(s.handle),
                 Le32(s.providerId) + Le32(s.instanceId));
      TagsRead(image, at + 8, s.serviceId, s.version, s.flags);
      Get64OfLe64(image, at + 16, s.handle);
      NumbersRead(image, at + 24, s.providerId, s.instanceId);
    case OfDependency(d) =>
      ThreeParts(image, at + 8, Le64(d.consumer), Le64(d.provider), Tags(d.dependencyType, d.version, d.flags));
      Get64OfLe64(image, at + 8, d.consumer);
      Get64OfLe64(image, at + 16, d.provider);
      TagsRead(image, at + 24, d.dependencyType, d.version, d.flags);
    case OfInstrument(i) =>
      ThreeParts(image, at + 8, Tags(i.instrumentType, i.version, i.flags), Le64(i.handle), Le64(i.observed));
      TagsRead(image, at + 8, i.instrumentType, i.version, i.flags);
      Get64OfLe64(image, at + 16, i.handle);
      Get64OfLe64(image, at + 24, i.observed);
  }

  /** Every record of the four kinds is read as exactly the entry it was written from. */
  lemma EntryReads(image: seq<u8>, at: nat, e: TypedEntry)
    requires HoldsEntry(image, at, e)
    ensures Castable(image, at) && EntryAt(image, at) == e && Get16(image, at) == RecordType(e)
  {
    FieldsRead(image, at, e);
    Get16OfLe16(image, at, RecordType(e));
    hide Get16, HoldsEntry, ResourceAt, ServiceAt, DependencyAt, InstrumentAt;
    assert at + 32 <= |image|;
  }

  /** The handle an entry is found under; a dependency has none. */
  predicate Named(e: TypedEntry) {
    !e.OfDependency?
  }

  function HandleOf(e: TypedEntry): u64
    requires Named(e)
  {
    match e
    case OfResource(r) => r.handle
    case OfService(s) => s.handle
    case OfInstrument(i) => i.handle
  }

  /** The table of an entry is full. */
  predicate TableFull(t: Tables, e: TypedEntry) {
    match e
    case OfResource(_) => |t.resources| >= t.resourceCapacity
    case OfService(_) => |t.services| >= t.serviceCapacity
    case OfDependency(_) => |t.dependencies| >= t.dependencyCapacity
    case OfInstrument(_) => |t.instruments| >= t.instrumentCapacity
  }

  /** What the parser does with a record: a taken handle refuses it first, a full table second;
      otherwise the entry goes behind the last one of its own table and nothing else changes. */
  lemma RecordIsAdded(t: Tables, image: seq<u8>, at: nat, e: TypedEntry)
    requires HoldsEntry(image, at, e)
    ensures StepAt(t, image, at) ==
      if Named(e) && HandleOf(e) in Handles(t) then Done(t, DuplicateHandle)
      else if TableFull(t, e) then Done(t, CapacityExceeded)
      else
        match e
        case OfResource(r) => Done(t.(resources := t.resources + [r]), Ok)
        case OfService(s) => Done(t.(services := t.services + [s]), Ok)
        case OfDependency(d) => Done(t.(dependencies := t.dependencies + [d]), Ok)
        case OfInstrument(i) => Done(t.(instruments := t.instruments + [i]), Ok)
  {
    hide HoldsEntry, StepAt, EntryAt, Castable, Handles, ContainsHandle, Get16;
    EntryReads(image, at, e);
    StepIsAdd(t, image, at);
    if Named(e) {
      ContainsIsMembership(t, HandleOf(e));
    }
  }
}
