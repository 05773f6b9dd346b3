/** Generator, validator and parser against each other: every generated image validates, and
    what it parses to. */
module DiscoveryRoundTrip {
  import opened Bytes
  import opened DiscoveryFormat
  import opened DiscoveryValidate
  import opened DiscoveryDatabase
  import opened DiscoveryParser
  import opened DiscoveryLayout
  import opened MkDiscovery
  import Crc

  // ---- The header

  lemma PatchedParts(window: seq<u8>, provider: u32, total: u32, count: u32, records: seq<u8>)
    requires Patched(provider, total, count, records) <= window
    ensures var headerCrc := PatchedHeaderCrc(provider, total, count);
      var imageCrc := PatchedImageCrc(provider, total, count, records);
      && HEADER_SIZE + |records| <= |window|
      && window[..24] == HeaderFront(provider, total, count)
      && window[24..28] == Le32(headerCrc) && window[28..32] == Le32(imageCrc)
      && window[HEADER_SIZE..HEADER_SIZE + |records|] == records
  {
    hide HeaderFront, PatchedHeaderCrc, PatchedImageCrc, Le32;
    var s := Patched(provider, total, count, records);
    var header := s[..HEADER_SIZE];
    assert header == HeaderBytes(provider, total, count, PatchedHeaderCrc(provider, total, count),
                                 PatchedImageCrc(provider, total, count, records));
    assert header[..24] == HeaderFront(provider, total, count) && header[24..] == header[24..28] + header[28..32];
    assert window[..|s|] == s;
    assert window[..24] == header[..24] && window[24..28] == header[24..28] && window[28..32] == header[28..32];
    assert window[HEADER_SIZE..|s|] == s[HEADER_SIZE..];
  }

  /** Both patched checksums are the ones the validator computes, whatever follows the image. */
  lemma PatchedIsValid(window: seq<u8>, provider: u32, total: u32, count: u32, records: seq<u8>)
    requires Patched(provider, total, count, records) <= window && total == HEADER_SIZE + |records|
    ensures HEADER_SIZE <= total <= |window| && CrcValid(window, total)
  {
    hide HeaderFront, Patched, Crc32, Le32, Get32;
    var headerCrc, imageCrc := PatchedHeaderCrc(provider, total, count), PatchedImageCrc(provider, total, count, records);
    PatchedParts(window, provider, total, count, records);
    Get32OfLe32(window, 24, headerCrc);
    Get32OfLe32(window, 28, imageCrc);
    BlankedWindow(window, provider, total, count, headerCrc, records);
  }

  lemma BlankedWindow(window: seq<u8>, provider: u32, total: u32, count: u32, headerCrc: u32, records: seq<u8>)
    requires total == HEADER_SIZE + |records| <= |window|
    requires window[..24] == HeaderFront(provider, total, count) && window[24..28] == Le32(headerCrc)
    requires window[HEADER_SIZE..total] == records
    ensures Crc.Blanked(window[..HEADER_SIZE], 24, 32) == HeaderBytes(provider, total, count, 0, 0)
    ensures Crc.Blanked(window[..total], 28, 32) == HeaderBytes(provider, total, count, headerCrc, 0) + records
  {
    hide HeaderFront, Le32;
    Le32OfZero();
    var h := Crc.Blanked(window[..HEADER_SIZE], 24, 32);
    assert h == h[..24] + (h[24..28] + h[28..32]);
    assert h[..24] == window[..24] && h[24..28] == Zeros(4) && h[28..32] == Zeros(4);
    var s := Crc.Blanked(window[..total], 28, 32);
    assert s == s[..24] + (s[24..28] + s[28..32]) + s[HEADER_SIZE..];
    assert s[..24] == window[..24] && s[24..28] == window[24..28] && s[28..32] == Zeros(4);
    assert s[HEADER_SIZE..] == window[HEADER_SIZE..total];
  }

  lemma FrontReads(window: seq<u8>, provider: u32, total: u32, count: u32)
    requires |window| >= HEADER_SIZE && window[..24] == HeaderFront(provider, total, count)
    ensures Get32(window, 0) == MAGIC && Get16(window, 4) == 1 && Get32(window, 8) == total && Get32(window, 12) == count
  {
    hide Get16, Get32, Le16, Le32;
    FrontFields(provider, total, count);
    var front := window[..24];
    assert window[0..4] == front[0..4] && window[4..6] == front[4..6];
    assert window[8..12] == front[8..12] && window[12..16] == front[12..16];
    Get32OfLe32(window, 0, MAGIC);
    Get16OfLe16(window, 4, 1);
    Get32OfLe32(window, 8, total);
    Get32OfLe32(window, 12, count);
  }

  // ---- The records

  /** Where record k of a generated image starts; END is the one after the last. */
  function Place(k: nat): (at: nat)
    ensures at % 8 == 0
  {
    MultipleOfEight(HEADER_SIZE + 32 * k, 4 + 4 * k);
    HEADER_SIZE + 32 * k
  }

  lemma PlacesFollow(k: nat, n: nat)
    requires k <= n
    ensures Place(0) == HEADER_SIZE && Place(k + 1) == Place(k) + TYPED_RECORD_SIZE
    ensures Place(n) + RECORD_HEADER_SIZE == ImageSize(n)
    ensures k < n ==> Place(k) + TYPED_RECORD_SIZE + RECORD_HEADER_SIZE <= ImageSize(n)
  {
  }

  /** The window holds the records of an image. */
  predicate HoldsEntries(window: seq<u8>, entries: seq<TypedEntry>) {
    && ImageSize(|entries|) <= |window|
    && (forall k | 0 <= k < |entries| ::
          HoldsEntry(window, Place(k), entries[k]) && Get32(window, Place(k) + 4) == TYPED_RECORD_SIZE)
    && Get16(window, Place(|entries|)) == END && Get32(window, Place(|entries|) + 4) == RECORD_HEADER_SIZE
  }

  /** The bytes after the header. */
  predicate HoldsBytes(window: seq<u8>, records: seq<u8>) {
    HEADER_SIZE + |records| <= |window| && window[HEADER_SIZE..HEADER_SIZE + |records|] == records
  }

  lemma HeldSlice(window: seq<u8>, records: seq<u8>, i: nat, j: nat)
    requires HoldsBytes(window, records) && i <= j <= |records|
    ensures HEADER_SIZE + j <= |window| && window[HEADER_SIZE + i..HEADER_SIZE + j] == records[i..j]
  {
    SliceOfSlice(window, HEADER_SIZE, |records|, i, j);
  }

  /** A written record holds its entry, and its length. */
  lemma RecordReads(s: seq<u8>, at: nat, e: TypedEntry)
    requires at + 32 <= |s| && s[at..at + 32] == RecordBytes(e)
    ensures HoldsEntry(s, at, e) && Get32(s, at + 4) == TYPED_RECORD_SIZE
  {
    hide Get32, Le16, Le32, Fields;
    var t := s[at..at + 32];
    assert t[0..2] == Le16(RecordType(e)) && t[4..8] == Le32(32) && t[8..32] == Fields(e);
    SliceOfSlice(s, at, 32, 0, 2);
    SliceOfSlice(s, at, 32, 4, 8);
    SliceOfSlice(s, at, 32, 8, 32);
    Get32OfLe32(s, at + 4, 32);
  }

  lemma EntryInBody(window: seq<u8>, body: seq<u8>, end: seq<u8>, entries: seq<TypedEntry>, k: nat, at: nat, place: nat)
    requires HoldsBytes(window, body + end) && body == Body(entries) && k < |entries|
    requires at == 32 * k && place == HEADER_SIZE + at
    ensures HoldsEntry(window, place, entries[k]) && Get32(window, place + 4) == TYPED_RECORD_SIZE
  {
    hide Body, RecordBytes, HoldsBytes;
    var s := body[at..at + 32];
    assert s == RecordBytes(entries[k]) by {
      BodyAt(entries, k);
    }
    HeldPart(window, body, end, at, place);
    RecordReads(window, place, entries[k]);
  }

  lemma HeldPart(window: seq<u8>, a: seq<u8>, b: seq<u8>, at: nat, place: nat)
    requires HoldsBytes(window, a + b) && at + 32 <= |a| && place == HEADER_SIZE + at
    ensures place + 32 <= |window| && window[place..place + 32] == a[at..at + 32]
  {
    hide HoldsBytes;
    HeldSlice(window, a + b, at, at + 32);
    assert (a + b)[at..at + 32] == a[at..at + 32];
  }

  lemma HeadReads(window: seq<u8>, at: nat, recordType: u16, version: u16, length: u32)
    requires at + 8 <= |window| && window[at..at + 8] == HeadBytes(recordType, version, length)
    ensures Get16(window, at) == recordType && Get32(window, at + 4) == length
  {
    hide Get16, Get32, Le16, Le32;
    var t := window[at..at + 8];
    assert t[0..2] == Le16(recordType) && t[4..8] == Le32(length);
    SliceOfSlice(window, at, 8, 0, 2);
    SliceOfSlice(window, at, 8, 4, 8);
    Get16OfLe16(window, at, recordType);
    Get32OfLe32(window, at + 4, length);
  }

  lemma BodyReads(window: seq<u8>, entries: seq<TypedEntry>)
    requires HoldsBytes(window, Body(entries) + EndBytes())
    ensures HoldsEntries(window, entries)
  {
    hide HoldsEntry, Get16, Get32, Body, RecordBytes, HeadBytes, HoldsBytes;
    var records := Body(entries) + EndBytes();
    HeldSlice(window, records, |Body(entries)|, |records|);
    assert records[|Body(entries)|..|records|] == EndBytes();
    HeadReads(window, Place(|entries|), 0xFFFF, 1, 8);
    forall k | 0 <= k < |entries|
      ensures HoldsEntry(window, Place(k), entries[k]) && Get32(window, Place(k) + 4) == TYPED_RECORD_SIZE
    {
      EntryInBody(window, Body(entries), EndBytes(), entries, k, 32 * k, Place(k));
    }
  }

  function Places(from: nat, n: nat): (places: seq<nat>)
    requires from <= n
    ensures |places| == n + 1 - from && forall i | 0 <= i < |places| :: places[i] == Place(from + i)
    decreases n - from
  {
    [Place(from)] + if from == n then [] else Places(from + 1, n)
  }

  /** The walk visits the records one by one and ends at END. */
  lemma {:induction false} ScanVisitsEntries(window: seq<u8>, entries: seq<TypedEntry>, k: nat)
    requires HoldsEntries(window, entries) && k <= |entries|
    ensures ScanFrom(window, ImageSize(|entries|), Place(k)) == Ended(Places(k, |entries|))
    decreases |entries| - k
  {
    hide Get16, Get32, Place, ImageSize, HoldsEntries;
    PlacesFollow(k, |entries|);
    if k < |entries| {
      HeldHeader(window, entries, k);
      ScanVisitsEntries(window, entries, k + 1);
    } else {
      HeldEnd(window, entries);
    }
  }

  lemma HeldEnd(window: seq<u8>, entries: seq<TypedEntry>)
    requires HoldsEntries(window, entries)
    ensures ImageSize(|entries|) <= |window| && Place(|entries|) + RECORD_HEADER_SIZE == ImageSize(|entries|)
    ensures Get16(window, Place(|entries|)) == END && Get32(window, Place(|entries|) + 4) == RECORD_HEADER_SIZE
  {
    hide Get16, Get32;
  }

  lemma HeldHeader(window: seq<u8>, entries: seq<TypedEntry>, k: nat)
    requires HoldsEntries(window, entries) && k < |entries|
    ensures Place(k) + TYPED_RECORD_SIZE <= |window| && Castable(window, Place(k)) && EntryAt(window, Place(k)) == entries[k]
    ensures Get16(window, Place(k)) == RecordType(entries[k]) && Get32(window, Place(k) + 4) == TYPED_RECORD_SIZE
  {
    hide Get16, Get32, EntryAt, Castable, Fields;
    EntryReads(window, Place(k), entries[k]);
  }

  lemma GeneratedHeader(window: seq<u8>, provider: u32, total: u32, count: u32, records: seq<u8>)
    requires Patched(provider, total, count, records) <= window && total == HEADER_SIZE + |records| && total % 8 == 0
    ensures CheckHeader(window) == Ok && Get32(window, 8) == total && Get32(window, 12) == count
    ensures total <= |window| && HoldsBytes(window, records)
  {
    hide Get16, Get32, CrcValid, Patched, HeaderFront;
    PatchedParts(window, provider, total, count, records);
    PatchedIsValid(window, provider, total, count, records);
    FrontReads(window, provider, total, count);
  }

  /** A sound header and a walk to END over as many records as the header counts. */
  lemma WalkedValidates(window: seq<u8>, offsets: seq<nat>)
    requires CheckHeader(window) == Ok && |window| >= HEADER_SIZE && Get32(window, 8) <= |window|
    requires ScanFrom(window, Get32(window, 8), HEADER_SIZE) == Ended(offsets) && |offsets| == Get32(window, 12) > 0
    ensures Validate(window) == Ok && RecordOffsets(window) == offsets[..|offsets| - 1]
  {
    hide CheckHeader, ScanFrom, Get32;
  }

  /** Every image validates, alone or with anything after it, and the walk finds exactly its
      records. */
  lemma GeneratedValidates(window: seq<u8>, provider: u32, entries: seq<TypedEntry>)
    requires ImageSize(|entries|) <= UINT32_MAX && Image(provider, entries) <= window
    ensures Validate(window) == Ok
    ensures RecordOffsets(window) == Places(0, |entries|)[..|entries|]
    ensures HoldsEntries(window, entries)
  {
    hide Get16, Get32, Patched, Body, EndBytes, HoldsEntries, HoldsBytes;
    hide ScanFrom, CheckHeader, Validate, RecordOffsets, Places;
    GeneratedHeader(window, provider, ImageSize(|entries|), |entries| + 1, Body(entries) + EndBytes());
    BodyReads(window, entries);
    ScanVisitsEntries(window, entries, 0);
    WalkedValidates(window, Places(0, |entries|));
  }

  lemma GeneratedEntries(window: seq<u8>, provider: u32, entries: seq<TypedEntry>)
    requires ImageSize(|entries|) <= UINT32_MAX && Image(provider, entries) <= window
    ensures Validate(window) == Ok && CastsFit(window) && EntriesOf(window) == entries
  {
    hide Validate, RecordOffsets, Castable, EntryAt, Image, HoldsEntries;
    GeneratedValidates(window, provider, entries);
    forall k | 0 <= k < |entries|
      ensures Castable(window, Place(k)) && EntryAt(window, Place(k)) == entries[k]
    {
      HeldHeader(window, entries, k);
    }
    assert forall k | 0 <= k < |entries| :: RecordOffsets(window)[k] == Place(k);
  }

  // ---- What an image parses to

  /** The resources among the entries, in order; and so on for the other three tables. */
  function Resources(entries: seq<TypedEntry>): seq<Resource>
    decreases |entries|
  {
    if entries == [] then []
    else (if entries[0].OfResource? then [entries[0].resource] else []) + Resources(entries[1..])
  }

  function Services(entries: seq<TypedEntry>): seq<Service>
    decreases |entries|
  {
    if entries == [] then []
    else (if entries[0].OfService? then [entries[0].service] else []) + Services(entries[1..])
  }

  function Dependencies(entries: seq<TypedEntry>): seq<Dependency>
    decreases |entries|
  {
    if entries == [] then []
    else (if entries[0].OfDependency? then [entries[0].dependency] else []) + Dependencies(entries[1..])
  }

  function Instruments(entries: seq<TypedEntry>): seq<Instrument>
    decreases |entries|
  {
    if entries == [] then []
    else (if entries[0].OfInstrument? then [entries[0].instrument] else []) + Instruments(entries[1..])
  }

  /** The tables with the entries appended, each to its own. */
  function With(t: Tables, entries: seq<TypedEntry>): Tables {
    t.(resources := t.resources + Resources(entries), services := t.services + Services(entries),
       dependencies := t.dependencies + Dependencies(entries), instruments := t.instruments + Instruments(entries))
  }

  predicate HasRoom(t: Tables, entries: seq<TypedEntry>) {
    && |t.resources| + |Resources(entries)| <= t.resourceCapacity
    && |t.services| + |Services(entries)| <= t.serviceCapacity
    && |t.dependencies| + |Dependencies(entries)| <= t.dependencyCapacity
    && |t.instruments| + |Instruments(entries)| <= t.instrumentCapacity
  }

  /** Two entries found under one handle. */
  predicate SameHandle(a: TypedEntry, b: TypedEntry) {
    Named(a) && Named(b) && HandleOf(a) == HandleOf(b)
  }

  /** No handle occurs twice, be it for a resource, a service or an instrument. */
  predicate DistinctHandles(entries: seq<TypedEntry>) {
    forall i, j | 0 <= i < j < |entries| :: !SameHandle(entries[i], entries[j])
  }

  /** The handle is already in the tables. */
  predicate Taken(t: Tables, e: TypedEntry) {
    Named(e) && ContainsHandle(t, HandleOf(e))
  }

  /** No entry's handle is already in the tables, and no two entries share one. */
  predicate AllNew(t: Tables, entries: seq<TypedEntry>) {
    && (forall i | 0 <= i < |entries| :: !Taken(t, entries[i]))
    && DistinctHandles(entries)
  }

  lemma PartsOfOne(e: TypedEntry)
    ensures Resources([e]) == if e.OfResource? then [e.resource] else []
    ensures Services([e]) == if e.OfService? then [e.service] else []
    ensures Dependencies([e]) == if e.OfDependency? then [e.dependency] else []
    ensures Instruments([e]) == if e.OfInstrument? then [e.instrument] else []
  {
    assert [e][1..] == [];
    assert Resources([e][1..]) == [] && Services([e][1..]) == [];
    assert Dependencies([e][1..]) == [] && Instruments([e][1..]) == [];
  }

  lemma NothingAppended(t: Tables)
    ensures t.resources + [] == t.resources && t.services + [] == t.services
    ensures t.dependencies + [] == t.dependencies && t.instruments + [] == t.instruments
  {
  }

  lemma WithOne(t: Tables, e: TypedEntry)
    ensures With(t, [e]) ==
      match e
      case OfResource(r) => t.(resources := t.resources + [r])
      case OfService(s) => t.(services := t.services + [s])
      case OfDependency(d) => t.(dependencies := t.dependencies + [d])
      case OfInstrument(i) => t.(instruments := t.instruments + [i])
  {
    PartsOfOne(e);
    NothingAppended(t);
    hide Resources, Services, Dependencies, Instruments;
  }

  lemma TakenAfter(t: Tables, e: TypedEntry, other: TypedEntry)
    ensures Taken(With(t, [e]), other) <==> Taken(t, other) || SameHandle(e, other)
  {
    var t' := With(t, [e]);
    WithOne(t, e);
    hide With;
    match e
    case OfResource(r) =>
      assert t'.resources[|t.resources|] == r;
      assert forall i | 0 <= i < |t.resources| :: t'.resources[i] == t.resources[i];
    case OfService(s) =>
      assert t'.services[|t.services|] == s;
      assert forall i | 0 <= i < |t.services| :: t'.services[i] == t.services[i];
    case OfDependency(_) =>
    case OfInstrument(x) =>
      assert t'.instruments[|t.instruments|] == x;
      assert forall i | 0 <= i < |t.instruments| :: t'.instruments[i] == t.instruments[i];
  }

  lemma AllNewStep(t: Tables, entries: seq<TypedEntry>)
    requires entries != []
    ensures AllNew(t, entries) <==> !Taken(t, entries[0]) && AllNew(With(t, entries[..1]), entries[1..])
  {
    hide Taken, SameHandle, With;
    var rest := entries[1..];
    assert entries[..1] == [entries[0]];
    forall i | 1 <= i < |entries|
      ensures rest[i - 1] == entries[i]
      ensures Taken(With(t, entries[..1]), entries[i]) <==> Taken(t, entries[i]) || SameHandle(entries[0], entries[i])
    {
      TakenAfter(t, entries[0], entries[i]);
    }
  }

  lemma WithStep(t: Tables, entries: seq<TypedEntry>)
    requires entries != []
    ensures With(With(t, entries[..1]), entries[1..]) == With(t, entries)
    ensures HasRoom(t, entries) ==> HasRoom(With(t, entries[..1]), entries[1..])
  {
    var front, rest := entries[..1], entries[1..];
    assert front == [entries[0]];
    PartsOfOne(entries[0]);
    Associates(t.resources, Resources(front), Resources(rest));
    Associates(t.services, Services(front), Services(rest));
    Associates(t.dependencies, Dependencies(front), Dependencies(rest));
    Associates(t.instruments, Instruments(front), Instruments(rest));
  }

  lemma WithNone(t: Tables)
    ensures With(t, []) == t
  {
    NothingAppended(t);
  }

  lemma AddOfEntry(t: Tables, entries: seq<TypedEntry>)
    requires entries != [] && HasRoom(t, entries)
    ensures AddStatus(t, entries[0]) == if Taken(t, entries[0]) then DuplicateHandle else Ok
    ensures Add(t, entries[0]) == if Taken(t, entries[0]) then t else With(t, entries[..1])
  {
    hide ContainsHandle, With;
    assert entries[..1] == [entries[0]];
    WithOne(t, entries[0]);
  }

  /** Adding entries to tables with room for them: everything up to the first entry whose handle
      is taken goes in, in order, and that entry is reported as a duplicate. */
  lemma {:induction false} AddsUpToFirstDuplicate(t: Tables, entries: seq<TypedEntry>) returns (k: nat)
    requires HasRoom(t, entries)
    ensures k <= |entries| && AllNew(t, entries[..k])
    ensures AddAll(t, entries) == (With(t, entries[..k]), if k == |entries| then Ok else DuplicateHandle)
    ensures k < |entries| ==> !AllNew(t, entries[..k + 1])
    decreases |entries|
  {
    hide Taken, SameHandle, With, HasRoom, AllNew, AddStatus, Add;
    if entries == [] {
      k := 0;
      WithNone(t);
      NoneAreNew(t);
    } else {
      AddOfEntry(t, entries);
      if Taken(t, entries[0]) {
        k := 0;
        WithNone(t);
        NoneAreNew(t);
        AllNewStep(t, entries[..1]);
      } else {
        WithStep(t, entries);
        var k' := AddsUpToFirstDuplicate(With(t, entries[..1]), entries[1..]);
        k := k' + 1;
        PrefixStep(t, entries, k);
        if k < |entries| {
          PrefixStep(t, entries, k + 1);
        }
      }
    }
  }

  lemma NoneAreNew(t: Tables)
    ensures AllNew(t, [])
  {
  }

  lemma PrefixStep(t: Tables, entries: seq<TypedEntry>, k: nat)
    requires 0 < k <= |entries| && !Taken(t, entries[0])
    ensures AllNew(t, entries[..k]) <==> AllNew(With(t, entries[..1]), entries[1..][..k - 1])
    ensures With(t, entries[..k]) == With(With(t, entries[..1]), entries[1..][..k - 1])
  {
    hide AllNew, With, Taken;
    var front := entries[..k];
    assert front[..1] == entries[..1] && front[1..] == entries[1..][..k - 1] && front[0] == entries[0];
    AllNewStep(t, front);
    WithStep(t, front);
  }

  /** An image of resources, services, dependencies and instruments parses to exactly these,
      in order, each in its own table, exactly when all handles are new and distinct. Otherwise
      the tables hold the entries before the first repeated handle, and the parse reports a
      duplicate. */
  lemma GeneratedParses(window: seq<u8>, t: Tables, provider: u32, entries: seq<TypedEntry>) returns (k: nat)
    requires ImageSize(|entries|) <= UINT32_MAX && Image(provider, entries) <= window
    requires HasRoom(t, entries)
    ensures CastsFit(window) && k <= |entries|
    ensures Parse(t, window) ==
            if AllNew(t, entries) then Done(With(t, entries), Ok) else Done(With(t, entries[..k]), DuplicateHandle)
    ensures !AllNew(t, entries) ==> k < |entries| && AllNew(t, entries[..k]) && !AllNew(t, entries[..k + 1])
  {
    hide CastsFit, Parse, AddAll, AllNew, Image, With, HasRoom;
    ParseOfGenerated(window, t, provider, entries);
    k := AddsUpToFirstDuplicate(t, entries);
    if k == |entries| {
      assert entries[..k] == entries;
    } else {
      if AllNew(t, entries) {
        AllNewPrefix(t, entries, k + 1);
      }
    }
  }

  lemma ParseOfGenerated(window: seq<u8>, t: Tables, provider: u32, entries: seq<TypedEntry>)
    requires ImageSize(|entries|) <= UINT32_MAX && Image(provider, entries) <= window
    ensures CastsFit(window)
    ensures Parse(t, window) == Done(AddAll(t, entries).0, AddAll(t, entries).1)
  {
    hide Validate, EntriesAt, RecordOffsets, Castable, Image, AddAll, Fold;
    GeneratedEntries(window, provider, entries);
    FoldIsAddAll(t, window, RecordOffsets(window));
  }

  lemma AllNewPrefix(t: Tables, entries: seq<TypedEntry>, k: nat)
    requires AllNew(t, entries) && k <= |entries|
    ensures AllNew(t, entries[..k])
  {
  }

  // ---- The built-in profiles

  /** Two items whose provider (in its low half), type and instance agree. */
  predicate SameTriple(a: Item, b: Item) {
    a.provider % 0x1_0000 == b.provider % 0x1_0000 && a.typeId == b.typeId && a.instance == b.instance
  }

  lemma HandlesAreTriples(a: Item, b: Item)
    ensures SameHandle(EntryOf(a), EntryOf(b)) <==> SameTriple(a, b)
  {
    HandleRoundTrip(b.provider % 0x1_0000, b.typeId, b.instance, ItemHandle(a));
    HandleRoundTrip(a.provider % 0x1_0000, a.typeId, a.instance, ItemHandle(a));
  }

  /** Tables with nothing in them and room for four of each. */
  predicate Empty(t: Tables) {
    && t.resources == [] && t.services == [] && t.dependencies == [] && t.instruments == []
    && t.resourceCapacity >= 4 && t.serviceCapacity >= 4
  }

  /** The built-in profiles and the entries of their images: provider 3 for the minimal and the
      CPU card image, 1 for the supervisor, 5 for the instrumentation. */
  lemma ProfileEntries(name: string)
    ensures ProfileNamed(name).Known? <==> name in {"minimal", "cpu-card", "supervisor", "instrumentation"}
    ensures ProfileNamed(name).Known? ==>
      var profile := ProfileNamed(name).profile;
      var entries := EntriesFor(profile.items);
      && (name == "minimal" ==> profile.provider == 3 && entries == [])
      && (name == "cpu-card" ==> profile.provider == 3 && entries == [
           OfResource(Resource(0x0003_2000_0000_0001, 0x2000, 1, 0, 3, 1)),
           OfResource(Resource(0x0003_2003_0000_0001, 0x2003, 1, 0, 3, 1)),
           OfService(Service(0x0003_2000_0000_0001, 0x2000, 1, 0, 3, 1)),
           OfService(Service(0x0003_2001_0000_0001, 0x2001, 1, 0, 3, 1))])
      && (name == "supervisor" ==> profile.provider == 1 && entries == [
           OfResource(Resource(0x0001_0010_0000_0001, 0x0010, 1, 0, 1, 1)),
           OfService(Service(0x0001_0006_0000_0001, 0x0006, 1, 0, 1, 1))])
      && (name == "instrumentation" ==> profile.provider == 5 && entries == [
           OfResource(Resource(0x0005_1000_0000_0001, 0x1000, 1, 0, 5, 1)),
           OfService(Service(0x0005_1000_0000_0001, 0x1000, 1, 0, 5, 1))])
  {
    assert MakeHandle(3, 0x2000, 1) == 0x0003_2000_0000_0001 && MakeHandle(3, 0x2003, 1) == 0x0003_2003_0000_0001;
    assert MakeHandle(3, 0x2001, 1) == 0x0003_2001_0000_0001 && MakeHandle(1, 0x0010, 1) == 0x0001_0010_0000_0001;
    assert MakeHandle(1, 0x0006, 1) == 0x0001_0006_0000_0001 && MakeHandle(5, 0x1000, 1) == 0x0005_1000_0000_0001;
    hide MakeHandle;
  }

  /** How a list of entries parses into empty tables with room for it: up to the first repeated
      handle. */
  lemma ParsesIntoEmpty(window: seq<u8>, t: Tables, provider: u32, entries: seq<TypedEntry>, m: nat)
    requires |entries| <= 4 && Image(provider, entries) <= window && Empty(t) && HasRoom(t, entries)
    requires m <= |entries| && DistinctHandles(entries[..m]) && (m < |entries| ==> !DistinctHandles(entries[..m + 1]))
    ensures Validate(window) == Ok && CastsFit(window)
    ensures Parse(t, window) == Done(With(t, entries[..m]), if m == |entries| then Ok else DuplicateHandle)
  {
    hide Image, Validate, Parse, With, CastsFit, HasRoom, AllNew, DistinctHandles, Empty;
    EmptyTakesNone(t, entries);
    GeneratedEntries(window, provider, entries);
    var k := GeneratedParses(window, t, provider, entries);
    assert entries[..|entries|] == entries;
    if m < |entries| {
      EmptyTakesNone(t, entries[..m + 1]);
      ShorterIsNew(t, entries, m + 1, |entries|);
      SameBreak(t, entries, k, m);
    }
  }

  lemma EmptyTakesNone(t: Tables, entries: seq<TypedEntry>)
    requires Empty(t)
    ensures AllNew(t, entries) <==> DistinctHandles(entries)
  {
    hide DistinctHandles;
  }

  /** Of the built-in profiles, the minimal and the supervisor image parse completely. The CPU
      card and the instrumentation image give a service the handle of a resource, so they
      validate but parse to a duplicate handle, with only the entries before it. */
  lemma ProfileParses(name: string, window: seq<u8>, t: Tables)
    requires ProfileNamed(name).Known? && Empty(t)
    requires Image(ProfileNamed(name).profile.provider, EntriesFor(ProfileNamed(name).profile.items)) <= window
    ensures Validate(window) == Ok && CastsFit(window)
    ensures name == "minimal" ==> Parse(t, window) == Done(t, Ok)
    ensures name == "cpu-card" ==>
              Parse(t, window) ==
              Done(t.(resources := [Resource(0x0003_2000_0000_0001, 0x2000, 1, 0, 3, 1),
                                    Resource(0x0003_2003_0000_0001, 0x2003, 1, 0, 3, 1)]), DuplicateHandle)
    ensures name == "supervisor" ==>
              Parse(t, window) ==
              Done(t.(resources := [Resource(0x0001_0010_0000_0001, 0x0010, 1, 0, 1, 1)],
                      services := [Service(0x0001_0006_0000_0001, 0x0006, 1, 0, 1, 1)]), Ok)
    ensures name == "instrumentation" ==>
              Parse(t, window) ==
              Done(t.(resources := [Resource(0x0005_1000_0000_0001, 0x1000, 1, 0, 5, 1)]), DuplicateHandle)
  {
    hide ProfileNamed, Image, Validate, Parse, CastsFit, EntriesFor, With, HasRoom, DistinctHandles, Empty;
    var provider, entries := ProfileNamed(name).profile.provider, EntriesFor(ProfileNamed(name).profile.items);
    ProfileEntries(name);
    assert entries[..|entries|] == entries;
    if name == "minimal" {
      NoneInEmpty(t);
      ParsesIntoEmpty(window, t, provider, entries, 0);
    } else if name == "cpu-card" {
      FourEntries(t, entries);
      ParsesIntoEmpty(window, t, provider, entries, 2);
    } else if name == "supervisor" {
      TwoEntries(t, entries);
      ParsesIntoEmpty(window, t, provider, entries, 2);
    } else {
      TwoEntries(t, entries);
      ParsesIntoEmpty(window, t, provider, entries, 1);
    }
  }

  lemma NoneInEmpty(t: Tables)
    requires Empty(t)
    ensures HasRoom(t, []) && With(t, []) == t && DistinctHandles([])
  {
    WithNone(t);
  }

  lemma {:induction false} PartsFit(entries: seq<TypedEntry>)
    ensures |Resources(entries)| + |Services(entries)| + |Dependencies(entries)| + |Instruments(entries)| == |entries|
    decreases |entries|
  {
    if entries == [] {
    } else {
      PartsFit(entries[1..]);
    }
  }

  lemma {:induction false} NoOtherParts(entries: seq<TypedEntry>)
    requires forall i | 0 <= i < |entries| :: entries[i].OfResource? || entries[i].OfService?
    ensures Dependencies(entries) == [] && Instruments(entries) == []
    decreases |entries|
  {
    if entries == [] {
    } else {
      NoOtherParts(entries[1..]);
    }
  }

  lemma EmptyHasRoom(t: Tables, entries: seq<TypedEntry>)
    requires Empty(t) && |entries| <= 4
    requires forall i | 0 <= i < |entries| :: entries[i].OfResource? || entries[i].OfService?
    ensures HasRoom(t, entries)
  {
    PartsFit(entries);
    NoOtherParts(entries);
    hide Resources, Services, Dependencies, Instruments;
  }

  /** A resource, then a service. */
  lemma TwoEntries(t: Tables, entries: seq<TypedEntry>)
    requires Empty(t) && |entries| == 2 && entries[0].OfResource? && entries[1].OfService?
    ensures HasRoom(t, entries)
    ensures entries[..2] == entries
    ensures With(t, entries) == t.(resources := [entries[0].resource], services := [entries[1].service])
    ensures With(t, entries[..1]) == t.(resources := [entries[0].resource])
    ensures DistinctHandles(entries[..1]) && (DistinctHandles(entries) <==> !SameHandle(entries[0], entries[1]))
  {
    var rest := entries[1..];
    assert entries[..1] == [entries[0]] && rest == [entries[1]] && entries[..2] == entries;
    EmptyHasRoom(t, entries);
    WithOne(t, entries[0]);
    WithOne(With(t, [entries[0]]), entries[1]);
    WithStep(t, entries);
    hide With, HasRoom, SameHandle;
  }

  /** Two resources, then two services of which the first repeats the first one's handle. */
  lemma FourEntries(t: Tables, entries: seq<TypedEntry>)
    requires Empty(t) && |entries| == 4 && entries[0].OfResource? && entries[1].OfResource?
    requires entries[2].OfService? && entries[3].OfService?
    requires SameHandle(entries[0], entries[2]) && !SameHandle(entries[0], entries[1])
    ensures HasRoom(t, entries)
    ensures With(t, entries[..2]) == t.(resources := [entries[0].resource, entries[1].resource])
    ensures DistinctHandles(entries[..2]) && !DistinctHandles(entries[..3])
  {
    var front := entries[..2];
    assert front[..1] == [entries[0]] && front[1..] == [entries[1]];
    EmptyHasRoom(t, entries);
    WithOne(t, entries[0]);
    WithOne(With(t, [entries[0]]), entries[1]);
    WithStep(t, front);
    hide With, HasRoom, SameHandle;
    assert SameHandle(entries[..3][0], entries[..3][2]);
  }

  /** Where a list first repeats a handle is determined. */
  lemma SameBreak(t: Tables, entries: seq<TypedEntry>, k: nat, m: nat)
    requires Empty(t) && k < |entries| && m < |entries|
    requires AllNew(t, entries[..k]) && !AllNew(t, entries[..k + 1])
    requires DistinctHandles(entries[..m]) && !DistinctHandles(entries[..m + 1])
    ensures k == m
  {
    hide AllNew, DistinctHandles, Empty;
    EmptyTakesNone(t, entries[..m]);
    EmptyTakesNone(t, entries[..m + 1]);
    if k < m {
      ShorterIsNew(t, entries, k + 1, m);
    } else if m < k {
      ShorterIsNew(t, entries, m + 1, k);
    }
  }

  lemma ShorterIsNew(t: Tables, entries: seq<TypedEntry>, j: nat, k: nat)
    requires j <= k <= |entries|
    ensures AllNew(t, entries[..k]) ==> AllNew(t, entries[..j])
  {
    assert entries[..k][..j] == entries[..j];
    if AllNew(t, entries[..k]) {
      AllNewPrefix(t, entries[..k], j);
    }
  }

  // ---- What validation does not see

  /** A record of eight bytes, followed by END. */
  function ShortRecords(recordType: u16): (s: seq<u8>)
    ensures |s| == 16
  {
    HeadBytes(recordType, 1, 8) + EndBytes()
  }

  lemma ShortRecordsRead(window: seq<u8>, recordType: u16)
    requires HoldsBytes(window, ShortRecords(recordType))
    ensures |window| >= 48 && Get16(window, 32) == recordType && Get32(window, 36) == 8
    ensures Get16(window, 40) == END && Get32(window, 44) == 8
  {
    hide Get16, Get32, HeadBytes;
    var s := ShortRecords(recordType);
    assert s[0..8] == HeadBytes(recordType, 1, 8) && s[8..16] == EndBytes();
    HeldSlice(window, s, 0, 8);
    HeldSlice(window, s, 8, 16);
    HeadReads(window, 32, recordType, 1, 8);
    HeadReads(window, 40, 0xFFFF, 1, 8);
  }

  /** One short record of any type passes validation. */
  lemma ShortRecordValidates(recordType: u16) returns (image: seq<u8>)
    requires recordType != 0xFFFF
    ensures image == Patched(3, 48, 2, ShortRecords(recordType)) && |image| == 48
    ensures Validate(image) == Ok && RecordOffsets(image) == [32] && Get16(image, 32) == recordType
  {
    hide Get16, Get32, Patched, ShortRecords, HoldsBytes, CheckHeader;
    image := Patched(3, 48, 2, ShortRecords(recordType));
    GeneratedHeader(image, 3, 48, 2, ShortRecords(recordType));
    ShortRecordsRead(image, recordType);
    assert ScanFrom(image, 48, 40) == Ended([40]);
    assert ScanFrom(image, 48, 32) == Ended([32, 40]);
    WalkedValidates(image, [32, 40]);
    assert [32, 40][..1] == [32];
  }

  /** A record too short for its type passes validation, and no tables whatsoever save the
      parser from reading past the end of this image. */
  lemma ShortRecordOverruns(t: Tables) returns (image: seq<u8>)
    ensures |image| == 48 && Validate(image) == Ok && Parse(t, image) == OutOfBounds(t)
  {
    hide Get16, Get32, Patched, Validate, RecordOffsets, ContainsHandle;
    image := ShortRecordValidates(RESOURCE);
    assert StepAt(t, image, 32) == OutOfBounds(t);
  }

  /** With any other type but END it is skipped: the image validates, and a parse leaves the
      tables as they were. */
  lemma UnknownRecordIsSkipped(t: Tables, recordType: u16) returns (image: seq<u8>)
    requires recordType !in {1, 2, 4, 5, 0xFFFF}
    ensures image == Patched(3, 48, 2, ShortRecords(recordType))
    ensures |image| == 48 && Validate(image) == Ok && Parse(t, image) == Done(t, Ok)
  {
    hide Get16, Get32, Patched, Validate, RecordOffsets, ContainsHandle, ShortRecords;
    image := ShortRecordValidates(recordType);
    assert StepAt(t, image, 32) == Done(t, Ok);
    assert [32][1..] == [];
  }
}
