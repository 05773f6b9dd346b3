/** The discovery image generator (tools/mkdiscovery/mkdiscovery.c): records appended through
    a moving offset, then the header completed and both checksums patched in. */
module MkDiscovery {
  import opened Bytes
  import opened DiscoveryFormat
  import opened DiscoveryDatabase
  import opened DiscoveryLayout

  /** What a call of one of the two append functions asks for. */
  datatype Item =
    | ResourceItem(typeId: u16, provider: u32, instance: u32)
    | ServiceItem(typeId: u16, provider: u32, instance: u32)

  /** Only the low half of the provider number goes into the handle. */
  function ItemHandle(item: Item): u64 {
    MakeHandle(item.provider % 0x1_0000, item.typeId, item.instance)
  }

  /** The entry a generated record holds: version 1 and no flags. */
  function EntryOf(item: Item): TypedEntry {
    match item
    case ResourceItem(typeId, provider, instance) => OfResource(Resource(ItemHandle(item), typeId, 1, 0, provider, instance))
    case ServiceItem(typeId, provider, instance) => OfService(Service(ItemHandle(item), typeId, 1, 0, provider, instance))
  }

  function EntriesFor(items: seq<Item>): (entries: seq<TypedEntry>)
    ensures |entries| == |items| && forall k | 0 <= k < |items| :: entries[k] == EntryOf(items[k])
  {
    seq(|items|, k requires 0 <= k < |items| => EntryOf(items[k]))
  }

  // ---- Layout

  function EndBytes(): (s: seq<u8>)
    ensures |s| == RECORD_HEADER_SIZE
  {
    HeadBytes(0xFFFF, 1, 8)
  }

  function Body(entries: seq<TypedEntry>): (s: seq<u8>)
    ensures |s| == 32 * |entries|
    decreases |entries|
  {
    if entries == [] then []
    else
      var n := |entries| - 1;
      Body(entries[..n]) + RecordBytes(entries[n])
  }

  function HeaderFront(provider: u32, total: u32, count: u32): (s: seq<u8>)
    ensures |s| == 24
  {
    Le32(MAGIC) + Le16(1) + Le16(0) + Le32(total) + Le32(count) + Le32(provider) + Le32(0)
  }

  function HeaderBytes(provider: u32, total: u32, count: u32, headerCrc: u32, imageCrc: u32): (s: seq<u8>)
    ensures |s| == HEADER_SIZE
  {
    HeaderFront(provider, total, count) + (Le32(headerCrc) + Le32(imageCrc))
  }

  /** The length of an image with n records before END. */
  function ImageSize(n: nat): (size: nat)
    ensures size % 8 == 0
  {
    MultipleOfEight(HEADER_SIZE + 32 * n + RECORD_HEADER_SIZE, 5 + 4 * n);
    HEADER_SIZE + 32 * n + RECORD_HEADER_SIZE
  }

  /** Checksummed with both checksum fields zero. */
  function PatchedHeaderCrc(provider: u32, total: u32, count: u32): u32 {
    Crc32(HeaderBytes(provider, total, count, 0, 0))
  }

  /** Checksummed with the header checksum in place and its own field zero. */
  function PatchedImageCrc(provider: u32, total: u32, count: u32, records: seq<u8>): u32 {
    Crc32(HeaderBytes(provider, total, count, PatchedHeaderCrc(provider, total, count), 0) + records)
  }

  /** A header with both checksums, and the records it covers. */
  function Patched(provider: u32, total: u32, count: u32, records: seq<u8>): (s: seq<u8>)
    ensures |s| == HEADER_SIZE + |records|
  {
    HeaderBytes(provider, total, count, PatchedHeaderCrc(provider, total, count),
                PatchedImageCrc(provider, total, count, records))
    + records
  }

  /** The image for a list of entries. */
  function Image(provider: u32, entries: seq<TypedEntry>): (s: seq<u8>)
    requires ImageSize(|entries|) <= UINT32_MAX
    ensures |s| == ImageSize(|entries|)
  {
    Patched(provider, ImageSize(|entries|), |entries| + 1, Body(entries) + EndBytes())
  }

  lemma {:induction false} BodyAt(entries: seq<TypedEntry>, k: nat)
    requires k < |entries|
    ensures Body(entries)[32 * k..32 * k + 32] == RecordBytes(entries[k])
    decreases |entries|
  {
    hide RecordBytes;
    var n := |entries| - 1;
    var at := 32 * k;
    if k < n {
      BodyAt(entries[..n], k);
      assert Body(entries)[at..at + 32] == Body(entries[..n])[at..at + 32];
    }
  }

  lemma BodyGrows(entries: seq<TypedEntry>, e: TypedEntry)
    ensures Body(entries + [e]) == Body(entries) + RecordBytes(e)
  {
    assert (entries + [e])[..|entries|] == entries;
  }

  // ---- The procedures

  /** Both checksums, each in its own field, in this order. */
  method PatchCrc32(image: array<u8>, length: nat,
                    ghost provider: u32, ghost total: u32, ghost count: u32, ghost records: seq<u8>)
    requires HEADER_SIZE + |records| == length <= image.Length
    requires image[..24] == HeaderFront(provider, total, count) && image[HEADER_SIZE..length] == records
    modifies image
    ensures image[..length] == Patched(provider, total, count, records)
    ensures forall i | length <= i < image.Length :: image[i] == old(image[i])
  {
    hide HeaderFront, HeaderBytes, Crc32, Le32;
    WriteLe32(image, 24, 0);
    WriteLe32(image, 28, 0);
    ImageInPlace(image[..], provider, total, count, 0, 0, records);
    var headerCrc := ComputeCrc32(image, 32);
    WriteLe32(image, 24, headerCrc);
    ImageInPlace(image[..], provider, total, count, headerCrc, 0, records);
    var imageCrc := ComputeCrc32(image, length);
    WriteLe32(image, 28, imageCrc);
    ImageInPlace(image[..], provider, total, count, headerCrc, imageCrc, records);
  }

  lemma ImageInPlace(s: seq<u8>, provider: u32, total: u32, count: u32, headerCrc: u32, imageCrc: u32, records: seq<u8>)
    requires HEADER_SIZE + |records| <= |s| && s[..24] == HeaderFront(provider, total, count)
    requires s[24..28] == Le32(headerCrc) && s[28..32] == Le32(imageCrc)
    requires s[HEADER_SIZE..HEADER_SIZE + |records|] == records
    ensures s[..32] == HeaderBytes(provider, total, count, headerCrc, imageCrc)
    ensures s[..HEADER_SIZE + |records|] == HeaderBytes(provider, total, count, headerCrc, imageCrc) + records
  {
    hide HeaderFront, Le32;
    assert s[..32] == s[..24] + (s[24..28] + s[28..32]);
    assert s[..HEADER_SIZE + |records|] == s[..32] + s[HEADER_SIZE..HEADER_SIZE + |records|];
  }

  /** A copy that does not fit leaves the image and the offset as they were. */
  method AppendBytes(image: array<u8>, capacity: nat, offset: nat, source: seq<u8>) returns (failed: bool, newOffset: nat)
    requires offset <= capacity <= image.Length
    modifies image
    ensures failed == (|source| > capacity - offset)
    ensures newOffset == if failed then offset else offset + |source|
    ensures !failed ==> image[offset..newOffset] == source
    ensures forall i | 0 <= i < image.Length && !(offset <= i < newOffset) :: image[i] == old(image[i])
  {
    if |source| > capacity - offset {
      return true, offset;
    }
    CopyIn(image, offset, source);
    failed, newOffset := false, offset + |source|;
  }

  method AppendEnd(image: array<u8>, capacity: nat, offset: nat) returns (failed: bool, newOffset: nat)
    requires offset <= capacity <= image.Length
    modifies image
    ensures failed == (RECORD_HEADER_SIZE > capacity - offset)
    ensures newOffset == if failed then offset else offset + RECORD_HEADER_SIZE
    ensures !failed ==> image[offset..newOffset] == EndBytes()
    ensures forall i | 0 <= i < image.Length && !(offset <= i < newOffset) :: image[i] == old(image[i])
  {
    var record := new u8[8];
    FillZero(record, 0, 8);
    FillHeader(record, END, 8);
    assert record[..] == record[0..2] + record[2..4] + record[4..8];
    failed, newOffset := AppendBytes(image, capacity, offset, record[..]);
  }

  /** The record structure both appends fill in. */
  method FillRecord(record: array<u8>, item: Item)
    requires record.Length == TYPED_RECORD_SIZE
    modifies record
    ensures record[..] == RecordBytes(EntryOf(item))
  {
    hide RecordBytes, HeadBytes, Tags, Le32, Le64, ItemHandle;
    FillRecordHead(record, item);
    ghost var head := record[..16];
    WriteLe64(record, 16, ItemHandle(item));
    WriteLe32(record, 24, item.provider);
    WriteLe32(record, 28, item.instance);
    assert record[..16] == head;
    RecordParts(record[..], item);
  }

  lemma RecordParts(s: seq<u8>, item: Item)
    requires |s| == TYPED_RECORD_SIZE && s[..16] == HeadBytes(RecordType(EntryOf(item)), 1, 32) + Tags(item.typeId, 1, 0)
    requires s[16..24] == Le64(ItemHandle(item)) && s[24..28] == Le32(item.provider) && s[28..32] == Le32(item.instance)
    ensures s == RecordBytes(EntryOf(item))
  {
    hide HeadBytes, Tags, Le32, Le64, ItemHandle;
    assert s[..8] == s[..16][..8] && s[8..16] == s[..16][8..];
    assert s[24..32] == s[24..28] + s[28..32];
    assert s == s[..8] + (s[8..16] + s[16..24] + s[24..32]);
  }

  method FillRecordHead(record: array<u8>, item: Item)
    requires record.Length == TYPED_RECORD_SIZE
    modifies record
    ensures record[..16] == HeadBytes(RecordType(EntryOf(item)), 1, 32) + Tags(item.typeId, 1, 0)
  {
    hide Le16, Le32, ItemHandle;
    FillZero(record, 0, 32);
    FillHeader(record, if item.ResourceItem? then RESOURCE else SERVICE, 32);
    FillTypeId(record, item.typeId);
    HeadParts(record[..], RecordType(EntryOf(item)), item.typeId);
  }

  lemma HeadParts(s: seq<u8>, recordType: u16, typeId: u16)
    requires |s| == TYPED_RECORD_SIZE && s[0..2] == Le16(recordType) && s[2..4] == Le16(1) && s[4..8] == Le32(32)
    requires s[8..10] == Le16(typeId) && s[10..12] == Le16(1) && s[12..16] == Le32(0)
    ensures s[..16] == HeadBytes(recordType, 1, 32) + Tags(typeId, 1, 0)
  {
    hide Le16, Le32;
    assert s[0..8] == s[0..2] + s[2..4] + s[4..8];
    assert s[8..16] == s[8..10] + s[10..12] + s[12..16];
    assert s[..16] == s[0..8] + s[8..16];
  }

  method FillHeader(record: array<u8>, recordType: u16, length: u32)
    requires record.Length >= RECORD_HEADER_SIZE
    modifies record
    ensures record[0..2] == Le16(recordType) && record[2..4] == Le16(1) && record[4..8] == Le32(length)
    ensures forall i | 8 <= i < record.Length :: record[i] == old(record[i])
  {
    WriteLe16(record, 0, recordType);
    WriteLe16(record, 2, 1);
    WriteLe32(record, 4, length);
  }

  /** The type and version 1; the flags stay clear. */
  method FillTypeId(record: array<u8>, typeId: u16)
    requires record.Length == TYPED_RECORD_SIZE && forall i | 8 <= i < record.Length :: record[i] == 0
    modifies record
    ensures record[8..10] == Le16(typeId) && record[10..12] == Le16(1) && record[12..16] == Le32(0)
    ensures forall i | 0 <= i < 8 :: record[i] == old(record[i])
  {
    WriteLe16(record, 8, typeId);
    WriteLe16(record, 10, 1);
    Le32OfZero();
    assert record[12..16] == Zeros(4);
  }

  method AppendResource(image: array<u8>, capacity: nat, offset: nat, typeId: u16, provider: u32, instance: u32)
    returns (failed: bool, newOffset: nat)
    requires offset <= capacity <= image.Length
    modifies image
    ensures failed == (TYPED_RECORD_SIZE > capacity - offset)
    ensures newOffset == if failed then offset else offset + TYPED_RECORD_SIZE
    ensures !failed ==> image[offset..newOffset] == RecordBytes(EntryOf(ResourceItem(typeId, provider, instance)))
    ensures forall i | 0 <= i < image.Length && !(offset <= i < newOffset) :: image[i] == old(image[i])
  {
    hide RecordBytes;
    var record := new u8[32];
    FillRecord(record, ResourceItem(typeId, provider, instance));
    failed, newOffset := AppendBytes(image, capacity, offset, record[..]);
  }

  method AppendService(image: array<u8>, capacity: nat, offset: nat, serviceId: u16, provider: u32, instance: u32)
    returns (failed: bool, newOffset: nat)
    requires offset <= capacity <= image.Length
    modifies image
    ensures failed == (TYPED_RECORD_SIZE > capacity - offset)
    ensures newOffset == if failed then offset else offset + TYPED_RECORD_SIZE
    ensures !failed ==> image[offset..newOffset] == RecordBytes(EntryOf(ServiceItem(serviceId, provider, instance)))
    ensures forall i | 0 <= i < image.Length && !(offset <= i < newOffset) :: image[i] == old(image[i])
  {
    hide RecordBytes;
    var record := new u8[32];
    FillRecord(record, ServiceItem(serviceId, provider, instance));
    failed, newOffset := AppendBytes(image, capacity, offset, record[..]);
  }

  // ---- The built-in profiles

  datatype Profile = Profile(provider: u32, items: seq<Item>)

  datatype ProfileOption = Known(profile: Profile) | Unknown

  /** What each profile name stands for. */
  function ProfileNamed(name: string): ProfileOption {
    if name == "minimal" then Known(Profile(3, []))
    else if name == "cpu-card" then
      Known(Profile(3, [ResourceItem(0x2000, 3, 1), ResourceItem(0x2003, 3, 1),
                        ServiceItem(0x2000, 3, 1), ServiceItem(0x2001, 3, 1)]))
    else if name == "supervisor" then
      Known(Profile(1, [ResourceItem(0x0010, 1, 1), ServiceItem(0x0006, 1, 1)]))
    else if name == "instrumentation" then
      Known(Profile(5, [ResourceItem(0x1000, 5, 1), ServiceItem(0x1000, 5, 1)]))
    else Unknown
  }

  /** An image under construction: its header has no lengths yet, and unless an append failed
      it holds exactly the records appended so far. */
  ghost predicate Building(image: array<u8>, capacity: nat, offset: nat, failed: bool, provider: u32, items: seq<Item>)
    reads image
  {
    && HEADER_SIZE <= offset <= capacity <= image.Length
    && image[..24] == HeaderFront(provider, 0, 0)
    && failed == (HEADER_SIZE + 32 * |items| > capacity)
    && (!failed ==> offset == HEADER_SIZE + 32 * |items| && image[HEADER_SIZE..offset] == Body(EntriesFor(items)))
  }

  /** The header fields known before the records are. */
  method StartImage(image: array<u8>, capacity: nat, provider: u32)
    requires HEADER_SIZE <= capacity <= image.Length
    modifies image
    ensures Building(image, capacity, HEADER_SIZE, false, provider, [])
    ensures forall i | capacity <= i < image.Length :: image[i] == old(image[i])
  {
    hide Le16, Le32;
    FillZero(image, 0, capacity);
    StartHeader(image);
    Le32OfZero();
    assert image[8..12] == Zeros(4) && image[12..16] == Zeros(4);
    WriteLe32(image, 16, provider);
    assert image[20..24] == Zeros(4);
    FrontParts(image[..]);
  }

  method StartHeader(image: array<u8>)
    requires HEADER_SIZE <= image.Length
    modifies image
    ensures image[0..4] == Le32(MAGIC) && image[4..6] == Le16(1) && image[6..8] == Le16(0)
    ensures forall i | 8 <= i < image.Length :: image[i] == old(image[i])
  {
    WriteLe32(image, 0, MAGIC);
    WriteLe16(image, 4, 1);
    WriteLe16(image, 6, 0);
  }

  lemma FrontParts(s: seq<u8>)
    requires |s| >= HEADER_SIZE
    ensures s[..24] == s[0..4] + s[4..6] + s[6..8] + s[8..12] + s[12..16] + s[16..20] + s[20..24]
  {
  }

  lemma FrontFields(provider: u32, total: u32, count: u32)
    ensures var s := HeaderFront(provider, total, count);
      && s[0..4] == Le32(MAGIC) && s[4..6] == Le16(1) && s[6..8] == Le16(0) && s[8..12] == Le32(total)
      && s[12..16] == Le32(count) && s[16..20] == Le32(provider) && s[20..24] == Le32(0)
  {
    SevenSlices(Le32(MAGIC), Le16(1), Le16(0), Le32(total), Le32(count), Le32(provider), Le32(0));
  }

  lemma SevenSlices(a: seq<u8>, b: seq<u8>, c: seq<u8>, d: seq<u8>, e: seq<u8>, f: seq<u8>, g: seq<u8>)
    requires |a| == |d| == |e| == |f| == |g| == 4 && |b| == |c| == 2
    ensures var s := a + b + c + d + e + f + g;
      && s[0..4] == a && s[4..6] == b && s[6..8] == c && s[8..12] == d
      && s[12..16] == e && s[16..20] == f && s[20..24] == g
  {
  }

  /** Another provider than the one the image was started with. */
  method SetProvider(image: array<u8>, capacity: nat, offset: nat, ghost before: u32, provider: u32)
    requires Building(image, capacity, offset, false, before, [])
    modifies image
    ensures Building(image, capacity, offset, false, provider, [])
    ensures forall i | capacity <= i < image.Length :: image[i] == old(image[i])
  {
    hide Le16, Le32;
    FrontFields(before, 0, 0);
    ghost var front := image[..24];
    WriteLe32(image, 16, provider);
    assert forall i | 0 <= i < 24 && !(16 <= i < 20) :: image[i] == front[i];
    assert image[0..4] == front[0..4] && image[4..6] == front[4..6] && image[6..8] == front[6..8];
    assert image[8..12] == front[8..12] && image[12..16] == front[12..16] && image[20..24] == front[20..24];
    FrontParts(image[..]);
  }

  /** Writing the total length and the record count completes the first 24 bytes. */
  lemma FrontCompleted(s: seq<u8>, t: seq<u8>, provider: u32, total: u32, count: u32)
    requires |s| == |t| >= HEADER_SIZE && s[..24] == HeaderFront(provider, 0, 0)
    requires forall i | 0 <= i < |s| && !(8 <= i < 16) :: t[i] == s[i]
    requires t[8..12] == Le32(total) && t[12..16] == Le32(count)
    ensures t[..24] == HeaderFront(provider, total, count)
  {
    hide Le16, Le32;
    FrontFields(provider, 0, 0);
    var front := s[..24];
    assert forall i | 0 <= i < 24 && !(8 <= i < 16) :: t[i] == front[i];
    assert t[0..4] == front[0..4] && t[4..6] == front[4..6] && t[6..8] == front[6..8];
    assert t[16..20] == front[16..20] && t[20..24] == front[20..24];
    FrontParts(t);
  }

  /** One more record, with the failures so far; a failed append does not stop the later ones. */
  method AppendItem(image: array<u8>, capacity: nat, offset: nat, status: bool, item: Item,
                    ghost provider: u32, ghost items: seq<Item>)
    returns (newStatus: bool, newOffset: nat)
    requires Building(image, capacity, offset, status, provider, items)
    modifies image
    ensures Building(image, capacity, newOffset, newStatus, provider, items + [item])
    ensures forall i | capacity <= i < image.Length :: image[i] == old(image[i])
  {
    hide RecordBytes, HeaderFront, Body;
    ghost var body := image[HEADER_SIZE..offset];
    var failed;
    if item.ResourceItem? {
      failed, newOffset := AppendResource(image, capacity, offset, item.typeId, item.provider, item.instance);
    } else {
      failed, newOffset := AppendService(image, capacity, offset, item.typeId, item.provider, item.instance);
    }
    newStatus := status || failed;
    assert image[HEADER_SIZE..offset] == body;
    assert image[HEADER_SIZE..newOffset] == image[HEADER_SIZE..offset] + image[offset..newOffset];
    assert EntriesFor(items + [item]) == EntriesFor(items) + [EntryOf(item)];
    BodyGrows(EntriesFor(items), EntryOf(item));
  }

  /** The END record, the header fields that depend on the records, and the checksums. */
  method FinishImage(image: array<u8>, capacity: nat, offset: nat, status: bool, count: nat,
                     ghost provider: u32, ghost items: seq<Item>)
    returns (failed: bool, length: nat)
    requires Building(image, capacity, offset, status, provider, items)
    requires count == |items| && ImageSize(|items|) <= UINT32_MAX
    modifies image
    ensures failed <==> ImageSize(|items|) > capacity
    ensures !failed ==> length == ImageSize(|items|) && image[..length] == Image(provider, EntriesFor(items))
    ensures forall i | capacity <= i < image.Length :: image[i] == old(image[i])
  {
    hide HeaderFront, EndBytes, Body, Patched;
    ghost var body := image[HEADER_SIZE..offset];
    var endFailed;
    endFailed, length := AppendEnd(image, capacity, offset);
    if status || endFailed {
      return true, 0;
    }
    assert image[HEADER_SIZE..offset] == body;
    assert image[HEADER_SIZE..length] == image[HEADER_SIZE..offset] + image[offset..length];
    ghost var before := image[..];
    WriteLe32(image, 8, length);
    WriteLe32(image, 12, count + 1);
    FrontCompleted(before, image[..], provider, length, count + 1);
    PatchCrc32(image, length, provider, length, count + 1, Body(EntriesFor(items)) + EndBytes());
    failed := false;
  }

  /** A known profile that fits gives exactly the image of its items; otherwise the build
      fails. */
  method BuildProfile(name: string, image: array<u8>, capacity: nat) returns (failed: bool, length: nat)
    requires HEADER_SIZE <= capacity <= image.Length
    modifies image
    ensures match ProfileNamed(name)
      case Unknown => failed
      case Known(profile) =>
        && failed == (ImageSize(|profile.items|) > capacity)
        && (!failed ==>
              && length == ImageSize(|profile.items|)
              && image[..length] == Image(profile.provider, EntriesFor(profile.items)))
    ensures forall i | capacity <= i < image.Length :: image[i] == old(image[i])
  {
    hide Building, Image;
    var provider: u32 := 3;
    StartImage(image, capacity, provider);
    var offset, count, status := HEADER_SIZE, 0, false;
    ghost var items: seq<Item> := [];
    if name == "minimal" {
    } else if name == "cpu-card" {
      status, offset := AppendItem(image, capacity, offset, status, ResourceItem(0x2000, provider, 1), provider, items);
      count, items := count + 1, items + [ResourceItem(0x2000, provider, 1)];
      status, offset := AppendItem(image, capacity, offset, status, ResourceItem(0x2003, provider, 1), provider, items);
      count, items := count + 1, items + [ResourceItem(0x2003, provider, 1)];
      status, offset := AppendItem(image, capacity, offset, status, ServiceItem(0x2000, provider, 1), provider, items);
      count, items := count + 1, items + [ServiceItem(0x2000, provider, 1)];
      status, offset := AppendItem(image, capacity, offset, status, ServiceItem(0x2001, provider, 1), provider, items);
      count, items := count + 1, items + [ServiceItem(0x2001, provider, 1)];
    } else if name == "supervisor" {
      provider := 1;
      SetProvider(image, capacity, offset, 3, provider);
      status, offset := AppendItem(image, capacity, offset, status, ResourceItem(0x0010, provider, 1), provider, items);
      count, items := count + 1, items + [ResourceItem(0x0010, provider, 1)];
      status, offset := AppendItem(image, capacity, offset, status, ServiceItem(0x0006, provider, 1), provider, items);
      count, items := count + 1, items + [ServiceItem(0x0006, provider, 1)];
    } else if name == "instrumentation" {
      provider := 5;
      SetProvider(image, capacity, offset, 3, provider);
      status, offset := AppendItem(image, capacity, offset, status, ResourceItem(0x1000, provider, 1), provider, items);
      count, items := count + 1, items + [ResourceItem(0x1000, provider, 1)];
      status, offset := AppendItem(image, capacity, offset, status, ServiceItem(0x1000, provider, 1), provider, items);
      count, items := count + 1, items + [ServiceItem(0x1000, provider, 1)];
    } else {
      return true, 0;
    }
    assert ProfileNamed(name) == Known(Profile(provider, items));
    failed, length := FinishImage(image, capacity, offset, status, count, provider, items);
  }
}
