/** Discovery images: header, records and handles (include/atarix/discovery.h). */
module DiscoveryFormat {
  import opened Bytes
  import opened Words
  import Crc

  const HEADER_SIZE: nat := 32
  const RECORD_HEADER_SIZE: nat := 8
  const TYPED_RECORD_SIZE: nat := 32

  /** "ATDX" */
  const MAGIC: u32 := 0x5844_5441

  const RESOURCE: u16 := 1
  const SERVICE: u16 := 2
  const DEPENDENCY: u16 := 4
  const INSTRUMENTATION: u16 := 5
  const END: u16 := 0xFFFF

  datatype Result =
    | Ok
    | TooSmall
    | BadMagic
    | UnsupportedVersion
    | BadLength
    | BadAlignment
    | TruncatedRecord
    | MissingEnd
    | DuplicateHandle
    | CapacityExceeded
    | BadCrc

  function Crc32(data: seq<u8>): u32 {
    Crc.Checksum(data, Crc.CRC32)
  }

  /** The mask form of the CRC loop, as the validator and the generator each have it. */
  method ComputeCrc32(data: array<u8>, length: nat) returns (r: u32)
    requires length <= data.Length
    ensures r == Crc32(data[..length])
  {
    ghost var all := data[..length];
    r := 0xFFFF_FFFF;
    var i := 0;
    while i < length
      invariant 0 <= i <= length
      invariant Crc.Update(r, all[i..], Crc.CRC32) == Crc.Update(0xFFFF_FFFF, all, Crc.CRC32)
    {
      assert all[i] == data[i] && all[i..][1..] == all[i + 1..];
      r := BitXor(r, data[i]);
      r := Crc.MaskByte(r, 0xEDB8_8320);
      i := i + 1;
    }
    r := BitXor(r, 0xFFFF_FFFF);
  }

  // ---- Handles

  /** provider << 48 | type << 32 | instance */
  function MakeHandle(provider: u16, typeId: u16, instance: u32): u64 {
    provider * 0x1_0000_0000_0000 + typeId * 0x1_0000_0000 + instance
  }

  function HandleProvider(handle: u64): u16 {
    handle / 0x1_0000_0000_0000
  }

  function HandleType(handle: u64): u16 {
    handle / 0x1_0000_0000 % 0x1_0000
  }

  function HandleInstance(handle: u64): u32 {
    handle % 0x1_0000_0000
  }

  /** The three projections undo the packing, and the packing undoes the projections. */
  lemma HandleRoundTrip(provider: u16, typeId: u16, instance: u32, handle: u64)
    ensures handle == MakeHandle(provider, typeId, instance) <==>
            HandleProvider(handle) == provider && HandleType(handle) == typeId && HandleInstance(handle) == instance
  {
    var high := handle / 0x1_0000_0000;
    assert handle == high * 0x1_0000_0000 + handle % 0x1_0000_0000;
    assert high == high / 0x1_0000 * 0x1_0000 + high % 0x1_0000;
    assert handle / 0x1_0000_0000_0000 == high / 0x1_0000;
    if handle == MakeHandle(provider, typeId, instance) {
      var top := provider * 0x1_0000 + typeId;
      assert handle == top * 0x1_0000_0000 + instance;
      assert high == top && handle % 0x1_0000_0000 == instance;
      assert top / 0x1_0000 == provider && top % 0x1_0000 == typeId;
    }
  }

  /** A handle in bytes: the instance, then the type, then the provider. */
  lemma HandleBytes(provider: u16, typeId: u16, instance: u32)
    ensures Le64(MakeHandle(provider, typeId, instance)) == Le32(instance) + Le16(typeId) + Le16(provider)
  {
    var high: u32 := provider * 0x1_0000 + typeId;
    HalvesOfLe64(instance, high, MakeHandle(provider, typeId, instance));
    Digits(typeId % 0x100, typeId / 0x100, provider % 0x100, provider / 0x100, high);
    assert Le32(high) == Le16(typeId) + Le16(provider);
    Associates(Le32(instance), Le16(typeId), Le16(provider));
  }

  lemma Associates<T>(a: seq<T>, b: seq<T>, c: seq<T>)
    ensures a + b + c == a + (b + c)
  {
  }

  // ---- Table entries

  datatype Resource = Resource(handle: u64, resourceType: u16, version: u16, flags: u32, providerId: u32, instanceId: u32)
  datatype Service = Service(handle: u64, serviceId: u16, version: u16, flags: u32, providerId: u32, instanceId: u32)
  datatype Dependency = Dependency(consumer: u64, provider: u64, dependencyType: u16, version: u16, flags: u32)
  datatype Instrument = Instrument(handle: u64, observed: u64, instrumentType: u16, version: u16, flags: u32)

  /** The 32-byte record structures, read at an offset. */
  function ResourceAt(image: seq<u8>, at: nat): Resource
    requires at + TYPED_RECORD_SIZE <= |image|
  {
    Resource(Get64(image, at + 16), Get16(image, at + 8), Get16(image, at + 10), Get32(image, at + 12),
             Get32(image, at + 24), Get32(image, at + 28))
  }

  function ServiceAt(image: seq<u8>, at: nat): Service
    requires at + TYPED_RECORD_SIZE <= |image|
  {
    Service(Get64(image, at + 16), Get16(image, at + 8), Get16(image, at + 10), Get32(image, at + 12),
            Get32(image, at + 24), Get32(image, at + 28))
  }

  function DependencyAt(image: seq<u8>, at: nat): Dependency
    requires at + TYPED_RECORD_SIZE <= |image|
  {
    Dependency(Get64(image, at + 8), Get64(image, at + 16), Get16(image, at + 24), Get16(image, at + 26),
               Get32(image, at + 28))
  }

  function InstrumentAt(image: seq<u8>, at: nat): Instrument
    requires at + TYPED_RECORD_SIZE <= |image|
  {
    Instrument(Get64(image, at + 16), Get64(image, at + 24), Get16(image, at + 8), Get16(image, at + 10),
               Get32(image, at + 12))
  }

  predicate IsTyped(recordType: u16) {
    recordType == RESOURCE || recordType == SERVICE || recordType == DEPENDENCY || recordType == INSTRUMENTATION
  }
}
