/** Validation of a discovery image (src/discovery/discovery_validate.c) and the record
    iterator (src/discovery/discovery_iterator.c). */
module DiscoveryValidate {
  import opened Bytes
  import opened DiscoveryFormat
  import Crc

  const STACK_COPY_SIZE: nat := 512

  /** The header checksum, with both checksum fields zero. */
  function HeaderCrc(image: seq<u8>): u32
    requires |image| >= HEADER_SIZE
  {
    Crc32(Crc.Blanked(image[..HEADER_SIZE], 24, 32))
  }

  /** The image checksum, with its own field zero. */
  function ImageCrc(image: seq<u8>, total: nat): u32
    requires HEADER_SIZE <= total <= |image|
  {
    Crc32(Crc.Blanked(image[..total], 28, 32))
  }

  /** Images larger than the stack copy have only their header checked. */
  predicate CrcValid(image: seq<u8>, total: nat)
    requires HEADER_SIZE <= total <= |image|
  {
    && Get32(image, 24) == HeaderCrc(image)
    && (|image| > STACK_COPY_SIZE || Get32(image, 28) == ImageCrc(image, total))
  }

  function CheckHeader(image: seq<u8>): Result {
    if |image| < HEADER_SIZE then TooSmall
    else if Get32(image, 0) != MAGIC then BadMagic
    else if Get16(image, 4) != 1 then UnsupportedVersion
    else
      var total := Get32(image, 8);
      if total < HEADER_SIZE || total > |image| || total % 8 != 0 then BadLength
      else if !CrcValid(image, total) then BadCrc
      else Ok
  }

  /** The record walk: the offsets visited up to and including END, or why it failed. */
  datatype Scan = Ended(offsets: seq<nat>) | Failed(error: Result)

  function ScanFrom(image: seq<u8>, total: nat, offset: nat): Scan
    requires total <= |image|
    decreases total - offset
  {
    if offset >= total then Failed(MissingEnd)
    else if offset % 8 != 0 then Failed(BadAlignment)
    else if total - offset < RECORD_HEADER_SIZE then Failed(TruncatedRecord)
    else
      var length := Get32(image, offset + 4);
      if length < RECORD_HEADER_SIZE || length % 8 != 0 then Failed(BadLength)
      else if length > total - offset then Failed(TruncatedRecord)
      else if Get16(image, offset) == END then Ended([offset])
      else
        match ScanFrom(image, total, offset + length)
        case Failed(error) => Failed(error)
        case Ended(rest) => Ended([offset] + rest)
  }

  lemma {:induction false} FailureIsAnError(image: seq<u8>, total: nat, offset: nat)
    requires total <= |image|
    ensures ScanFrom(image, total, offset) != Failed(Ok)
    decreases total - offset
  {
    hide Get16, Get32;
    if offset < total && offset % 8 == 0 && total - offset >= RECORD_HEADER_SIZE {
      var length := Get32(image, offset + 4);
      if RECORD_HEADER_SIZE <= length <= total - offset {
        FailureIsAnError(image, total, offset + length);
      }
    }
  }

  function ScanImage(image: seq<u8>): Scan {
    var error := CheckHeader(image);
    if error != Ok then Failed(error) else ScanFrom(image, Get32(image, 8), HEADER_SIZE)
  }

  function Validate(image: seq<u8>): Result {
    match ScanImage(image)
    case Failed(reason) => reason
    case Ended(offsets) =>
      if |image| >= HEADER_SIZE && Get32(image, 12) != 0 && |offsets| != Get32(image, 12) then BadLength else Ok
  }

  /** The offsets of the records before END. */
  function RecordOffsets(image: seq<u8>): seq<nat> {
    match ScanImage(image)
    case Failed(_) => []
    case Ended(offsets) => if offsets == [] then [] else offsets[..|offsets| - 1]
  }

  // ---- The iterator

  datatype Position = At(offset: nat) | Finished

  function FirstRecord(imageSize: nat): Position {
    if imageSize < HEADER_SIZE then Finished else At(HEADER_SIZE)
  }

  function NextRecord(image: seq<u8>, offset: nat): Position
    requires offset + RECORD_HEADER_SIZE <= |image|
  {
    var length := Get32(image, offset + 4);
    if length < RECORD_HEADER_SIZE then Finished
    else if offset + length >= |image| then Finished
    else if (offset + length) % 8 != 0 then Finished
    else At(offset + length)
  }

  // ---- The procedures

  /** Both checksums, computed on patched copies so that the image stays untouched. */
  method CheckCrc(image: array<u8>) returns (valid: bool)
    requires image.Length >= HEADER_SIZE && HEADER_SIZE <= Get32(image[..], 8) <= image.Length
    ensures valid == CrcValid(image[..], Get32(image[..], 8))
  {
    hide Get32, Crc32, Crc.Blanked;
    var expectedHeader := ReadLe32(image, 24);
    var expectedImage := ReadLe32(image, 28);
    var headerCopy := new u8[32];
    CopyIn(headerCopy, 0, image[..HEADER_SIZE]);
    ghost var header := headerCopy[..];
    assert header == image[..HEADER_SIZE];
    FillZero(headerCopy, 24, 8);
    assert headerCopy[..32] == Crc.Blanked(image[..HEADER_SIZE], 24, 32);
    var actualHeader := ComputeCrc32(headerCopy, 32);
    if actualHeader != expectedHeader {
      return false;
    }
    if image.Length > STACK_COPY_SIZE {
      return true;
    }
    var total := ReadLe32(image, 8);
    var imageCopy := new u8[512];
    CopyIn(imageCopy, 0, image[..]);
    FillZero(imageCopy, 28, 4);
    assert imageCopy[..total] == Crc.Blanked(image[..total], 28, 32);
    var actualImage := ComputeCrc32(imageCopy, total);
    valid := actualImage == expectedImage;
  }

  method ValidateImage(image: array<u8>) returns (result: Result)
    ensures result == Validate(image[..])
  {
    hide Get16, Get32, CrcValid;
    if image.Length < HEADER_SIZE {
      return TooSmall;
    }
    var magic := ReadLe32(image, 0);
    if magic != MAGIC {
      return BadMagic;
    }
    var major := ReadLe16(image, 4);
    if major != 1 {
      return UnsupportedVersion;
    }
    var total := ReadLe32(image, 8);
    if total < HEADER_SIZE || total > image.Length || total % 8 != 0 {
      return BadLength;
    }
    var crcValid := CheckCrc(image);
    if !crcValid {
      return BadCrc;
    }
    result := WalkRecords(image, total);
  }

  /** The record loop and the checks after it. */
  method WalkRecords(image: array<u8>, total: u32) returns (result: Result)
    requires HEADER_SIZE <= total <= image.Length
    ensures result == match ScanFrom(image[..], total, HEADER_SIZE)
                      case Failed(reason) => reason
                      case Ended(offsets) =>
                        if Get32(image[..], 12) != 0 && |offsets| != Get32(image[..], 12) then BadLength else Ok
  {
    hide Get16, Get32;
    ghost var all := ScanFrom(image[..], total, HEADER_SIZE);
    var offset: nat := HEADER_SIZE;
    var recordsSeen: nat := 0;
    var sawEnd := false;
    while offset < total
      invariant offset <= total && !sawEnd
      invariant var rest := ScanFrom(image[..], total, offset);
        if all.Failed? then rest == all else rest.Ended? && |all.offsets| == recordsSeen + |rest.offsets|
      decreases total - offset
    {
      if offset % 8 != 0 {
        return BadAlignment;
      }
      if total - offset < RECORD_HEADER_SIZE {
        return TruncatedRecord;
      }
      var length := ReadLe32(image, offset + 4);
      if length < RECORD_HEADER_SIZE || length % 8 != 0 {
        return BadLength;
      }
      if length > total - offset {
        return TruncatedRecord;
      }
      recordsSeen := recordsSeen + 1;
      var recordType := ReadLe16(image, offset);
      if recordType == END {
        sawEnd := true;
        break;
      }
      offset := offset + length;
    }
    if !sawEnd {
      return MissingEnd;
    }
    var recordCount := ReadLe32(image, 12);
    if recordCount != 0 && recordsSeen != recordCount {
      return BadLength;
    }
    result := Ok;
  }
}
