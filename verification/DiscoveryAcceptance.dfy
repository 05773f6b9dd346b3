/** Which images the validator accepts, byte by byte and record by record; and that a record's
    type matters to it only by being END or not. */
module DiscoveryAcceptance {
  import opened Bytes
  import opened DiscoveryFormat
  import opened DiscoveryValidate
  import opened DiscoveryDatabase
  import opened DiscoveryParser
  import Crc

  // ---- The header

  /** The total length is at least the header's, a multiple of eight and inside the buffer. */
  predicate LengthFits(image: seq<u8>) {
    |image| >= 32 && 32 <= Get32(image, 8) <= |image| && Get32(image, 8) % 8 == 0
  }

  /** The checksum over the header with both checksum fields zero; and, up to 512 bytes of
      buffer, the one over the image with its own field zero. */
  predicate ChecksumsMatch(image: seq<u8>)
    requires LengthFits(image)
  {
    && image[24..28] == Le32(Crc32(image[..24] + [0, 0, 0, 0, 0, 0, 0, 0]))
    && (|image| <= 512 ==>
          image[28..32] == Le32(Crc32(image[..28] + [0, 0, 0, 0] + image[32..Get32(image, 8)])))
  }

  /** The verdict on a header, byte by byte. */
  lemma HeaderVerdict(image: seq<u8>)
    ensures CheckHeader(image) ==
      if |image| < 32 then TooSmall
      else if image[0..4] != [0x41, 0x54, 0x44, 0x58] then BadMagic
      else if image[4..6] != [1, 0] then UnsupportedVersion
      else if !LengthFits(image) then BadLength
      else if !ChecksumsMatch(image) then BadCrc
      else Ok
  {
    if |image| >= 32 {
      MagicBytes(image);
      VersionBytes(image);
      if LengthFits(image) {
        ChecksumBytes(image);
      }
      hide Get16, Get32, CrcValid, ChecksumsMatch;
    }
  }

  lemma MagicBytes(image: seq<u8>)
    requires |image| >= 4
    ensures Get32(image, 0) == MAGIC <==> image[0..4] == [0x41, 0x54, 0x44, 0x58]
  {
    Digits(0x41, 0x54, 0x44, 0x58, MAGIC);
    FieldIff(image, 0, MAGIC);
  }

  lemma FieldIff(image: seq<u8>, at: nat, v: u32)
    requires at + 4 <= |image|
    ensures Get32(image, at) == v <==> image[at..at + 4] == Le32(v)
  {
    hide Get32, Le32;
    Le32OfGet32(image, at);
    if image[at..at + 4] == Le32(v) {
      Get32OfLe32(image, at, v);
    }
  }

  lemma VersionBytes(image: seq<u8>)
    requires |image| >= 6
    ensures Get16(image, 4) == 1 <==> image[4..6] == [1, 0]
  {
    hide Get16;
    Le16OfGet16(image, 4);
    assert Le16(1) == [1, 0];
    if image[4..6] == [1, 0] {
      Get16OfLe16(image, 4, 1);
    }
  }

  lemma ChecksumBytes(image: seq<u8>)
    requires LengthFits(image)
    ensures CrcValid(image, Get32(image, 8)) <==> ChecksumsMatch(image)
  {
    hide Get32, Le32, Crc32;
    var total := Get32(image, 8);
    assert Crc.Blanked(image[..32], 24, 32) == image[..24] + [0, 0, 0, 0, 0, 0, 0, 0];
    assert Crc.Blanked(image[..total], 28, 32) == image[..28] + [0, 0, 0, 0] + image[32..total];
    FieldIff(image, 24, HeaderCrc(image));
    FieldIff(image, 28, ImageCrc(image, total));
  }

  // ---- The records

  /** A record header inside the image, with a length of at least 8 that is a multiple of 8 and
      stays inside the image. */
  predicate RecordFits(image: seq<u8>, total: nat, at: nat)
    requires total <= |image|
  {
    at + 8 <= total && 8 <= Get32(image, at + 4) <= total - at && Get32(image, at + 4) % 8 == 0
  }

  predicate IsEnd(image: seq<u8>, at: nat) {
    at + 2 <= |image| && Get16(image, at) == 0xFFFF
  }

  /** Where the records start: the first at `start`, each next one where the one before it ends,
      and END at the last of them and nowhere else. */
  predicate Chain(image: seq<u8>, total: nat, start: nat, offsets: seq<nat>)
    requires total <= |image|
  {
    && offsets != [] && offsets[0] == start
    && (forall k | 0 <= k < |offsets| :: RecordFits(image, total, offsets[k]))
    && (forall k | 0 <= k < |offsets| :: IsEnd(image, offsets[k]) <==> k == |offsets| - 1)
    && (forall k, n | 0 <= k < |offsets| && n == k + 1 < |offsets| ::
          offsets[n] == offsets[k] + Get32(image, offsets[k] + 4))
  }

  lemma ChainStep(image: seq<u8>, total: nat, start: nat, offsets: seq<nat>)
    requires total <= |image|
    ensures Chain(image, total, start, offsets) <==>
            && offsets != [] && offsets[0] == start && RecordFits(image, total, start)
            && if IsEnd(image, start) then |offsets| == 1
               else Chain(image, total, start + Get32(image, start + 4), offsets[1..])
  {
    hide Get32, IsEnd;
    if offsets != [] && offsets[0] == start {
      var rest := offsets[1..];
      assert forall k | 1 <= k < |offsets| :: offsets[k] == rest[k - 1];
      if RecordFits(image, total, start) && !IsEnd(image, start) {
        if Chain(image, total, start + Get32(image, start + 4), rest) {
          ChainPrepends(image, total, start, rest);
          assert offsets == [start] + rest;
        }
      }
    }
  }

  lemma ChainPrepends(image: seq<u8>, total: nat, start: nat, rest: seq<nat>)
    requires total <= |image| && RecordFits(image, total, start) && !IsEnd(image, start)
    requires Chain(image, total, start + Get32(image, start + 4), rest)
    ensures Chain(image, total, start, [start] + rest)
  {
    hide Get32, IsEnd;
    var all := [start] + rest;
    assert forall k | 1 <= k < |all| :: all[k] == rest[k - 1];
  }

  lemma ScanStep(image: seq<u8>, total: nat, start: nat, offsets: seq<nat>)
    requires total <= |image| && total % 8 == 0 && start % 8 == 0
    ensures ScanFrom(image, total, start) == Ended(offsets) <==>
            && offsets != [] && offsets[0] == start && RecordFits(image, total, start)
            && if IsEnd(image, start) then |offsets| == 1
               else ScanFrom(image, total, start + Get32(image, start + 4)) == Ended(offsets[1..])
  {
    hide Get16, Get32;
    if RecordFits(image, total, start) {
      if IsEnd(image, start) {
        assert offsets != [] && offsets[0] == start && |offsets| == 1 ==> offsets == [start];
      } else {
        var scan := ScanFrom(image, total, start + Get32(image, start + 4));
        if scan.Ended? {
          assert ([start] + scan.offsets)[1..] == scan.offsets;
          if offsets != [] && offsets[0] == start && offsets[1..] == scan.offsets {
            assert offsets == [start] + scan.offsets;
          }
        }
      }
    }
  }

  /** The walk ends well exactly on a chain. */
  lemma {:induction false} ScanIff(image: seq<u8>, total: nat, start: nat, offsets: seq<nat>)
    requires total <= |image| && total % 8 == 0 && start % 8 == 0
    ensures ScanFrom(image, total, start) == Ended(offsets) <==> Chain(image, total, start, offsets)
    decreases |offsets|
  {
    ChainStep(image, total, start, offsets);
    ScanStep(image, total, start, offsets);
    hide Chain, ScanFrom, Get32, IsEnd;
    if offsets == [] {
    } else if RecordFits(image, total, start) {
      var next := start + Get32(image, start + 4);
      hide RecordFits;
      ScanIff(image, total, next, offsets[1..]);
    }
  }

  /** The validator accepts exactly the images whose header passes and whose records form a
      chain from byte 32, as many as the header counts unless its count is zero. */
  lemma ValidateIff(image: seq<u8>)
    ensures Validate(image) == Ok <==>
            && |image| >= 32 && image[0..4] == [0x41, 0x54, 0x44, 0x58] && image[4..6] == [1, 0]
            && LengthFits(image) && ChecksumsMatch(image)
            && exists offsets :: Chain(image, Get32(image, 8), 32, offsets)
                                 && (Get32(image, 12) == 0 || |offsets| == Get32(image, 12))
  {
    hide Get32, LengthFits, ChecksumsMatch, Chain, ScanFrom, CheckHeader;
    HeaderVerdict(image);
    if CheckHeader(image) == Ok {
      HeaderBounds(image);
      FailureIsAnError(image, Get32(image, 8), HEADER_SIZE);
      var scan := ScanFrom(image, Get32(image, 8), 32);
      if scan.Ended? {
        ScanIff(image, Get32(image, 8), 32, scan.offsets);
      }
      forall offsets | Chain(image, Get32(image, 8), 32, offsets)
        ensures scan == Ended(offsets)
      {
        ScanIff(image, Get32(image, 8), 32, offsets);
      }
    }
  }

  // ---- Why an image is refused

  /** Records before END, each where the one before it ends. */
  predicate Visited(image: seq<u8>, total: nat, start: nat, offsets: seq<nat>)
    requires total <= |image|
  {
    && (offsets != [] ==> offsets[0] == start)
    && (forall k | 0 <= k < |offsets| :: RecordFits(image, total, offsets[k]) && !IsEnd(image, offsets[k]))
    && (forall k, n | 0 <= k < |offsets| && n == k + 1 < |offsets| ::
          offsets[n] == offsets[k] + Get32(image, offsets[k] + 4))
  }

  /** Where the record behind the visited ones starts. */
  function Behind(image: seq<u8>, total: nat, start: nat, offsets: seq<nat>): nat
    requires total <= |image| && Visited(image, total, start, offsets)
  {
    if offsets == [] then start
    else
      var last := offsets[|offsets| - 1];
      assert RecordFits(image, total, last);
      last + Get32(image, last + 4)
  }

  lemma VisitedPrepends(image: seq<u8>, total: nat, start: nat, rest: seq<nat>)
    requires total <= |image| && RecordFits(image, total, start) && !IsEnd(image, start)
    requires Visited(image, total, start + Get32(image, start + 4), rest)
    ensures Visited(image, total, start, [start] + rest)
    ensures Behind(image, total, start, [start] + rest) == Behind(image, total, start + Get32(image, start + 4), rest)
  {
    hide Get32, IsEnd;
    var all := [start] + rest;
    assert forall k | 1 <= k < |all| :: all[k] == rest[k - 1];
  }

  /** What the record at an offset makes of the walk: there is none left, its length is no
      record length, it runs past the end, or it is END. In an image whose length is a multiple
      of eight, alignment never fails and no record header is cut off. */
  function RecordFault(image: seq<u8>, total: nat, at: nat): Result
    requires total <= |image| && total % 8 == 0 && at % 8 == 0
  {
    if at >= total then MissingEnd
    else if Get32(image, at + 4) < 8 || Get32(image, at + 4) % 8 != 0 then BadLength
    else if Get32(image, at + 4) > total - at then TruncatedRecord
    else Ok
  }

  lemma {:induction false} ScanVerdict(image: seq<u8>, total: nat, start: nat) returns (offsets: seq<nat>)
    requires total <= |image| && total % 8 == 0 && start % 8 == 0
    ensures Visited(image, total, start, offsets) && Behind(image, total, start, offsets) % 8 == 0
    ensures var at := Behind(image, total, start, offsets);
      var fault := RecordFault(image, total, at);
      && ScanFrom(image, total, start) == (if fault == Ok then Ended(offsets + [at]) else Failed(fault))
      && (fault == Ok ==> IsEnd(image, at))
    decreases total - start
  {
    hide Get16, Get32;
    offsets := [];
    if RecordFits(image, total, start) && !IsEnd(image, start) {
      var rest := ScanVerdict(image, total, start + Get32(image, start + 4));
      VisitedPrepends(image, total, start, rest);
      offsets := [start] + rest;
      hide Visited, Behind;
      assert [start] + (rest + [Behind(image, total, start, offsets)]) == offsets + [Behind(image, total, start, offsets)];
    }
  }

  /** The verdict on every image whose header passes: records are passed over up to END or to
      the first one at fault, which decides; at END the count does. */
  lemma RecordsVerdict(image: seq<u8>) returns (offsets: seq<nat>)
    requires CheckHeader(image) == Ok
    ensures LengthFits(image)
    ensures var total := Get32(image, 8);
      && Visited(image, total, 32, offsets) && Behind(image, total, 32, offsets) % 8 == 0
      && Validate(image) ==
         var fault := RecordFault(image, total, Behind(image, total, 32, offsets));
         if fault == Ok && Get32(image, 12) != 0 && Get32(image, 12) != |offsets| + 1 then BadLength else fault
  {
    hide Get32, ScanFrom, CheckHeader, Visited, Behind, RecordFault;
    HeaderVerdict(image);
    offsets := ScanVerdict(image, Get32(image, 8), 32);
  }

  /** The iterator, on any image: it goes on exactly to an aligned place inside the image that a
      record of at least eight bytes leads to. */
  lemma NextRecordIff(image: seq<u8>, at: nat, next: nat)
    requires at + 8 <= |image|
    ensures NextRecord(image, at) == At(next) <==>
            next < |image| && next % 8 == 0 && next >= at + 8 && Get32(image, at + 4) == next - at
    ensures FirstRecord(|image|) == At(next) <==> |image| >= 32 && next == 32
  {
    hide Get32;
  }

  // ---- Types

  /** All the walk looks at in a record: its length, and whether it is END. */
  predicate SameShape(a: seq<u8>, b: seq<u8>, total: nat) {
    && total <= |a| && total <= |b|
    && forall at | 32 <= at && at % 8 == 0 && at + 8 <= total ::
         Get32(a, at + 4) == Get32(b, at + 4) && (IsEnd(a, at) <==> IsEnd(b, at))
  }

  lemma {:induction false} ScanSeesShapeOnly(a: seq<u8>, b: seq<u8>, total: nat, start: nat)
    requires SameShape(a, b, total) && total % 8 == 0 && start % 8 == 0 && start >= 32
    ensures ScanFrom(a, total, start) == ScanFrom(b, total, start)
    decreases total - start
  {
    hide Get16, Get32;
    if start + 8 <= total {
      assert Get32(a, start + 4) == Get32(b, start + 4) && (IsEnd(a, start) <==> IsEnd(b, start));
      if RecordFits(a, total, start) && !IsEnd(a, start) {
        ScanSeesShapeOnly(a, b, total, start + Get32(a, start + 4));
      }
    }
  }

  /** Two images whose headers pass and agree in length and count get the same verdict if their
      records agree in length and in being END: no other type, known or not, makes a
      difference. */
  lemma TypesDoNotMatter(a: seq<u8>, b: seq<u8>)
    requires CheckHeader(a) == Ok && CheckHeader(b) == Ok && |a| >= 32 && |b| >= 32
    requires Get32(a, 8) == Get32(b, 8) && Get32(a, 12) == Get32(b, 12)
    requires SameShape(a, b, Get32(a, 8))
    ensures Validate(a) == Validate(b)
  {
    HeaderBounds(a);
    HeaderBounds(b);
    hide Get32, CheckHeader, ScanFrom, SameShape;
    ScanSeesShapeOnly(a, b, Get32(a, 8), HEADER_SIZE);
  }

  // ---- What the parser skips

  /** The records of the four kinds that have a table. */
  function TypedAmong(image: seq<u8>, offsets: seq<nat>): seq<nat>
    requires forall k | 0 <= k < |offsets| :: offsets[k] + 8 <= |image|
    decreases |offsets|
  {
    if offsets == [] then []
    else (if Get16(image, offsets[0]) in {1, 2, 4, 5} then [offsets[0]] else []) + TypedAmong(image, offsets[1..])
  }

  lemma {:induction false} OthersAreSkipped(t: Tables, image: seq<u8>, offsets: seq<nat>)
    requires forall k | 0 <= k < |offsets| :: offsets[k] + 8 <= |image|
    ensures Fold(t, image, offsets) == Fold(t, image, TypedAmong(image, offsets))
    decreases |offsets|
  {
    if offsets == [] {
    } else {
      StepSkips(t, image, offsets[0]);
      hide StepAt, Get16;
      var rest := TypedAmong(image, offsets[1..]);
      assert ([offsets[0]] + rest)[1..] == rest && [] + rest == rest;
      OthersAreSkipped(StepAt(t, image, offsets[0]).tables, image, offsets[1..]);
    }
  }

  /** A parse is the same as if all other records were not there. */
  lemma ParseSkipsOthers(t: Tables, image: seq<u8>)
    requires Validate(image) == Ok
    ensures forall k | 0 <= k < |RecordOffsets(image)| :: RecordOffsets(image)[k] + 8 <= |image|
    ensures Parse(t, image) == Fold(t, image, TypedAmong(image, RecordOffsets(image)))
  {
    hide Validate, RecordOffsets, Fold, TypedAmong, Get16, NextRecord;
    var linked := IteratorFollowsValidator(image);
    forall k | 0 <= k < |RecordOffsets(image)|
      ensures RecordOffsets(image)[k] + 8 <= |image|
    {
      assert RecordOffsets(image)[k] == linked[k];
    }
    OthersAreSkipped(t, image, RecordOffsets(image));
  }

  lemma StepSkips(t: Tables, image: seq<u8>, at: nat)
    requires at + 8 <= |image|
    ensures Get16(image, at) !in {1, 2, 4, 5} ==> StepAt(t, image, at) == Done(t, Ok)
  {
    hide Get16;
  }
}
