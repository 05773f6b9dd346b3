/** What the two checksums of a discovery image detect, and where their cover ends. */
module DiscoveryIntegrity {
  import opened Bytes
  import opened Crc
  import opened DiscoveryFormat
  import opened DiscoveryValidate

  /** The checks before the checksums. */
  predicate LeadingChecksPass(image: seq<u8>) {
    && |image| >= HEADER_SIZE && Get32(image, 0) == MAGIC && Get16(image, 4) == 1
    && HEADER_SIZE <= Get32(image, 8) <= |image| && Get32(image, 8) % 8 == 0
  }

  lemma ValidatedHeader(image: seq<u8>)
    requires Validate(image) == Ok
    ensures LeadingChecksPass(image) && CrcValid(image, Get32(image, 8))
  {
    hide Get16, Get32, CrcValid;
    if CheckHeader(image) == Ok {
      DiscoveryBounds(image);
    }
  }

  lemma DiscoveryBounds(image: seq<u8>)
    requires CheckHeader(image) == Ok
    ensures HEADER_SIZE <= |image|
  {
    hide CrcValid, Get16, Get32;
  }

  /** A wrong checksum is always fatal, and is reported as such once the earlier checks pass. */
  lemma BadChecksumIsRejected(image: seq<u8>)
    requires LeadingChecksPass(image) ==> !CrcValid(image, Get32(image, 8))
    ensures Validate(image) != Ok
    ensures LeadingChecksPass(image) ==> Validate(image) == BadCrc
  {
    hide Get16, Get32, CrcValid;
  }

  lemma BurstChangesCrc32(a: seq<u8>, b: seq<u8>, p: nat)
    requires BurstApart(a, b, p)
    ensures Crc32(a) != Crc32(b)
  {
    BurstChangesChecksum(a, b, p, CRC32);
  }

  /** A burst in the first 24 bytes never passes, whatever the size of the image and whatever
      else changed after the header checksum. */
  lemma HeaderBurstIsRejected(image: seq<u8>, t: seq<u8>, p: nat)
    requires Validate(image) == Ok && |t| >= HEADER_SIZE && |image| >= HEADER_SIZE
    requires t[24..28] == image[24..28] && BurstApart(image[..24], t[..24], p)
    ensures Validate(t) != Ok
  {
    hide Get16, Get32, Blanked, Crc32, Validate;
    ValidatedHeader(image);
    FrontAndZeros(image[..HEADER_SIZE]);
    FrontAndZeros(t[..HEADER_SIZE]);
    assert image[..HEADER_SIZE][..24] == image[..24] && t[..HEADER_SIZE][..24] == t[..24];
    BurstBefore(image[..24], t[..24], Zeros(8), p);
    BurstChangesCrc32(Blanked(image[..HEADER_SIZE], 24, 32), Blanked(t[..HEADER_SIZE], 24, 32), p);
    Get32Local(t, image, 24);
    BadChecksumIsRejected(t);
  }

  lemma FrontAndZeros(s: seq<u8>)
    requires |s| == HEADER_SIZE
    ensures Blanked(s, 24, 32) == s[..24] + Zeros(8)
  {
  }

  lemma BurstBefore(a: seq<u8>, b: seq<u8>, same: seq<u8>, p: nat)
    requires BurstApart(a, b, p)
    ensures BurstApart(a + same, b + same, p)
  {
    BitsOfAppend(a, same);
    BitsOfAppend(b, same);
    var x, y, z := BitsOf(a), BitsOf(b), BitsOf(same);
    if x + z == y + z {
      CancelRight(x, y, z);
    }
  }

  lemma CancelRight<T>(x: seq<T>, y: seq<T>, z: seq<T>)
    requires |x| == |y| && x + z == y + z
    ensures x == y
  {
    assert x == (x + z)[..|x|] && y == (y + z)[..|y|];
  }

  lemma SameBlanked(a: seq<u8>, b: seq<u8>)
    requires |a| == |b| == HEADER_SIZE && a[..24] == b[..24]
    ensures Blanked(a, 24, 32) == Blanked(b, 24, 32)
  {
    forall i | 0 <= i < HEADER_SIZE
      ensures Blanked(a, 24, 32)[i] == Blanked(b, 24, 32)[i]
    {
      if i < 24 {
        assert a[i] == a[..24][i] && b[i] == b[..24][i];
      }
    }
  }

  /** The earlier checks look at the first twelve bytes and the size. */
  lemma LeadingChecksAreLocal(s: seq<u8>, t: seq<u8>)
    requires |s| == |t| && |s| >= HEADER_SIZE && s[..12] == t[..12]
    ensures LeadingChecksPass(s) <==> LeadingChecksPass(t)
    ensures Get32(s, 8) == Get32(t, 8)
  {
    hide Get16, Get32;
    assert s[0..4] == s[..12][0..4] && t[0..4] == t[..12][0..4];
    assert s[4..6] == s[..12][4..6] && t[4..6] == t[..12][4..6];
    assert s[8..12] == s[..12][8..12] && t[8..12] == t[..12][8..12];
    Get32Local(s, t, 0);
    Get16Local(s, t, 4);
    Get32Local(s, t, 8);
  }

  /** The header checksum as documented: only its own field zero. */
  function DocumentedHeaderCrc(image: seq<u8>): u32
    requires |image| >= HEADER_SIZE
  {
    Crc32(Blanked(image[..HEADER_SIZE], 24, 28))
  }

  /** The code zeroes both checksum fields. The two agree exactly on images whose image
      checksum is zero anyway. */
  lemma DocumentedHeaderCrcIff(image: seq<u8>)
    requires |image| >= HEADER_SIZE
    ensures DocumentedHeaderCrc(image) == HeaderCrc(image) <==> image[28..32] == Zeros(4)
  {
    hide Crc32;
    var a, b := Blanked(image[..HEADER_SIZE], 24, 28), Blanked(image[..HEADER_SIZE], 24, 32);
    assert a[28..32] == image[28..32] && b[28..32] == Zeros(4);
    if image[28..32] == Zeros(4) {
      forall i | 0 <= i < HEADER_SIZE
        ensures a[i] == b[i]
      {
        if 28 <= i {
          assert a[i] == a[28..32][i - 28] && b[i] == b[28..32][i - 28];
        }
      }
      assert a == b;
    } else {
      FourBytesAreABurst(a, b, 28);
      BurstChangesCrc32(a, b, 8 * 28);
    }
  }

  /** Any change of the header checksum is a checksum error. */
  lemma HeaderChecksumIsProtected(image: seq<u8>, t: seq<u8>)
    requires Validate(image) == Ok && |t| == |image|
    requires t[..24] == image[..24] && t[24..28] != image[24..28]
    ensures Validate(t) == BadCrc
  {
    hide Get16, Get32, Blanked, Crc32, Validate, LeadingChecksPass;
    ValidatedHeader(image);
    LongEnough(image);
    assert t[..12] == t[..24][..12] == image[..12];
    LeadingChecksAreLocal(image, t);
    assert t[..HEADER_SIZE][..24] == t[..24] && image[..HEADER_SIZE][..24] == image[..24];
    SameBlanked(t[..HEADER_SIZE], image[..HEADER_SIZE]);
    FieldsDiffer(t, image, 24);
    LeadingBounds(t);
    BadChecksumIsRejected(t);
  }

  lemma LongEnough(image: seq<u8>)
    requires LeadingChecksPass(image)
    ensures |image| >= HEADER_SIZE
  {
  }

  lemma LeadingBounds(image: seq<u8>)
    requires LeadingChecksPass(image)
    ensures HEADER_SIZE <= Get32(image, 8) <= |image|
  {
    hide Get16, Get32;
  }

  /** Validation past the header looks only at the records, the length and the record count. */
  lemma {:induction false} ScanIsLocal(s: seq<u8>, t: seq<u8>, total: nat, offset: nat)
    requires total <= |s| == |t| && HEADER_SIZE <= |s| && HEADER_SIZE <= offset && s[HEADER_SIZE..] == t[HEADER_SIZE..]
    ensures ScanFrom(s, total, offset) == ScanFrom(t, total, offset)
    decreases total - offset
  {
    hide Get16, Get32;
    if offset < total && offset % 8 == 0 && total - offset >= RECORD_HEADER_SIZE {
      assert s[offset..offset + 2] == s[HEADER_SIZE..][offset - HEADER_SIZE..offset + 2 - HEADER_SIZE];
      assert t[offset..offset + 2] == t[HEADER_SIZE..][offset - HEADER_SIZE..offset + 2 - HEADER_SIZE];
      assert s[offset + 4..offset + 8] == s[HEADER_SIZE..][offset + 4 - HEADER_SIZE..offset + 8 - HEADER_SIZE];
      assert t[offset + 4..offset + 8] == t[HEADER_SIZE..][offset + 4 - HEADER_SIZE..offset + 8 - HEADER_SIZE];
      Get16Local(s, t, offset);
      Get32Local(s, t, offset + 4);
      var length := Get32(s, offset + 4);
      if RECORD_HEADER_SIZE <= length <= total - offset {
        ScanIsLocal(s, t, total, offset + length);
      }
    }
  }

  /** A change of the image checksum alone is noticed exactly when the image is small enough to
      be checked at all. */
  lemma ImageChecksumIsProtectedIff(image: seq<u8>, t: seq<u8>)
    requires Validate(image) == Ok && |t| == |image|
    requires t[..28] == image[..28] && t[32..] == image[32..] && t[28..32] != image[28..32]
    ensures |image| <= STACK_COPY_SIZE ==> Validate(t) == BadCrc
    ensures |image| > STACK_COPY_SIZE ==> Validate(t) == Ok
  {
    hide Get16, Get32, Blanked, Crc32, LeadingChecksPass, ScanFrom;
    ValidatedHeader(image);
    LongEnough(image);
    assert t[..12] == t[..28][..12] == image[..12];
    LeadingChecksAreLocal(image, t);
    LeadingBounds(t);
    var total := Get32(image, 8);
    ImageFieldOnly(image, t, total);
    if |image| <= STACK_COPY_SIZE {
      FieldsDiffer(t, image, 28);
      BadChecksumIsRejected(t);
    } else {
      ScanIsLocal(image, t, total, HEADER_SIZE);
      assert t[12..16] == t[..28][12..16] == image[12..16];
      Get32Local(t, image, 12);
      PassedHeader(image);
      PassedHeader(t);
    }
  }

  /** When the leading checks and the checksums pass, so does the header. */
  lemma PassedHeader(image: seq<u8>)
    requires LeadingChecksPass(image) && CrcValid(image, Get32(image, 8))
    ensures CheckHeader(image) == Ok
  {
    hide Get16, Get32, CrcValid;
  }

  lemma ImageFieldOnly(s: seq<u8>, t: seq<u8>, total: nat)
    requires |s| == |t| && HEADER_SIZE <= total <= |s| && t[..28] == s[..28] && t[32..] == s[32..]
    ensures Blanked(t[..total], 28, 32) == Blanked(s[..total], 28, 32)
    ensures Blanked(t[..HEADER_SIZE], 24, 32) == Blanked(s[..HEADER_SIZE], 24, 32)
    ensures Get32(t, 24) == Get32(s, 24)
  {
    assert forall i | 0 <= i < 28 :: t[i] == t[..28][i] == s[..28][i] == s[i];
    assert forall i | 32 <= i < |t| :: t[i] == t[32..][i - 32] == s[32..][i - 32] == s[i];
    assert t[24..28] == s[24..28];
    Get32Local(t, s, 24);
  }

  /** In an image of at most 512 bytes, any burst in the records is a checksum error. */
  lemma RecordBurstIsBadCrc(image: seq<u8>, t: seq<u8>, p: nat)
    requires Validate(image) == Ok && |t| == |image| <= STACK_COPY_SIZE && t[..HEADER_SIZE] == image[..HEADER_SIZE]
    requires Get32(image, 8) <= |image| ==> BurstApart(image[..Get32(image, 8)], t[..Get32(image, 8)], p)
    ensures Validate(t) == BadCrc
  {
    hide Get16, Get32, Blanked, Crc32, Validate, LeadingChecksPass;
    ValidatedHeader(image);
    LongEnough(image);
    LeadingBounds(image);
    assert t[..12] == t[..HEADER_SIZE][..12] && image[..12] == image[..HEADER_SIZE][..12];
    LeadingChecksAreLocal(image, t);
    var total := Get32(image, 8);
    var a, b := image[..total], t[..total];
    assert a[28..32] == image[..HEADER_SIZE][28..32] && b[28..32] == t[..HEADER_SIZE][28..32];
    BlankingKeepsBurst(a, b, p, 28, 32);
    BurstChangesCrc32(Blanked(a, 28, 32), Blanked(b, 28, 32), p);
    assert t[28..32] == b[28..32] && image[28..32] == a[28..32];
    Get32Local(t, image, 28);
    LeadingBounds(t);
    BadChecksumIsRejected(t);
  }

  /** In a larger image the records are not covered: validation then is the record walk. */
  lemma LargeRecordsAreOnlyWalked(image: seq<u8>, t: seq<u8>)
    requires Validate(image) == Ok && |t| == |image| > STACK_COPY_SIZE && t[..HEADER_SIZE] == image[..HEADER_SIZE]
    ensures LeadingChecksPass(t)
    ensures Validate(t) == Ok <==>
            var scan := ScanFrom(t, Get32(t, 8), HEADER_SIZE);
            scan.Ended? && (Get32(t, 12) == 0 || |scan.offsets| == Get32(t, 12))
  {
    hide Get16, Get32, Blanked, Crc32, LeadingChecksPass, ScanFrom;
    ValidatedHeader(image);
    LongEnough(image);
    LeadingBounds(image);
    assert t[..12] == t[..HEADER_SIZE][..12] && image[..12] == image[..HEADER_SIZE][..12];
    LeadingChecksAreLocal(image, t);
    FailureIsAnError(t, Get32(t, 8), HEADER_SIZE);
    assert t[24..28] == t[..HEADER_SIZE][24..28] && image[24..28] == image[..HEADER_SIZE][24..28];
    Get32Local(t, image, 24);
    PassedHeader(t);
  }
}
