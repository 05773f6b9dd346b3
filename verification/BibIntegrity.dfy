/** What the checksum of a Boot Information Block detects. */
module BibIntegrity {
  import opened Bytes
  import opened Gf2Polynomial
  import opened ShiftRegister
  import opened Words
  import opened Crc
  import opened BibFormat
  import opened BibReader

  /** The checks on the first sixteen bytes. */
  predicate LeadingChecksPass(window: seq<u8>) {
    |window| >= HEADER_SIZE && window[0..8] == MAGIC && Get16(window, 8) == 1 && Get16(window, 12) == HEADER_SIZE
  }

  /** What is known of the block in a window that opened. */
  lemma OpenedChecksum(window: seq<u8>)
    requires OpenResult(window) == Ok
    ensures LeadingChecksPass(window)
    ensures CheckHeader(window) == Ok
    ensures Get32(BlockOf(window), 20) == Crc32c(Blanked(BlockOf(window), 20, 24))
    ensures Get32(BlockOf(window), 16) == |BlockOf(window)|
  {
    hide Get16, Get32, Get64, Crc32c, Blanked, Walk;
    HeaderFieldsOfPrefix(window, |BlockOf(window)|);
  }

  /** A window with the same length field is judged on its own checksum. */
  lemma ChecksumDecides(window: seq<u8>, t: seq<u8>)
    requires OpenResult(window) == Ok && |t| >= |BlockOf(window)|
    requires t[16..20] == BlockOf(window)[16..20]
    requires Get32(t, 20) != Crc32c(Blanked(t[..|BlockOf(window)|], 20, 24))
    ensures OpenResult(t) != Ok
    ensures OpenResult(t) == CrcError <==> LeadingChecksPass(t)
  {
    hide Get16, Get64, Crc32c, Blanked, Walk;
    var block := BlockOf(window);
    OpenedChecksum(window);
    Get32Local(t, block, 16);
    hide Get32;
    assert |block| % 8 == 0 && |block| <= MAX_SIZE;
  }

  /** Corruption of the checksummed bytes: any burst of up to 32 bits that leaves the length
      and checksum fields alone is rejected, and rejected as a checksum error unless it already
      spoiled the magic, the major version or the header length. */
  lemma BurstIsRejected(window: seq<u8>, t: seq<u8>, p: nat)
    requires OpenResult(window) == Ok && |t| >= |BlockOf(window)|
    requires t[16..24] == BlockOf(window)[16..24]
    requires BurstApart(BlockOf(window), t[..|BlockOf(window)|], p)
    ensures OpenResult(t) != Ok
    ensures OpenResult(t) == CrcError <==> LeadingChecksPass(t)
  {
    hide Get16, Get32, Get64, Blanked, Walk, OpenResult, BlockOf, LeadingChecksPass, Crc32c, CheckHeader;
    OpenedChecksum(window);
    var block := BlockOf(window);
    var s := t[..|block|];
    assert t[16..20] == t[16..24][..4] == block[16..20] && t[20..24] == t[16..24][4..] == block[20..24];
    assert s[20..24] == t[20..24];
    Get32Local(t, block, 20);
    BlankingKeepsBurst(block, s, p, 20, 24);
    BurstChangesCrc32c(Blanked(block, 20, 24), Blanked(s, 20, 24), p);
    ChecksumDecides(window, t);
  }

  lemma BurstChangesCrc32c(a: seq<u8>, b: seq<u8>, p: nat)
    requires BurstApart(a, b, p)
    ensures Crc32c(a) != Crc32c(b)
  {
    BurstChangesChecksum(a, b, p, CRC32C);
  }

  /** The leading checks look at the first fourteen bytes. */
  lemma LeadingChecksAreLocal(s: seq<u8>, t: seq<u8>)
    requires |s| >= HEADER_SIZE && |t| >= HEADER_SIZE && s[..14] == t[..14]
    ensures LeadingChecksPass(s) <==> LeadingChecksPass(t)
  {
    hide Get16;
    assert s[0..8] == s[..14][0..8] && t[0..8] == t[..14][0..8];
    assert s[8..10] == s[..14][8..10] && t[8..10] == t[..14][8..10];
    assert s[12..14] == s[..14][12..14] && t[12..14] == t[..14][12..14];
    Get16Local(s, t, 8);
    Get16Local(s, t, 12);
  }

  /** In particular, any change within four consecutive bytes after the checksum field is
      exactly a checksum error. */
  lemma FourBytesAreCrcError(window: seq<u8>, t: seq<u8>, k: nat)
    requires OpenResult(window) == Ok && |t| == |window| && t[..|BlockOf(window)|] != BlockOf(window)
    requires 24 <= k && forall i | 0 <= i < |BlockOf(window)| && !(k <= i < k + 4) :: t[i] == window[i]
    ensures OpenResult(t) == CrcError
  {
    hide Get16, Get32, Get64, Blanked, Walk, OpenResult, BlockOf, LeadingChecksPass, Crc32c, CheckHeader;
    OpenedChecksum(window);
    var block := BlockOf(window);
    BlockIsPrefix(window);
    FourBytesAreABurst(block, t[..|block|], k);
    assert t[..14] == window[..14];
    LeadingChecksAreLocal(t, window);
    assert t[16..24] == block[16..24];
    BurstIsRejected(window, t, 8 * k);
  }

  /** A change within four consecutive bytes anywhere else outside the length and checksum
      fields is rejected too, possibly by an earlier check. */
  lemma FourBytesAreRejected(window: seq<u8>, t: seq<u8>, k: nat)
    requires OpenResult(window) == Ok && |t| == |window| && t[..|BlockOf(window)|] != BlockOf(window)
    requires t[16..24] == window[16..24]
    requires forall i | 0 <= i < |BlockOf(window)| && !(k <= i < k + 4) :: t[i] == window[i]
    ensures OpenResult(t) != Ok
  {
    hide Get16, Get32, Get64, Blanked, Walk, OpenResult, BlockOf, LeadingChecksPass, Crc32c, CheckHeader;
    OpenedChecksum(window);
    var block := BlockOf(window);
    BlockIsPrefix(window);
    FourBytesAreABurst(block, t[..|block|], k);
    assert window[16..24] == block[16..24];
    BurstIsRejected(window, t, 8 * k);
  }

  lemma BlockIsPrefix(window: seq<u8>)
    requires CheckHeader(window) == Ok
    ensures BlockOf(window) == window[..|BlockOf(window)|]
  {
  }

  /** Any change of the checksum field alone is a checksum error. */
  lemma ChecksumFieldIsProtected(window: seq<u8>, t: seq<u8>)
    requires OpenResult(window) == Ok && |t| >= |BlockOf(window)|
    requires t[..20] == window[..20] && t[24..|BlockOf(window)|] == window[24..|BlockOf(window)|]
    requires t[20..24] != window[20..24]
    ensures OpenResult(t) == CrcError
  {
    hide Get16, Get32, Get64, Blanked, Walk, OpenResult, BlockOf, LeadingChecksPass, Crc32c, CheckHeader;
    OpenedChecksum(window);
    var block := BlockOf(window);
    BlockIsPrefix(window);
    SameOutsideField(window, t, |block|);
    FieldsDiffer(t, block, 20);
    assert t[..14] == t[..20][..14] == window[..14];
    LeadingChecksAreLocal(t, window);
    assert t[16..20] == t[..20][16..20] == window[16..20] == block[16..20];
    ChecksumDecides(window, t);
  }

  lemma SameOutsideField(w: seq<u8>, t: seq<u8>, n: nat)
    requires 24 <= n <= |w| && n <= |t| && t[..20] == w[..20] && t[24..n] == w[24..n]
    ensures Blanked(t[..n], 20, 24) == Blanked(w[..n], 20, 24)
  {
    forall i | 0 <= i < n
      ensures Blanked(t[..n], 20, 24)[i] == Blanked(w[..n], 20, 24)[i]
    {
      if i < 20 {
        assert t[i] == t[..20][i] && w[i] == w[..20][i];
      } else if i >= 24 {
        assert t[i] == t[24..n][i - 24] && w[i] == w[24..n][i - 24];
      }
    }
  }

  // ---- Parity

  /** A number's little-endian bytes carry its bits. */
  lemma BitsOfLe32(v: u32)
    ensures BitsOf(Le32(v)) == Register(v)
  {
    forall i | 0 <= i < 32
      ensures BitsOf(Le32(v))[i] == Register(v)[i]
    {
      LaneOfLe32(v, i % 8);
      assert i == 8 * (i / 8) + i % 8;
    }
  }

  lemma LaneOfLe32(v: u32, k: nat)
    requires k < 8
    ensures var s, r := BitsOf(Le32(v)), Register(v);
      s[k] == r[k] && s[8 + k] == r[8 + k] && s[16 + k] == r[16 + k] && s[24 + k] == r[24 + k]
  {
    hide Digit, BitsOf, Register;
    var s := Le32(v);
    BitOfByte(s, 0, k);
    BitOfByte(s, 1, k);
    BitOfByte(s, 2, k);
    BitOfByte(s, 3, k);
    RegisterByBytes(v, k);
    LowDigits(s[0], v / 0x100, k);
    LowDigits(s[1], v / 0x1_0000, k);
    LowDigits(s[2], v / 0x100_0000, k);
    assert v / 0x100 == s[1] as int + 0x100 * (v / 0x1_0000);
    assert v / 0x1_0000 == s[2] as int + 0x100 * (v / 0x100_0000);
  }

  lemma LowDigits(low: u8, high: nat, i: nat)
    requires i < 8
    ensures Digit(low + 0x100 * high, i) == Digit(low, i)
  {
    assert Pow2(8) == 0x100;
    DigitBelow(low, high, 8, i);
  }

  lemma {:induction false} BitsOfZeros(n: nat)
    ensures !Odd(BitsOf(Zeros(n)))
  {
    if n == 0 {
    } else {
      assert Zeros(n)[1..] == Zeros(n - 1);
      BitsOfZeros(n - 1);
      forall i | 0 <= i < 8
        ensures !Bits(0, 8)[i]
      {
        ZeroHasNoDigits(i);
      }
      EvenWhenClear(Bits(0, 8));
      OddOfAppend(Bits(0, 8), BitsOf(Zeros(n - 1)));
    }
  }

  lemma {:induction false} EvenWhenClear(bits: seq<bool>)
    requires forall i | 0 <= i < |bits| :: !bits[i]
    ensures !Odd(bits)
    decreases |bits|
  {
    if bits == [] {
    } else {
      EvenWhenClear(bits[1..]);
    }
  }

  /** The parity of a block that carries its own checksum at 20. */
  lemma BlockParity(block: seq<u8>)
    requires |block| >= 24
    ensures Odd(BitsOf(block)) == (Odd(BitsOf(Blanked(block, 20, 24))) != Odd(Register(Get32(block, 20))))
  {
    hide BitsOf, Odd, Register, Get32;
    var front, field, back := block[..20], block[20..24], block[24..];
    var blank := Blanked(block, 20, 24);
    assert block == front + (field + back) && blank == front + (Zeros(4) + back);
    OddOfThree(front, field, back);
    OddOfThree(front, Zeros(4), back);
    BitsOfZeros(4);
    Le32OfGet32(block, 20);
    BitsOfLe32(Get32(block, 20));
  }

  lemma OddOfThree(a: seq<u8>, b: seq<u8>, c: seq<u8>)
    ensures Odd(BitsOf(a + (b + c))) == ((Odd(BitsOf(a)) != Odd(BitsOf(b))) != Odd(BitsOf(c)))
  {
    hide BitsOf, Odd;
    BitsOfAppend(a, b + c);
    BitsOfAppend(b, c);
    OddOfAppend(BitsOf(a), BitsOf(b) + BitsOf(c));
    OddOfAppend(BitsOf(b), BitsOf(c));
  }

  /** Every accepted block holds an even number of one bits, its checksum included. */
  lemma AcceptedBlockIsEven(window: seq<u8>)
    requires OpenResult(window) == Ok
    ensures !Odd(BitsOf(BlockOf(window)))
  {
    hide OpenResult, BlockOf, Get32, Blanked, CheckHeader, BitsOf, Odd, Register;
    OpenedChecksum(window);
    var block := BlockOf(window);
    BlockParity(block);
    ChecksumEvensParity(Blanked(block, 20, 24));
  }

  lemma SameLength(window: seq<u8>, t: seq<u8>)
    requires CheckHeader(window) == Ok && CheckHeader(t) == Ok && t[16..20] == window[16..20]
    ensures |BlockOf(t)| == |BlockOf(window)|
  {
    hide CheckHeader;
    assert HEADER_SIZE <= |BlockOf(t)| <= |t| && HEADER_SIZE <= |BlockOf(window)| <= |window|;
    Get32Local(t, window, 16);
  }

  /** No change of an odd number of bits anywhere in a block, be it in the header, in the
      records or in the checksum itself, is ever accepted, as long as the length field stays. */
  lemma OddChangeIsRejected(window: seq<u8>, t: seq<u8>)
    requires OpenResult(window) == Ok && |t| >= |BlockOf(window)| && t[16..20] == window[16..20]
    requires Odd(XorBits(BitsOf(BlockOf(window)), BitsOf(t[..|BlockOf(window)|])))
    ensures OpenResult(t) != Ok
  {
    hide OpenResult, BlockOf, Get32, Blanked, CheckHeader, BitsOf, Odd;
    OpenedChecksum(window);
    var block := BlockOf(window);
    AcceptedBlockIsEven(window);
    OddOfXor(BitsOf(block), BitsOf(t[..|block|]));
    if OpenResult(t) == Ok {
      OpenedChecksum(t);
      SameLength(window, t);
      BlockIsPrefix(t);
      AcceptedBlockIsEven(t);
      assert false;
    }
  }
}
