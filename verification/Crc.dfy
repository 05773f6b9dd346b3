/** The CRC loops of the library on 32-bit words and byte strings, tied to the shift-register
    theory, and the guarantees that theory gives to every format sealed with them. */
module Crc {
  import opened Bytes
  import opened Gf2Polynomial
  import opened ShiftRegister
  import opened Words

  /** CRC-32 (ITU-T V.42, section 8.1.1.6.2), bit-reversed. */
  const CRC32: u32 := 0xEDB8_8320
  /** CRC-32C (RFC 3720, section 12.1), bit-reversed. */
  const CRC32C: u32 := 0x82F6_3B78

  /** One pass of the inner loop. */
  function BitStep(crc: u32, g: u32): u32 {
    if crc % 2 == 1 then BitXor(crc / 2, g) else crc / 2
  }

  function BitSteps(crc: u32, n: nat, g: u32): u32
    decreases n, crc
  {
    if n == 0 then crc else BitSteps(BitStep(crc, g), n - 1, g)
  }

  /** The register after the outer loop has run over `data`. */
  function Update(crc: u32, data: seq<u8>, g: u32): u32
    decreases |data|
  {
    if data == [] then crc else Update(BitSteps(BitXor(crc, data[0]), 8, g), data[1..], g)
  }

  /** The published checksum: all-ones start, inverted result. */
  function Checksum(data: seq<u8>, g: u32): u32 {
    BitXor(Update(UINT32_MAX, data, g), UINT32_MAX)
  }

  /** The bits of a byte string in transmission order: first byte first, low bit first. */
  function BitsOf(data: seq<u8>): (r: seq<bool>)
    ensures |r| == 8 * |data|
  {
    if data == [] then [] else Bits(data[0], 8) + BitsOf(data[1..])
  }

  // ---- The three ways the library writes the inner step

  /** crc = (crc >> 1) ^ ((crc & 1) ? g : 0) */
  lemma TernaryForm(crc: u32, g: u32)
    ensures BitXor(crc / 2, if crc % 2 == 1 then g else 0) == BitStep(crc, g)
  {
    if crc % 2 != 1 {
      var r := BitXor(crc / 2, 0);
      forall i | 0 <= i < 32
        ensures Register(r)[i] == Register(crc / 2)[i]
      {
        ZeroHasNoDigits(i);
      }
      RegisterIsInjective(r, crc / 2);
    }
  }

  /** mask = 0 - (crc & 1); crc = (crc >> 1) ^ (g & mask) */
  lemma MaskForm(crc: u32, g: u32)
    ensures BitXor(crc / 2, BitAnd(g, (0 - crc % 2) % 0x1_0000_0000)) == BitStep(crc, g)
  {
    var mask: u32 := (0 - crc % 2) % 0x1_0000_0000;
    var kept := BitAnd(g, mask);
    forall i | 0 <= i < 32
      ensures Register(kept)[i] == (crc % 2 == 1 && Register(g)[i])
    {
      ZeroHasNoDigits(i);
      AllOnes();
    }
    if crc % 2 == 1 {
      RegisterIsInjective(kept, g);
    } else {
      forall i | 0 <= i < 32
        ensures Register(0)[i] == Register(kept)[i]
      {
        ZeroHasNoDigits(i);
      }
      RegisterIsInjective(kept, 0);
      TernaryForm(crc, g);
    }
  }

  /** The inner loop in ternary form. */
  method TernaryByte(crc: u32, g: u32) returns (r: u32)
    ensures r == BitSteps(crc, 8, g)
  {
    r := crc;
    var bit := 0;
    while bit < 8
      invariant 0 <= bit <= 8
      invariant BitSteps(r, 8 - bit, g) == BitSteps(crc, 8, g)
    {
      TernaryForm(r, g);
      r := BitXor(r / 2, if r % 2 == 1 then g else 0);
      bit := bit + 1;
    }
  }

  /** The inner loop in mask form. */
  method MaskByte(crc: u32, g: u32) returns (r: u32)
    ensures r == BitSteps(crc, 8, g)
  {
    r := crc;
    var bit := 0;
    while bit < 8
      invariant 0 <= bit <= 8
      invariant BitSteps(r, 8 - bit, g) == BitSteps(crc, 8, g)
    {
      MaskForm(r, g);
      var mask: u32 := (0 - r % 2) % 0x1_0000_0000;
      r := BitXor(r / 2, BitAnd(g, mask));
      bit := bit + 1;
    }
  }

  // ---- The loops compute the shift register

  lemma StepTurns(crc: u32, g: u32)
    ensures Register(BitStep(crc, g)) == Turn(Register(crc), Register(g))
  {
    RegisterShift(crc);
  }

  lemma {:induction false} StepsTurn(crc: u32, n: nat, g: u32)
    ensures Register(BitSteps(crc, n, g)) == Turns(Register(crc), n, Register(g))
    decreases n
  {
    if n == 0 {
    } else {
      StepTurns(crc, g);
      StepsTurn(BitStep(crc, g), n - 1, g);
    }
  }

  lemma ByteFeeds(crc: u32, b: u8, g: u32)
    ensures Register(BitSteps(BitXor(crc, b), 8, g)) == Feed(Register(crc), Bits(b, 8), Register(g))
  {
    StepsTurn(BitXor(crc, b), 8, g);
    RegisterOfByte(b);
    TurnsAbsorb(Register(crc), Bits(b, 8), Register(g));
  }

  lemma {:induction false} UpdateFeeds(crc: u32, data: seq<u8>, g: u32)
    ensures Register(Update(crc, data, g)) == Feed(Register(crc), BitsOf(data), Register(g))
    decreases |data|
  {
    if data == [] {
    } else {
      ByteFeeds(crc, data[0], g);
      UpdateFeeds(BitSteps(BitXor(crc, data[0]), 8, g), data[1..], g);
      FeedAppends(Register(crc), Bits(data[0], 8), BitsOf(data[1..]), Register(g));
    }
  }

  lemma {:induction false} UpdateAppends(crc: u32, a: seq<u8>, b: seq<u8>, g: u32)
    ensures Update(crc, a + b, g) == Update(Update(crc, a, g), b, g)
    decreases |a|
  {
    if a == [] {
      assert a + b == b;
    } else {
      assert (a + b)[1..] == a[1..] + b;
      UpdateAppends(BitSteps(BitXor(crc, a[0]), 8, g), a[1..], b, g);
    }
  }

  // ---- The published generators

  lemma AllOnes()
    ensures Register(UINT32_MAX) == Trues(32)
  {
    Pow2Is32();
    forall i | 0 <= i < 32
      ensures Digit(UINT32_MAX, i)
    {
      OnesHaveOnes(32, i);
    }
  }

  /** x^32+x^26+x^23+x^22+x^16+x^12+x^11+x^10+x^8+x^7+x^5+x^4+x^2+x+1 */
  lemma GeneratorOfCrc32()
    ensures Generator(Register(CRC32)) == {32, 26, 23, 22, 16, 12, 11, 10, 8, 7, 5, 4, 2, 1, 0}
  {
    Crc32Coefficients({26, 23, 22, 16, 12, 11, 10, 8, 7, 5, 4, 2, 1, 0});
  }

  lemma Crc32Coefficients(p: Poly)
    requires p == {26, 23, 22, 16, 12, 11, 10, 8, 7, 5, 4, 2, 1, 0}
    ensures PolyOf(Register(CRC32)) == p
  {
    Crc32Spelled(p);
    var n: u32 := CRC32;
    SpelledRegister(n, p);
  }

  lemma Crc32Spelled(p: Poly)
    requires p == {26, 23, 22, 16, 12, 11, 10, 8, 7, 5, 4, 2, 1, 0}
    ensures Spells(0xEDB88320, 0, p)
  {
    Crc32UpperHalf(p);
    Crc32FromBit8(p);
    Crc32FromBit0(p);
  }

  lemma Crc32UpperHalf(p: Poly)
    requires p == {26, 23, 22, 16, 12, 11, 10, 8, 7, 5, 4, 2, 1, 0}
    ensures Spells(0xEDB8, 16, p)
  {
    Crc32FromBit24(p);
    Crc32FromBit16(p);
  }

  lemma Crc32FromBit24(p: Poly)
    requires 7 in p && 6 !in p && 5 in p && 4 in p && 3 !in p && 2 in p && 1 in p && 0 in p
    ensures Spells(0xED, 24, p)
  {
    assert Spells(0x1, 31, p);
    assert Spells(0x3, 30, p);
    assert Spells(0x7, 29, p);
    assert Spells(0xE, 28, p);
    assert Spells(0x1D, 27, p);
    assert Spells(0x3B, 26, p);
    assert Spells(0x76, 25, p);
  }

  lemma Crc32FromBit16(p: Poly)
    requires 15 !in p && 14 !in p && 13 !in p && 12 in p && 11 in p && 10 in p && 9 !in p && 8 in p
    requires Spells(0xED, 24, p)
    ensures Spells(0xEDB8, 16, p)
  {
    assert Spells(0x1DB, 23, p);
    assert Spells(0x3B6, 22, p);
    assert Spells(0x76D, 21, p);
    assert Spells(0xEDB, 20, p);
    assert Spells(0x1DB7, 19, p);
    assert Spells(0x3B6E, 18, p);
    assert Spells(0x76DC, 17, p);
  }

  lemma Crc32FromBit8(p: Poly)
    requires 23 in p && 22 in p && 21 !in p && 20 !in p && 19 !in p && 18 !in p && 17 !in p && 16 in p
    requires Spells(0xEDB8, 16, p)
    ensures Spells(0xEDB883, 8, p)
  {
    assert Spells(0x1DB71, 15, p);
    assert Spells(0x3B6E2, 14, p);
    assert Spells(0x76DC4, 13, p);
    assert Spells(0xEDB88, 12, p);
    assert Spells(0x1DB710, 11, p);
    assert Spells(0x3B6E20, 10, p);
    assert Spells(0x76DC41, 9, p);
  }

  lemma Crc32FromBit0(p: Poly)
    requires 31 !in p && 30 !in p && 29 !in p && 28 !in p && 27 !in p && 26 in p && 25 !in p && 24 !in p
    requires Spells(0xEDB883, 8, p)
    ensures Spells(0xEDB88320, 0, p)
  {
    assert Spells(0x1DB7106, 7, p);
    assert Spells(0x3B6E20C, 6, p);
    assert Spells(0x76DC419, 5, p);
    assert Spells(0xEDB8832, 4, p);
    assert Spells(0x1DB71064, 3, p);
    assert Spells(0x3B6E20C8, 2, p);
    assert Spells(0x76DC4190, 1, p);
  }

  /** x^32+x^28+x^27+x^26+x^25+x^23+x^22+x^20+x^19+x^18+x^14+x^13+x^11+x^10+x^9+x^8+x^6+1 */
  lemma GeneratorOfCrc32c()
    ensures Generator(Register(CRC32C)) == {32, 28, 27, 26, 25, 23, 22, 20, 19, 18, 14, 13, 11, 10, 9, 8, 6, 0}
  {
    Crc32cCoefficients({28, 27, 26, 25, 23, 22, 20, 19, 18, 14, 13, 11, 10, 9, 8, 6, 0});
  }

  lemma Crc32cCoefficients(p: Poly)
    requires p == {28, 27, 26, 25, 23, 22, 20, 19, 18, 14, 13, 11, 10, 9, 8, 6, 0}
    ensures PolyOf(Register(CRC32C)) == p
  {
    Crc32cSpelled(p);
    var n: u32 := CRC32C;
    SpelledRegister(n, p);
  }

  lemma Crc32cSpelled(p: Poly)
    requires p == {28, 27, 26, 25, 23, 22, 20, 19, 18, 14, 13, 11, 10, 9, 8, 6, 0}
    ensures Spells(0x82F63B78, 0, p)
  {
    Crc32cUpperHalf(p);
    Crc32cFromBit8(p);
    Crc32cFromBit0(p);
  }

  lemma Crc32cUpperHalf(p: Poly)
    requires p == {28, 27, 26, 25, 23, 22, 20, 19, 18, 14, 13, 11, 10, 9, 8, 6, 0}
    ensures Spells(0x82F6, 16, p)
  {
    Crc32cFromBit24(p);
    Crc32cFromBit16(p);
  }

  lemma Crc32cFromBit24(p: Poly)
    requires 7 !in p && 6 in p && 5 !in p && 4 !in p && 3 !in p && 2 !in p && 1 !in p && 0 in p
    ensures Spells(0x82, 24, p)
  {
    assert Spells(0x1, 31, p);
    assert Spells(0x2, 30, p);
    assert Spells(0x4, 29, p);
    assert Spells(0x8, 28, p);
    assert Spells(0x10, 27, p);
    assert Spells(0x20, 26, p);
    assert Spells(0x41, 25, p);
  }

  lemma Crc32cFromBit16(p: Poly)
    requires 15 !in p && 14 in p && 13 in p && 12 !in p && 11 in p && 10 in p && 9 in p && 8 in p
    requires Spells(0x82, 24, p)
    ensures Spells(0x82F6, 16, p)
  {
    assert Spells(0x105, 23, p);
    assert Spells(0x20B, 22, p);
    assert Spells(0x417, 21, p);
    assert Spells(0x82F, 20, p);
    assert Spells(0x105E, 19, p);
    assert Spells(0x20BD, 18, p);
    assert Spells(0x417B, 17, p);
  }

  lemma Crc32cFromBit8(p: Poly)
    requires 23 in p && 22 in p && 21 !in p && 20 in p && 19 in p && 18 in p && 17 !in p && 16 !in p
    requires Spells(0x82F6, 16, p)
    ensures Spells(0x82F63B, 8, p)
  {
    assert Spells(0x105EC, 15, p);
    assert Spells(0x20BD8, 14, p);
    assert Spells(0x417B1, 13, p);
    assert Spells(0x82F63, 12, p);
    assert Spells(0x105EC7, 11, p);
    assert Spells(0x20BD8E, 10, p);
    assert Spells(0x417B1D, 9, p);
  }

  lemma Crc32cFromBit0(p: Poly)
    requires 31 !in p && 30 !in p && 29 !in p && 28 in p && 27 in p && 26 in p && 25 in p && 24 !in p
    requires Spells(0x82F63B, 8, p)
    ensures Spells(0x82F63B78, 0, p)
  {
    assert Spells(0x105EC76, 7, p);
    assert Spells(0x20BD8ED, 6, p);
    assert Spells(0x417B1DB, 5, p);
    assert Spells(0x82F63B7, 4, p);
    assert Spells(0x105EC76F, 3, p);
    assert Spells(0x20BD8EDE, 2, p);
    assert Spells(0x417B1DBC, 1, p);
  }

  /** Whether an odd number of the k low digits of n are ones. */
  predicate OddDigits(n: nat, k: nat)
    decreases k
  {
    k > 0 && (n % 2 == 1) != OddDigits(n / 2, k - 1)
  }

  lemma {:induction false} OddDigitsOfBits(n: nat, k: nat)
    ensures Odd(Bits(n, k)) == OddDigits(n, k)
    decreases k
  {
    if k == 0 {
    } else {
      assert Bits(n, k)[0] == Digit(n, 0);
      assert Bits(n, k)[1..] == Bits(n / 2, k - 1);
      OddDigitsOfBits(n / 2, k - 1);
    }
  }

  /** CRC-32C has an even number of terms, x^32 included. */
  lemma Crc32cIsOdd()
    ensures Odd(Register(CRC32C))
  {
    assert OddDigits(0x1, 1) && OddDigits(0x2, 2) && OddDigits(0x4, 3) && OddDigits(0x8, 4);
    assert OddDigits(0x10, 5) && OddDigits(0x20, 6) && !OddDigits(0x41, 7) && !OddDigits(0x82, 8);
    assert OddDigits(0x105, 9) && !OddDigits(0x20B, 10) && OddDigits(0x417, 11) && !OddDigits(0x82F, 12);
    assert !OddDigits(0x105E, 13) && OddDigits(0x20BD, 14) && !OddDigits(0x417B, 15) && !OddDigits(0x82F6, 16);
    assert !OddDigits(0x105EC, 17) && !OddDigits(0x20BD8, 18) && OddDigits(0x417B1, 19) && !OddDigits(0x82F63, 20);
    assert OddDigits(0x105EC7, 21) && OddDigits(0x20BD8E, 22) && !OddDigits(0x417B1D, 23) && OddDigits(0x82F63B, 24);
    assert OddDigits(0x105EC76, 25) && !OddDigits(0x20BD8ED, 26) && OddDigits(0x417B1DB, 27) && !OddDigits(0x82F63B7, 28);
    assert OddDigits(0x105EC76F, 29) && OddDigits(0x20BD8EDE, 30) && OddDigits(0x417B1DBC, 31) && OddDigits(0x82F63B78, 32);
    OddDigitsOfBits(CRC32C, 32);
  }

  /** Both generators have a constant term. */
  lemma HasConstantTerm(g: u32)
    requires g == CRC32 || g == CRC32C
    ensures Register(g)[31]
  {
    if g == CRC32 {
      GeneratorOfCrc32();
    } else {
      GeneratorOfCrc32c();
    }
    assert 0 in Generator(Register(g));
    assert 0 in PolyOf(Register(g)) <==> Coefficient(Register(g), 0);
  }

  // ---- What a published checksum is, and what it detects

  lemma ChecksumRegister(data: seq<u8>, g: u32)
    ensures Register(Checksum(data, g)) == Xor(Feed(Trues(32), BitsOf(data), Register(g)), Trues(32))
  {
    AllOnes();
    UpdateFeeds(UINT32_MAX, data, g);
  }

  /** The inverted checksum is the remainder of the message polynomial modulo the generator:
      it is one, and nothing else is. */
  lemma ChecksumIsTheRemainder(data: seq<u8>, g: u32, r: Poly)
    ensures IsRemainder(Dividend(BitsOf(data)), Generator(Register(g)), 32, r)
            <==> r == PolyOf(Xor(Register(Checksum(data, g)), Trues(32)))
  {
    ChecksumRegister(data, g);
    var w := Feed(Trues(32), BitsOf(data), Register(g));
    assert Xor(Xor(w, Trues(32)), Trues(32)) == w;
    RegisterIsTheRemainder(BitsOf(data), Register(g), r);
  }

  lemma ChecksumTellsRegister(a: seq<u8>, b: seq<u8>, g: u32)
    requires Checksum(a, g) == Checksum(b, g)
    ensures Feed(Trues(32), BitsOf(a), Register(g)) == Feed(Trues(32), BitsOf(b), Register(g))
  {
    ChecksumRegister(a, g);
    ChecksumRegister(b, g);
    var u, v := Feed(Trues(32), BitsOf(a), Register(g)), Feed(Trues(32), BitsOf(b), Register(g));
    assert Xor(Xor(u, Trues(32)), Trues(32)) == u && Xor(Xor(v, Trues(32)), Trues(32)) == v;
  }

  lemma RegisterTellsChecksum(a: seq<u8>, b: seq<u8>, g: u32)
    requires Feed(Trues(32), BitsOf(a), Register(g)) == Feed(Trues(32), BitsOf(b), Register(g))
    ensures Checksum(a, g) == Checksum(b, g)
  {
    ChecksumRegister(a, g);
    ChecksumRegister(b, g);
    RegisterIsInjective(Checksum(a, g), Checksum(b, g));
  }

  /** Exactly which changes a checksum misses: two messages of one length have the same one if
      and only if the polynomial of their difference, times x^32, is a multiple of the
      generator. */
  lemma SameChecksumIff(a: seq<u8>, b: seq<u8>, g: u32)
    requires |a| == |b|
    ensures Checksum(a, g) == Checksum(b, g) <==>
            IsMultiple(PolyOf(XorBits(BitsOf(a), BitsOf(b)) + Falses(32)), Generator(Register(g)))
  {
    hide Checksum, Feed, BitsOf, Register, PolyOf, Generator;
    SameRegisterIff(BitsOf(a), BitsOf(b), Register(g));
    if Checksum(a, g) == Checksum(b, g) {
      ChecksumTellsRegister(a, b, g);
    }
    if Feed(Trues(32), BitsOf(a), Register(g)) == Feed(Trues(32), BitsOf(b), Register(g)) {
      RegisterTellsChecksum(a, b, g);
    }
  }

  /** Among the changes within 33 consecutive bits it misses exactly one: the generator's own
      pattern. */
  lemma OnlyThePatternKeepsChecksum(a: seq<u8>, b: seq<u8>, at: nat, g: u32)
    requires g == CRC32 || g == CRC32C
    requires |a| == |b| && a != b && at + 33 <= 8 * |a|
    requires forall i | 0 <= i < 8 * |a| && !(at <= i < at + 33) :: BitsOf(a)[i] == BitsOf(b)[i]
    ensures Checksum(a, g) == Checksum(b, g) <==>
            XorBits(BitsOf(a)[at..at + 33], BitsOf(b)[at..at + 33]) == [true] + Register(g)
  {
    hide Checksum, Feed, Register, BitsOf;
    var x, y := BitsOf(a), BitsOf(b);
    HasConstantTerm(g);
    MiddleDiffers(a, b, at);
    SplitInThree(x, at, at + 33);
    SplitInThree(y, at, at + 33);
    OnlyThePatternHides(Trues(32), x[..at], x[at..at + 33], y[at..at + 33], x[at + 33..], Register(g));
    if Checksum(a, g) == Checksum(b, g) {
      ChecksumTellsRegister(a, b, g);
    }
    if Feed(Trues(32), x, Register(g)) == Feed(Trues(32), y, Register(g)) {
      RegisterTellsChecksum(a, b, g);
    }
  }

  lemma MiddleDiffers(a: seq<u8>, b: seq<u8>, at: nat)
    requires |a| == |b| && a != b && at + 33 <= 8 * |a|
    requires forall i | 0 <= i < 8 * |a| && !(at <= i < at + 33) :: BitsOf(a)[i] == BitsOf(b)[i]
    ensures BitsOf(a)[..at] == BitsOf(b)[..at] && BitsOf(a)[at + 33..] == BitsOf(b)[at + 33..]
    ensures BitsOf(a)[at..at + 33] != BitsOf(b)[at..at + 33]
  {
    hide BitsOf;
    var x, y := BitsOf(a), BitsOf(b);
    SplitInThree(x, at, at + 33);
    SplitInThree(y, at, at + 33);
    if x[at..at + 33] == y[at..at + 33] {
      BytesAreTheirBits(a, b);
    }
  }

  /** No burst of up to 32 bits leaves a checksum unchanged. */
  lemma BurstChangesChecksum(a: seq<u8>, b: seq<u8>, p: nat, g: u32)
    requires g == CRC32 || g == CRC32C
    requires DifferInBurst(BitsOf(a), BitsOf(b), p)
    ensures Checksum(a, g) != Checksum(b, g)
  {
    HasConstantTerm(g);
    BurstChangesRegister(Trues(32), BitsOf(a), BitsOf(b), p, Register(g));
    if Checksum(a, g) == Checksum(b, g) {
      ChecksumTellsRegister(a, b, g);
      assert false;
    }
  }

  /** With CRC-32C, a message and its checksum together hold an even number of ones. */
  lemma ChecksumEvensParity(data: seq<u8>)
    ensures Odd(BitsOf(data)) == Odd(Register(Checksum(data, CRC32C)))
  {
    Crc32cIsOdd();
    ChecksumRegister(data, CRC32C);
    FeedKeepsParity(Trues(32), BitsOf(data), Register(CRC32C));
    OddOfXor(Feed(Trues(32), BitsOf(data), Register(CRC32C)), Trues(32));
  }

  // ---- Byte strings as bit strings

  lemma {:induction false} BitOfByte(data: seq<u8>, i: nat, j: nat)
    requires i < |data| && j < 8
    ensures BitsOf(data)[8 * i + j] == Digit(data[i], j)
  {
    if i == 0 {
    } else {
      BitOfByte(data[1..], i - 1, j);
      assert 8 * i + j - 8 == 8 * (i - 1) + j;
    }
  }

  lemma {:induction false} BitsOfAppend(a: seq<u8>, b: seq<u8>)
    ensures BitsOf(a + b) == BitsOf(a) + BitsOf(b)
    decreases |a|
  {
    if a == [] {
      assert a + b == b;
    } else {
      assert (a + b)[1..] == a[1..] + b;
      BitsOfAppend(a[1..], b);
    }
  }

  lemma ByteIsItsBits(a: u8, b: u8)
    requires Bits(a, 8) == Bits(b, 8)
    ensures a == b
  {
    assert Pow2(8) == 0x100;
    NumberOfBits(a, 8);
    NumberOfBits(b, 8);
  }

  lemma BytesAreTheirBits(a: seq<u8>, b: seq<u8>)
    requires BitsOf(a) == BitsOf(b)
    ensures a == b
  {
    forall i | 0 <= i < |a|
      ensures a[i] == b[i]
    {
      forall j | 0 <= j < 8
        ensures Bits(a[i], 8)[j] == Bits(b[i], 8)[j]
      {
        BitOfByte(a, i, j);
        BitOfByte(b, i, j);
      }
      ByteIsItsBits(a[i], b[i]);
    }
  }

  /** Two byte strings that differ only within 32 consecutive bits. */
  ghost predicate BurstApart(a: seq<u8>, b: seq<u8>, p: nat) {
    DifferInBurst(BitsOf(a), BitsOf(b), p)
  }

  /** Any change within four consecutive bytes is such a burst. */
  lemma FourBytesAreABurst(a: seq<u8>, b: seq<u8>, k: nat)
    requires |a| == |b| && a != b
    requires forall i | 0 <= i < |a| && !(k <= i < k + 4) :: a[i] == b[i]
    ensures BurstApart(a, b, 8 * k)
  {
    if BitsOf(a) == BitsOf(b) {
      BytesAreTheirBits(a, b);
      assert false;
    }
    forall i | 0 <= i < 8 * |a| && !(8 * k <= i < 8 * k + 32)
      ensures BitsOf(a)[i] == BitsOf(b)[i]
    {
      var n := i / 8;
      BitOfByte(a, n, i % 8);
      BitOfByte(b, n, i % 8);
    }
  }

  /** The byte string with the given bits. */
  function BytesOfBits(bits: seq<bool>): (data: seq<u8>)
    requires |bits| % 8 == 0
    ensures 8 * |data| == |bits|
    decreases |bits|
  {
    if bits == [] then []
    else
      assert Pow2(8) == 0x100;
      [Number(bits[..8])] + BytesOfBits(bits[8..])
  }

  lemma {:induction false} BytesHaveTheBits(bits: seq<bool>)
    requires |bits| % 8 == 0
    ensures BitsOf(BytesOfBits(bits)) == bits
    decreases |bits|
  {
    if bits == [] {
    } else {
      var low, rest := bits[..8], bits[8..];
      ByteHasTheBits(low);
      BytesHaveTheBits(rest);
      assert BytesOfBits(bits)[0] == Number(low) && BytesOfBits(bits)[1..] == BytesOfBits(rest);
      assert bits == low + rest;
    }
  }

  lemma ByteHasTheBits(bits: seq<bool>)
    requires |bits| == 8
    ensures Bits(Number(bits), 8) == bits
  {
    forall j | 0 <= j < 8
      ensures Bits(Number(bits), 8)[j] == bits[j]
    {
      DigitOfNumber(bits, j);
    }
  }

  /** The bits of a message with the generator's own pattern flipped in somewhere. */
  function WithPattern(bits: seq<bool>, at: nat, g: u32): (r: seq<bool>)
    requires at + 33 <= |bits|
    ensures |r| == |bits| && r != bits
    ensures forall i | 0 <= i < |bits| && !(at <= i < at + 33) :: r[i] == bits[i]
  {
    var r := bits[..at] + XorBits(bits[at..at + 33], [true] + Register(g)) + bits[at + 33..];
    assert r[at] != bits[at];
    r
  }

  /** Four bytes are the limit: in any message, at any place, some change within five
      consecutive bytes goes unnoticed. */
  lemma FiveBytesCanHide(data: seq<u8>, k: nat, g: u32) returns (damaged: seq<u8>)
    requires k + 5 <= |data|
    ensures |damaged| == |data| && damaged != data
    ensures forall i | 0 <= i < |data| && !(k <= i < k + 5) :: damaged[i] == data[i]
    ensures Checksum(damaged, g) == Checksum(data, g)
  {
    var bits := BitsOf(data);
    var changed := WithPattern(bits, 8 * k, g);
    damaged := BytesOfBits(changed);
    BytesHaveTheBits(changed);
    forall i | 0 <= i < |data| && !(k <= i < k + 5)
      ensures damaged[i] == data[i]
    {
      forall j | 0 <= j < 8
        ensures Bits(damaged[i], 8)[j] == Bits(data[i], 8)[j]
      {
        BitOfByte(damaged, i, j);
        BitOfByte(data, i, j);
      }
      ByteIsItsBits(damaged[i], data[i]);
    }
    PatternIsInvisible(bits, 8 * k, g);
    ChecksumRegister(damaged, g);
    ChecksumRegister(data, g);
    RegisterIsInjective(Checksum(damaged, g), Checksum(data, g));
  }

  lemma SplitInThree(bits: seq<bool>, i: nat, j: nat)
    requires i <= j <= |bits|
    ensures bits[..i] + bits[i..j] + bits[j..] == bits
  {
  }

  lemma PatternIsInvisible(bits: seq<bool>, at: nat, g: u32)
    requires at + 33 <= |bits|
    ensures Feed(Trues(32), WithPattern(bits, at, g), Register(g)) == Feed(Trues(32), bits, Register(g))
  {
    hide Feed, Register, XorBits, Trues;
    SplitInThree(bits, at, at + 33);
    GeneratorPatternIsInvisible(Trues(32), bits[..at], bits[at..at + 33], bits[at + 33..], Register(g));
  }

  /** `s` with bytes lo..hi set to zero: how every format checksums a block that holds its
      own checksum. */
  function Blanked(s: seq<u8>, lo: nat, hi: nat): (r: seq<u8>)
    ensures |r| == |s|
    ensures forall i | 0 <= i < |s| :: r[i] == if lo <= i < hi then 0 else s[i]
  {
    seq(|s|, i requires 0 <= i < |s| => if lo <= i < hi then 0 else s[i])
  }

  lemma BlankingIsInjective(a: seq<u8>, b: seq<u8>, lo: nat, hi: nat)
    requires |a| == |b| && lo <= hi <= |a| && a[lo..hi] == b[lo..hi]
    requires Blanked(a, lo, hi) == Blanked(b, lo, hi)
    ensures a == b
  {
    var x, y := Blanked(a, lo, hi), Blanked(b, lo, hi);
    forall i | 0 <= i < |a|
      ensures a[i] == b[i]
    {
      if lo <= i < hi {
        assert a[i] == a[lo..hi][i - lo] && b[i] == b[lo..hi][i - lo];
      } else {
        assert x[i] == y[i];
      }
    }
  }

  /** Blanking bytes on which two strings agree keeps the burst between them. */
  lemma BlankingKeepsBurst(a: seq<u8>, b: seq<u8>, p: nat, lo: nat, hi: nat)
    requires BurstApart(a, b, p) && |a| == |b| && lo <= hi <= |a|
    requires a[lo..hi] == b[lo..hi]
    ensures BurstApart(Blanked(a, lo, hi), Blanked(b, lo, hi), p)
  {
    var x, y := Blanked(a, lo, hi), Blanked(b, lo, hi);
    if BitsOf(x) == BitsOf(y) {
      BytesAreTheirBits(x, y);
      BlankingIsInjective(a, b, lo, hi);
      assert false;
    }
    forall i | 0 <= i < 8 * |a| && !(p <= i < p + 32)
      ensures BitsOf(x)[i] == BitsOf(y)[i]
    {
      var n := i / 8;
      BitOfByte(x, n, i % 8);
      BitOfByte(y, n, i % 8);
      BitOfByte(a, n, i % 8);
      BitOfByte(b, n, i % 8);
    }
  }
}
