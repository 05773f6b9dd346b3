/** 32-bit unsigned words: the C operators ^, & and >> on them, defined by binary digits. */
module Words {
  import opened Bytes
  import opened Gf2Polynomial
  import opened ShiftRegister

  function Pow2(k: nat): (p: nat)
    ensures p > 0
  {
    if k == 0 then 1 else 2 * Pow2(k - 1)
  }

  /** n >> j */
  function ShiftRight(n: nat, j: nat): nat
    decreases j, n
  {
    if j == 0 then n else ShiftRight(n / 2, j - 1)
  }

  /** The coefficient of 2^i in n. */
  predicate Digit(n: nat, i: nat) {
    ShiftRight(n, i) % 2 == 1
  }

  /** The k low binary digits of n, least significant first. */
  function Bits(n: nat, k: nat): (r: seq<bool>)
    ensures |r| == k
    ensures forall i | 0 <= i < k :: r[i] == Digit(n, i)
  {
    seq(k, i requires 0 <= i < k => Digit(n, i))
  }

  /** The number with the given binary digits. */
  function Number(bits: seq<bool>): (n: nat)
    ensures n < Pow2(|bits|)
    decreases |bits|
  {
    if bits == [] then 0 else (if bits[0] then 1 else 0) + 2 * Number(bits[1..])
  }

  lemma {:induction false} DigitOfNumber(bits: seq<bool>, i: nat)
    requires i < |bits|
    ensures Digit(Number(bits), i) == bits[i]
    decreases |bits|
  {
    assert Number(bits) / 2 == Number(bits[1..]);
    if i == 0 {
    } else {
      DigitOfNumber(bits[1..], i - 1);
    }
  }

  lemma {:induction false} NumberOfBits(n: nat, k: nat)
    requires n < Pow2(k)
    ensures Number(Bits(n, k)) == n
    decreases k
  {
    if k == 0 {
    } else {
      NumberOfBits(n / 2, k - 1);
      assert Bits(n, k)[1..] == Bits(n / 2, k - 1);
      assert Bits(n, k)[0] == Digit(n, 0);
    }
  }

  lemma Pow2Is32()
    ensures Pow2(32) == 0x1_0000_0000
  {
    assert Pow2(8) == 256;
    assert Pow2(16) == 65536;
    assert Pow2(24) == 0x100_0000;
  }

  /** A word as a register of ShiftRegister. */
  function Register(n: u32): Word {
    Bits(n, 32)
  }

  lemma RegisterOfNumber(w: Word)
    ensures Number(w) <= UINT32_MAX && Register(Number(w)) == w
  {
    Pow2Is32();
    forall i | 0 <= i < 32
      ensures Digit(Number(w), i) == w[i]
    {
      DigitOfNumber(w, i);
    }
  }

  lemma RegisterIsInjective(a: u32, b: u32)
    requires Register(a) == Register(b)
    ensures a == b
  {
    Pow2Is32();
    NumberOfBits(a, 32);
    NumberOfBits(b, 32);
  }

  lemma WordsAreDistinct()
    ensures forall a: u32, b: u32 :: Register(a) == Register(b) ==> a == b
  {
    forall a: u32, b: u32 | Register(a) == Register(b)
      ensures a == b
    {
      RegisterIsInjective(a, b);
    }
  }

  /** The word with the given bits. */
  function WordOf(w: Word): (n: u32)
    ensures Register(n) == w
  {
    RegisterOfNumber(w);
    WordsAreDistinct();
    var n: u32 :| Register(n) == w;
    n
  }

  /** a ^ b */
  function BitXor(a: u32, b: u32): (r: u32)
    ensures Register(r) == Xor(Register(a), Register(b))
  {
    WordOf(Xor(Register(a), Register(b)))
  }

  /** a & b */
  function BitAnd(a: u32, b: u32): (r: u32)
    ensures forall i | 0 <= i < 32 :: Register(r)[i] == (Register(a)[i] && Register(b)[i])
  {
    WordOf(seq(32, i requires 0 <= i < 32 => Register(a)[i] && Register(b)[i]))
  }

  lemma {:induction false} ShiftRightSum(n: nat, i: nat, j: nat)
    ensures ShiftRight(n, i + j) == ShiftRight(ShiftRight(n, i), j)
    decreases i
  {
    if i == 0 {
    } else {
      ShiftRightSum(n / 2, i - 1, j);
    }
  }

  lemma ShiftRightTwice(n: nat)
    ensures ShiftRight(n, 2) == n / 4
  {
    assert ShiftRight(n, 2) == ShiftRight(n / 2, 1) == ShiftRight(n / 2 / 2, 0);
  }

  lemma ShiftRightByte(n: nat)
    ensures ShiftRight(n, 8) == n / 0x100
  {
    ShiftRightTwice(n);
    ShiftRightTwice(n / 4);
    ShiftRightTwice(n / 16);
    ShiftRightTwice(n / 64);
    ShiftRightSum(n, 2, 6);
    ShiftRightSum(n / 4, 2, 4);
    ShiftRightSum(n / 16, 2, 2);
  }

  /** Digits above the low byte are the digits of the rest. */
  lemma DigitAbove(n: nat, i: nat)
    ensures Digit(n, 8 + i) == Digit(n / 0x100, i)
  {
    ShiftRightSum(n, 8, i);
    ShiftRightByte(n);
  }

  lemma {:induction false} ZeroHasNoDigits(i: nat)
    ensures !Digit(0, i)
  {
    if i == 0 {
    } else {
      ZeroHasNoDigits(i - 1);
    }
  }

  /** The bits of a word, byte by byte. */
  lemma RegisterByBytes(n: u32, i: nat)
    requires i < 8
    ensures Register(n)[i] == Digit(n, i)
    ensures Register(n)[8 + i] == Digit(n / 0x100, i)
    ensures Register(n)[16 + i] == Digit(n / 0x1_0000, i)
    ensures Register(n)[24 + i] == Digit(n / 0x100_0000, i)
    ensures !Digit(n, 32 + i)
  {
    DigitAbove(n, i);
    DigitAbove(n, 8 + i);
    DigitAbove(n / 0x100, i);
    DigitAbove(n, 16 + i);
    DigitAbove(n / 0x100, 8 + i);
    DigitAbove(n / 0x1_0000, i);
    DigitAbove(n, 24 + i);
    DigitAbove(n / 0x100, 16 + i);
    DigitAbove(n / 0x1_0000, 8 + i);
    DigitAbove(n / 0x100_0000, i);
    ZeroHasNoDigits(i);
    assert n / 0x100 / 0x100 == n / 0x1_0000 && n / 0x1_0000 / 0x100 == n / 0x100_0000;
    assert n / 0x100_0000 / 0x100 == 0;
  }

  /** A number is below a power of two exactly when it has no digit from there on. */
  lemma {:induction false} BelowPow2Iff(n: nat, k: nat, m: nat)
    requires k <= m && n < Pow2(m)
    ensures n < Pow2(k) <==> forall i | k <= i < m :: !Digit(n, i)
    decreases m
  {
    if m == 0 {
    } else {
      var k' := if k == 0 then 0 else k - 1;
      BelowPow2Iff(n / 2, k', m - 1);
      forall i | 1 <= i < m
        ensures Digit(n, i) == Digit(n / 2, i - 1)
      {
      }
      if k == 0 {
        assert Digit(n, 0) == (n % 2 == 1);
        if forall i | 0 <= i < m :: !Digit(n, i) {
          forall i | 0 <= i < m - 1
            ensures !Digit(n / 2, i)
          {
            assert Digit(n, i + 1) == Digit(n / 2, i);
          }
        } else {
          var i :| 0 <= i < m && Digit(n, i);
          if n == 0 {
            ZeroHasNoDigits(i);
          }
        }
      } else {
        if forall i | k <= i < m :: !Digit(n, i) {
          forall i | k' <= i < m - 1
            ensures !Digit(n / 2, i)
          {
            assert Digit(n, i + 1) == Digit(n / 2, i);
          }
        }
      }
    }
  }

  /** The low k digits do not see anything above them. */
  lemma {:induction false} DigitBelow(n: nat, m: nat, k: nat, i: nat)
    requires i < k
    ensures Digit(n + Pow2(k) * m, i) == Digit(n, i)
    decreases k
  {
    assert Pow2(k) * m == 2 * (Pow2(k - 1) * m);
    if i == 0 {
    } else {
      assert (n + Pow2(k) * m) / 2 == n / 2 + Pow2(k - 1) * m;
      DigitBelow(n / 2, m, k - 1, i - 1);
    }
  }

  /** a >> 1 */
  lemma RegisterShift(a: u32)
    ensures Register(a / 2) == Register(a)[1..] + [false]
    ensures Register(a)[0] == (a % 2 == 1)
  {
    RegisterByBytes(a, 0);
    forall i | 0 <= i < 32
      ensures Digit(a / 2, i) == Digit(a, i + 1)
    {
    }
    assert !Digit(a / 2, 31);
  }

  /** A byte XORed into a word touches the low eight bits only. */
  lemma RegisterOfByte(b: u8)
    ensures Register(b) == Bits(b, 8) + Falses(24)
  {
    forall i | 8 <= i < 32
      ensures !Digit(b, i)
    {
      DigitAbove(b, i - 8);
      ZeroHasNoDigits(i - 8);
    }
  }

  /** From bit i up, the digits n of a word are the coefficients of p, highest exponent first. */
  predicate Spells(n: nat, i: nat, p: Poly)
    decreases 32 - i
  {
    if i >= 32 then true else (n % 2 == 1) == (31 - i in p) && Spells(n / 2, i + 1, p)
  }

  lemma {:induction false} SpelledDigit(n: nat, i: nat, j: nat, p: Poly)
    requires Spells(n, i, p) && i + j < 32
    ensures Digit(n, j) <==> 31 - i - j in p
    decreases j
  {
    if j == 0 {
    } else {
      SpelledDigit(n / 2, i + 1, j - 1, p);
    }
  }

  /** A constant spelled bit by bit stands for its polynomial. */
  lemma SpelledRegister(n: u32, p: Poly)
    requires Spells(n, 0, p) && forall e | e in p :: e < 32
    ensures PolyOf(Register(n)) == p
  {
    forall e: nat
      ensures e in PolyOf(Register(n)) <==> e in p
    {
      assert e in PolyOf(Register(n)) <==> Coefficient(Register(n), e);
      if e < 32 {
        SpelledDigit(n, 0, 31 - e, p);
      }
    }
  }

  lemma {:induction false} OnesHaveOnes(k: nat, i: nat)
    requires i < k
    ensures Digit(Pow2(k) - 1, i)
    decreases k
  {
    assert Pow2(k) - 1 == 2 * (Pow2(k - 1) - 1) + 1;
    if i == 0 {
    } else {
      assert (Pow2(k) - 1) / 2 == Pow2(k - 1) - 1;
      OnesHaveOnes(k - 1, i - 1);
    }
  }
}
