/** The reflected 32-bit shift register inside every CRC loop of the library, as a list of
    bits, least significant first: its linearity, its inverse, the remainder it computes and
    the bursts it detects. The generator is given by its 32 low-order coefficients in the
    same order, so that bit i is the coefficient of x^(31-i). */
module ShiftRegister {
  import opened Gf2Polynomial

  type Word = w: seq<bool> | |w| == 32 witness seq(32, _ => false)

  function Falses(n: nat): (r: seq<bool>)
    ensures |r| == n && true !in r
  {
    seq(n, _ => false)
  }

  function Trues(n: nat): (r: seq<bool>)
    ensures |r| == n && false !in r
  {
    seq(n, _ => true)
  }

  function Xor(a: Word, b: Word): Word {
    XorBits(a, b)
  }

  /** One turn of the inner loop: shift right, and feed the generator back if a one fell out. */
  function Turn(w: Word, g: Word): Word {
    var shifted := w[1..] + [false];
    if w[0] then Xor(shifted, g) else shifted
  }

  function Turns(w: Word, n: nat, g: Word): Word
    decreases n
  {
    if n == 0 then w else Turns(Turn(w, g), n - 1, g)
  }

  /** The register after absorbing one message bit. */
  function Absorb(w: Word, b: bool, g: Word): Word {
    Turn(w[0 := w[0] != b], g)
  }

  /** The register after absorbing a list of message bits. */
  function Feed(w: Word, bits: seq<bool>, g: Word): Word
    decreases |bits|
  {
    if bits == [] then w else Feed(Absorb(w, bits[0], g), bits[1..], g)
  }

  lemma {:induction false} FeedAppends(w: Word, a: seq<bool>, b: seq<bool>, g: Word)
    ensures Feed(w, a + b, g) == Feed(Feed(w, a, g), b, g)
    decreases |a|
  {
    if a == [] {
      assert a + b == b;
    } else {
      assert (a + b)[1..] == a[1..] + b;
      FeedAppends(Absorb(w, a[0], g), a[1..], b, g);
    }
  }

  lemma FeedLast(w: Word, bits: seq<bool>, g: Word)
    requires bits != []
    ensures Feed(w, bits, g) == Absorb(Feed(w, bits[..|bits| - 1], g), bits[|bits| - 1], g)
  {
    var n := |bits| - 1;
    assert bits == bits[..n] + [bits[n]];
    FeedAppends(w, bits[..n], [bits[n]], g);
    var v := Feed(w, bits[..n], g);
    assert Feed(v, [bits[n]], g) == Feed(Absorb(v, bits[n], g), [], g);
  }

  // ---- A word XORed in at once against its bits absorbed one by one

  /** XORing up to 32 message bits into the register and turning it once per bit is the same
      as absorbing the bits one at a time. */
  lemma {:induction false} TurnsAbsorb(w: Word, bits: seq<bool>, g: Word)
    requires |bits| <= 32
    ensures Turns(Xor(w, bits + Falses(32 - |bits|)), |bits|, g) == Feed(w, bits, g)
    decreases |bits|
  {
    if bits == [] {
      assert Xor(w, [] + Falses(32)) == w;
    } else {
      var rest := bits[1..];
      var u := Xor(w, bits + Falses(32 - |bits|));
      var v := Absorb(w, bits[0], g);
      assert Turn(u, g) == Xor(v, rest + Falses(32 - |rest|));
      TurnsAbsorb(v, rest, g);
    }
  }

  // ---- Linearity and injectivity

  lemma AbsorbIsLinear(a: Word, b: Word, x: bool, y: bool, g: Word)
    ensures Absorb(Xor(a, b), x != y, g) == Xor(Absorb(a, x, g), Absorb(b, y, g))
  {
    var u, v := Absorb(Xor(a, b), x != y, g), Xor(Absorb(a, x, g), Absorb(b, y, g));
    assert forall i | 0 <= i < 32 :: u[i] == v[i];
    assert u == v;
  }

  lemma {:induction false} FeedIsLinear(a: Word, b: Word, s: seq<bool>, t: seq<bool>, g: Word)
    requires |s| == |t|
    ensures Feed(Xor(a, b), XorBits(s, t), g) == Xor(Feed(a, s, g), Feed(b, t, g))
    decreases |s|
  {
    if s == [] {
    } else {
      AbsorbIsLinear(a, b, s[0], t[0], g);
      assert XorBits(s, t)[1..] == XorBits(s[1..], t[1..]);
      FeedIsLinear(Absorb(a, s[0], g), Absorb(b, t[0], g), s[1..], t[1..], g);
    }
  }

  /** The generator has a constant term, so no information leaves the register. */
  lemma AbsorbIsInjective(a: Word, b: Word, x: bool, g: Word)
    requires g[31] && Absorb(a, x, g) == Absorb(b, x, g)
    ensures a == b
  {
    var u, v := a[0 := a[0] != x], b[0 := b[0] != x];
    var s, t := Turn(u, g), Turn(v, g);
    assert s[31] == u[0] && t[31] == v[0];
    forall i | 0 <= i < 32
      ensures a[i] == b[i]
    {
      if i > 0 {
        assert s[i - 1] == (u[i] != (u[0] && g[i - 1]));
        assert t[i - 1] == (v[i] != (v[0] && g[i - 1]));
      }
    }
  }

  lemma {:induction false} FeedIsInjective(a: Word, b: Word, bits: seq<bool>, g: Word)
    requires g[31] && Feed(a, bits, g) == Feed(b, bits, g)
    ensures a == b
    decreases |bits|
  {
    if bits == [] {
    } else {
      FeedIsInjective(Absorb(a, bits[0], g), Absorb(b, bits[0], g), bits[1..], g);
      AbsorbIsInjective(a, b, bits[0], g);
    }
  }

  // ---- Bursts

  /** Running backwards from a register whose bits from j up are clear: at most 32 - j
      absorbed bits can have led there from zero only if they were all zero. */
  lemma {:induction false} QuietRun(e: seq<bool>, j: nat, g: Word)
    requires g[31] && |e| + j <= 32
    requires forall i | j <= i < 32 :: !Feed(Falses(32), e, g)[i]
    ensures true !in e
    ensures Feed(Falses(32), e, g) == Falses(32)
    decreases |e|
  {
    if e == [] {
    } else {
      var n := |e| - 1;
      FeedLast(Falses(32), e, g);
      var v := Feed(Falses(32), e[..n], g);
      var x := v[0 := v[0] != e[n]];
      assert Turn(x, g)[31] == x[0];
      assert !x[0];
      forall i | j + 1 <= i < 32
        ensures !v[i]
      {
        assert v[i] == x[i] == Turn(x, g)[i - 1];
      }
      QuietRun(e[..n], j + 1, g);
      assert e == e[..n] + [e[n]];
      assert Turn(x, g) == Falses(32);
    }
  }

  /** Up to 32 message bits can be recovered from the register before and after them. */
  lemma ShortFeedIsInjective(w: Word, s: seq<bool>, t: seq<bool>, g: Word)
    requires g[31] && |s| == |t| <= 32 && Feed(w, s, g) == Feed(w, t, g)
    ensures s == t
  {
    FeedIsLinear(w, w, s, t, g);
    assert Xor(w, w) == Falses(32);
    assert Xor(Feed(w, s, g), Feed(w, t, g)) == Falses(32);
    QuietRun(XorBits(s, t), 0, g);
    assert forall i | 0 <= i < |s| :: XorBits(s, t)[i] in XorBits(s, t);
  }

  /** Two messages that differ, but only within 32 consecutive bits. */
  ghost predicate DifferInBurst(a: seq<bool>, b: seq<bool>, p: nat) {
    && |a| == |b|
    && a != b
    && forall i | 0 <= i < |a| && !(p <= i < p + 32) :: a[i] == b[i]
  }

  /** Every burst of at most 32 bits changes the register, wherever it starts. */
  lemma BurstChangesRegister(w: Word, a: seq<bool>, b: seq<bool>, p: nat, g: Word)
    requires g[31] && DifferInBurst(a, b, p)
    ensures Feed(w, a, g) != Feed(w, b, g)
  {
    var p := if p <= |a| then p else |a|;
    var q := if p + 32 <= |a| then p + 32 else |a|;
    var s, t := a[p..q], b[p..q];
    assert a[..p] == b[..p] && a[q..] == b[q..];
    assert a == a[..p] + (s + a[q..]) && b == a[..p] + (t + a[q..]);
    var v := Feed(w, a[..p], g);
    FeedAppends(w, a[..p], s + a[q..], g);
    FeedAppends(w, a[..p], t + a[q..], g);
    FeedAppends(v, s, a[q..], g);
    FeedAppends(v, t, a[q..], g);
    if Feed(w, a, g) == Feed(w, b, g) {
      FeedIsInjective(Feed(v, s, g), Feed(v, t, g), a[q..], g);
      ShortFeedIsInjective(v, s, t, g);
      assert false;
    }
  }

  /** The bound of 32 is exact: flipping the 33-bit pattern of the generator itself, at any
      position of any message, is invisible to the register. */
  lemma GeneratorPatternIsInvisible(w: Word, front: seq<bool>, mid: seq<bool>, back: seq<bool>, g: Word)
    requires |mid| == 33
    ensures Feed(w, front + XorBits(mid, [true] + g) + back, g) == Feed(w, front + mid + back, g)
  {
    var flipped := XorBits(mid, [true] + g);
    var v := Feed(w, front, g);
    FeedAppends(w, front + flipped, back, g);
    FeedAppends(w, front, flipped, g);
    FeedAppends(w, front + mid, back, g);
    FeedAppends(w, front, mid, g);
    var zero := Falses(32);
    FeedIsLinear(v, zero, mid, [true] + g, g);
    assert Xor(v, zero) == v;
    assert Absorb(zero, true, g) == g;
    assert ([true] + g)[1..] == g;
    TurnsAbsorb(g, g, g);
    assert g + Falses(0) == g && Xor(g, g) == zero;
    ZeroStaysZero(32, g);
    assert Feed(zero, [true] + g, g) == zero;
    assert Xor(Feed(v, mid, g), zero) == Feed(v, mid, g);
  }

  lemma {:induction false} ZeroStaysZero(n: nat, g: Word)
    ensures Turns(Falses(32), n, g) == Falses(32)
    decreases n
  {
    if n == 0 {
    } else {
      assert Turn(Falses(32), g) == Falses(32);
      ZeroStaysZero(n - 1, g);
    }
  }

  // ---- Parity

  /** Whether a list holds an odd number of ones. */
  predicate Odd(bits: seq<bool>)
    decreases |bits|
  {
    bits != [] && bits[0] != Odd(bits[1..])
  }

  lemma {:induction false} OddOfAppend(a: seq<bool>, b: seq<bool>)
    ensures Odd(a + b) == (Odd(a) != Odd(b))
    decreases |a|
  {
    if a == [] {
      assert a + b == b;
    } else {
      assert (a + b)[1..] == a[1..] + b;
      OddOfAppend(a[1..], b);
    }
  }

  lemma {:induction false} OddOfXor(a: seq<bool>, b: seq<bool>)
    requires |a| == |b|
    ensures Odd(XorBits(a, b)) == (Odd(a) != Odd(b))
    decreases |a|
  {
    if a == [] {
    } else {
      assert XorBits(a, b)[1..] == XorBits(a[1..], b[1..]);
      OddOfXor(a[1..], b[1..]);
    }
  }

  /** When the generator has an even number of terms (an odd number besides x^32), every
      absorbed one flips the parity of the register. */
  lemma AbsorbKeepsParity(w: Word, b: bool, g: Word)
    requires Odd(g)
    ensures Odd(Absorb(w, b, g)) == (Odd(w) != b)
  {
    var x := w[0 := w[0] != b];
    assert x[1..] == w[1..];
    var shifted := x[1..] + [false];
    OddOfAppend(x[1..], [false]);
    assert [false][1..] == [];
    OddOfXor(shifted, g);
  }

  lemma {:induction false} FeedKeepsParity(w: Word, bits: seq<bool>, g: Word)
    requires Odd(g)
    ensures Odd(Feed(w, bits, g)) == (Odd(w) != Odd(bits))
    decreases |bits|
  {
    if bits == [] {
    } else {
      AbsorbKeepsParity(w, bits[0], g);
      FeedKeepsParity(Absorb(w, bits[0], g), bits[1..], g);
    }
  }

  // ---- The remainder specification

  /** The polynomial divided by the CRC definition: the message followed by 32 zero bits, with
      the first 32 bits inverted by the all-ones initial register. */
  function Dividend(bits: seq<bool>): Poly {
    Add(PolyOf(bits + Falses(32)), PolyOf(Trues(32) + Falses(|bits|)))
  }

  function Generator(g: Word): Poly {
    Add({32}, PolyOf(g))
  }

  lemma TurnCoefficient(x: Word, g: Word, i: nat)
    ensures Coefficient(Turn(x, g), i) ==
            ((0 < i < 32 && Coefficient(x, i - 1)) != (x[0] && Coefficient(g, i)))
  {
    if i < 32 {
      var shifted := x[1..] + [false];
      assert Turn(x, g)[31 - i] == (shifted[31 - i] != (x[0] && g[31 - i]));
    }
  }

  lemma AbsorbDivides(w: Word, b: bool, g: Word)
    ensures PolyOf(Absorb(w, b, g)) ==
            Add(Add(TimesX(PolyOf(w)), if b then {32} else {}),
                if w[0] != b then Generator(g) else {})
  {
    var x := w[0 := w[0] != b];
    var rhs := Add(Add(TimesX(PolyOf(w)), if b then {32} else {}), if x[0] then Generator(g) else {});
    forall i: nat
      ensures i in PolyOf(Turn(x, g)) <==> i in rhs
    {
      hide Turn;
      TurnCoefficient(x, g, i);
      if 0 < i < 32 {
        assert x[32 - i] == w[32 - i];
        assert Coefficient(x, i - 1) == Coefficient(w, i - 1);
      } else if i == 32 {
        assert Coefficient(w, 31) == w[0];
      }
    }
  }

  lemma DividendGrows(bits: seq<bool>, b: bool)
    ensures Dividend(bits + [b]) == Add(TimesX(Dividend(bits)), if b then {32} else {})
  {
    var n := |bits|;
    var m, m' := bits + Falses(32), bits + [b] + Falses(32);
    var o, o' := Trues(32) + Falses(n), Trues(32) + Falses(n + 1);
    forall i: nat
      ensures Coefficient(m', i) == ((i > 0 && Coefficient(m, i - 1)) != (b && i == 32))
      ensures Coefficient(o', i) == (i > 0 && Coefficient(o, i - 1))
    {
      if 0 < i <= n + 32 {
        assert o'[n + 33 - 1 - i] == o[n + 32 - 1 - (i - 1)];
      }
    }
    assert |bits + [b]| == n + 1;
  }

  /** One more message bit takes one more step of long division. */
  lemma DivisionStep(d: Poly, w: Word, q: seq<bool>, b: bool, g: Word)
    requires d == Add(Product(q, Generator(g)), PolyOf(w))
    ensures Add(TimesX(d), if b then {32} else {}) ==
            Add(Product(q + [w[0] != b], Generator(g)), PolyOf(Absorb(w, b, g)))
  {
    var next := q + [w[0] != b];
    assert next[..|q|] == q;
    AbsorbDivides(w, b, g);
    Regroup(Product(q, Generator(g)), PolyOf(w), if b then {32} else {}, if w[0] != b then Generator(g) else {});
  }

  lemma Regroup(a: Poly, w: Poly, b: Poly, g: Poly)
    ensures Add(TimesX(Add(a, w)), b) == Add(Add(TimesX(a), g), Add(Add(TimesX(w), b), g))
  {
  }

  /** The register always holds the remainder of the message read so far. */
  lemma {:induction false} RegisterIsRemainder(bits: seq<bool>, g: Word) returns (q: seq<bool>)
    ensures Dividend(bits) == Add(Product(q, Generator(g)), PolyOf(Feed(Trues(32), bits, g)))
    decreases |bits|
  {
    hide Absorb, Generator, Product, PolyOf, Dividend;
    if bits == [] {
      q := [];
      EmptyDividend(g);
    } else {
      var n := |bits| - 1;
      var front, b := bits[..n], bits[n];
      var q' := RegisterIsRemainder(front, g);
      var w := Feed(Trues(32), front, g);
      FeedLast(Trues(32), bits, g);
      assert bits == front + [b];
      DividendGrows(front, b);
      DivisionStep(Dividend(front), w, q', b, g);
      q := q' + [w[0] != b];
    }
  }

  lemma EmptyDividend(g: Word)
    ensures Dividend([]) == Add(Product([], Generator(g)), PolyOf(Feed(Trues(32), [], g)))
  {
    assert Trues(32) + Falses(0) == Trues(32);
    assert forall i: nat :: !Coefficient([] + Falses(32), i);
  }

  /** The register is the remainder of the dividend modulo the generator, and the only one. */
  lemma RegisterIsTheRemainder(bits: seq<bool>, g: Word, r: Poly)
    ensures IsRemainder(Dividend(bits), Generator(g), 32, r) <==> r == PolyOf(Feed(Trues(32), bits, g))
  {
    var w := PolyOf(Feed(Trues(32), bits, g));
    var q := RegisterIsRemainder(bits, g);
    assert IsRemainder(Dividend(bits), Generator(g), 32, w);
    assert 32 !in PolyOf(g) by {
      assert !Coefficient(g, 32);
    }
    assert HasDegree(Generator(g), 32);
    if IsRemainder(Dividend(bits), Generator(g), 32, r) {
      RemainderIsUnique(Dividend(bits), Generator(g), 32, r, w);
    }
  }

  // ---- Exactly which changes are invisible

  lemma DividendsDiffer(a: seq<bool>, b: seq<bool>)
    requires |a| == |b|
    ensures PolyOf(XorBits(a, b) + Falses(32)) == Add(Dividend(a), Dividend(b))
  {
    var e, m, n := XorBits(a, b) + Falses(32), a + Falses(32), b + Falses(32);
    forall i: nat
      ensures Coefficient(e, i) == (Coefficient(m, i) != Coefficient(n, i))
    {
      if i < |e| {
        assert e[|e| - 1 - i] == (m[|e| - 1 - i] != n[|e| - 1 - i]);
      }
    }
    forall i: nat
      ensures i in PolyOf(e) <==> i in Add(Dividend(a), Dividend(b))
    {
      assert i in PolyOf(e) <==> Coefficient(e, i);
      assert i in PolyOf(m) <==> Coefficient(m, i);
      assert i in PolyOf(n) <==> Coefficient(n, i);
    }
  }

  lemma DegreeOfGenerator(g: Word)
    ensures HasDegree(Generator(g), 32)
  {
    assert 32 !in PolyOf(g) by {
      assert !Coefficient(g, 32);
    }
  }

  /** Two messages of one length leave the same register exactly when the polynomial of their
      difference, times x^32, is a multiple of the generator. */
  lemma SameRegisterIff(a: seq<bool>, b: seq<bool>, g: Word)
    requires |a| == |b|
    ensures Feed(Trues(32), a, g) == Feed(Trues(32), b, g) <==>
            IsMultiple(PolyOf(XorBits(a, b) + Falses(32)), Generator(g))
  {
    hide Feed, Generator, Dividend, Product, PolyOf, HasDegree;
    var u, v := Feed(Trues(32), a, g), Feed(Trues(32), b, g);
    var d := PolyOf(XorBits(a, b) + Falses(32));
    DividendsDiffer(a, b);
    var q1 := RegisterIsRemainder(a, g);
    var q2 := RegisterIsRemainder(b, g);
    var q := ProductsAdd(q1, q2, Generator(g));
    var r := Add(PolyOf(u), PolyOf(v));
    FourTerms(Product(q1, Generator(g)), PolyOf(u), Product(q2, Generator(g)), PolyOf(v));
    assert d == Add(Product(q, Generator(g)), r);
    if u == v {
      SelfCancels(PolyOf(u));
      ZeroAdds(Product(q, Generator(g)));
    }
    if IsMultiple(d, Generator(g)) {
      var p: seq<bool> :| d == Product(p, Generator(g));
      ZeroAdds(Product(p, Generator(g)));
      SmallSum(u, v);
      DegreeOfGenerator(g);
      assert IsRemainder(d, Generator(g), 32, {}) && IsRemainder(d, Generator(g), 32, r);
      RemainderIsUnique(d, Generator(g), 32, {}, r);
      EmptySum(PolyOf(u), PolyOf(v));
      PolyOfIsInjective(u, v);
    }
  }

  lemma FourTerms(a: Poly, b: Poly, c: Poly, d: Poly)
    ensures Add(Add(a, b), Add(c, d)) == Add(Add(a, c), Add(b, d))
  {
  }

  lemma SelfCancels(a: Poly)
    ensures Add(a, a) == {}
  {
  }

  lemma ZeroAdds(a: Poly)
    ensures Add(a, {}) == a
  {
  }

  lemma EmptySum(a: Poly, b: Poly)
    requires Add(a, b) == {}
    ensures a == b
  {
    assert forall i: nat :: i in a <==> i in b;
  }

  lemma SmallSum(u: Word, v: Word)
    ensures forall i | i in Add(PolyOf(u), PolyOf(v)) :: i < 32
  {
    forall i: nat | i >= 32
      ensures i !in PolyOf(u) && i !in PolyOf(v)
    {
      assert !Coefficient(u, i) && !Coefficient(v, i);
    }
  }

  /** Of all changes within 33 consecutive bits exactly one is invisible: the pattern of the
      generator itself. */
  lemma OnlyThePatternHides(w: Word, front: seq<bool>, s: seq<bool>, t: seq<bool>, back: seq<bool>, g: Word)
    requires g[31] && |s| == |t| == 33 && s != t
    ensures Feed(w, front + s + back, g) == Feed(w, front + t + back, g) <==> XorBits(s, t) == [true] + g
  {
    hide Absorb;
    if Feed(w, front + s + back, g) == Feed(w, front + t + back, g) {
      FeedAppends(w, front + s, back, g);
      FeedAppends(w, front, s, g);
      FeedAppends(w, front + t, back, g);
      FeedAppends(w, front, t, g);
      var v := Feed(w, front, g);
      FeedIsInjective(Feed(v, s, g), Feed(v, t, g), back, g);
      QuietPattern(v, s, t, g);
    }
    if XorBits(s, t) == [true] + g {
      GeneratorPatternIsInvisible(w, front, t, back, g);
      assert XorBits(t, [true] + g) == s;
    }
  }

  lemma QuietPattern(v: Word, s: seq<bool>, t: seq<bool>, g: Word)
    requires g[31] && |s| == |t| == 33 && s != t && Feed(v, s, g) == Feed(v, t, g)
    ensures XorBits(s, t) == [true] + g
  {
    hide Absorb, Feed;
    if s[0] == t[0] {
      StartsAlike(v, s, t, g);
    } else {
      PatternAlone(v, t, g);
      StartsAlike(v, s, XorBits(t, [true] + g), g);
      XorTwice(t, [true] + g);
    }
  }

  lemma PatternAlone(v: Word, t: seq<bool>, g: Word)
    requires |t| == 33
    ensures Feed(v, XorBits(t, [true] + g), g) == Feed(v, t, g)
  {
    hide Feed, XorBits;
    GeneratorPatternIsInvisible(v, [], t, [], g);
    EmptyEnds(XorBits(t, [true] + g));
    EmptyEnds(t);
  }

  lemma EmptyEnds(x: seq<bool>)
    ensures [] + x + [] == x
  {
  }

  lemma XorTwice(t: seq<bool>, p: seq<bool>)
    requires |t| == |p|
    ensures XorBits(XorBits(t, p), t) == p
  {
  }

  lemma StartsAlike(v: Word, s: seq<bool>, t: seq<bool>, g: Word)
    requires g[31] && |s| == |t| == 33 && s[0] == t[0] && Feed(v, s, g) == Feed(v, t, g)
    ensures s == t
  {
    hide Absorb;
    ShortFeedIsInjective(Absorb(v, s[0], g), s[1..], t[1..], g);
    assert s == [s[0]] + s[1..] && t == [t[0]] + t[1..];
  }
}
