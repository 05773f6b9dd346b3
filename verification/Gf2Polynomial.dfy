/** Polynomials over GF(2), represented by the set of exponents with coefficient 1.
    This is the arithmetic in which the CRC standards define a checksum; it shares no
    definition with the shift-register loops it is used to specify. */
module Gf2Polynomial {

  type Poly = set<nat>

  /** Sum (and difference) of two polynomials. */
  function Add(a: Poly, b: Poly): (r: Poly)
    ensures forall i: nat :: i in r <==> ((i in a) != (i in b))
  {
    (a - b) + (b - a)
  }

  /** Multiplication by x. */
  function TimesX(a: Poly): (r: Poly)
    ensures forall i: nat :: i in r <==> i > 0 && i - 1 in a
  {
    var r := set i | i in a :: i + 1;
    assert forall i: nat :: i in a ==> i + 1 in r;
    r
  }

  /** The coefficient of x^i in a list of coefficients, highest exponent first. */
  predicate Coefficient(bits: seq<bool>, i: nat) {
    i < |bits| && bits[|bits| - 1 - i]
  }

  /** The polynomial whose coefficients are `bits`, highest exponent first. */
  function PolyOf(bits: seq<bool>): (r: Poly)
    ensures forall i: nat :: i in r <==> Coefficient(bits, i)
  {
    set i: nat | 0 <= i < |bits| && Coefficient(bits, i)
  }

  /** The product of the polynomial with coefficients `q` (highest exponent first) and `g`. */
  function Product(q: seq<bool>, g: Poly): Poly
  {
    if q == [] then {}
    else Add(TimesX(Product(q[..|q| - 1], g)), if q[|q| - 1] then g else {})
  }

  /** `r` is a remainder of `p` modulo a generator `g` of degree `n`. */
  ghost predicate IsRemainder(p: Poly, g: Poly, n: nat, r: Poly) {
    && (forall i | i in r :: i < n)
    && exists q: seq<bool> :: p == Add(Product(q, g), r)
  }

  /** `p` is a multiple of `g`. */
  ghost predicate IsMultiple(p: Poly, g: Poly) {
    exists q: seq<bool> :: p == Product(q, g)
  }

  /** `g` has degree exactly `n`. */
  ghost predicate HasDegree(g: Poly, n: nat) {
    n in g && forall i | i in g :: i <= n
  }

  lemma {:induction false} LeadingZero(q: seq<bool>, g: Poly)
    ensures Product([false] + q, g) == Product(q, g)
  {
    if q == [] {
      assert [false][..0] == [];
    } else {
      var front := q[..|q| - 1];
      assert ([false] + q)[..|q|] == [false] + front;
      LeadingZero(front, g);
    }
  }

  lemma {:induction false} PadZeros(q: seq<bool>, g: Poly, n: nat) returns (padded: seq<bool>)
    ensures |padded| == n + |q| && Product(padded, g) == Product(q, g)
  {
    if n == 0 {
      padded := q;
    } else {
      var rest := PadZeros(q, g, n - 1);
      LeadingZero(rest, g);
      padded := [false] + rest;
    }
  }

  function XorBits(a: seq<bool>, b: seq<bool>): (r: seq<bool>)
    requires |a| == |b|
    ensures |r| == |a| && forall i | 0 <= i < |r| :: r[i] == (a[i] != b[i])
  {
    seq(|a|, i requires 0 <= i < |a| => a[i] != b[i])
  }

  lemma {:induction false} ProductIsLinear(a: seq<bool>, b: seq<bool>, g: Poly)
    requires |a| == |b|
    ensures Product(XorBits(a, b), g) == Add(Product(a, g), Product(b, g))
  {
    if a == [] {
    } else {
      var n := |a| - 1;
      assert XorBits(a, b)[..n] == XorBits(a[..n], b[..n]);
      ProductIsLinear(a[..n], b[..n], g);
    }
  }

  /** A nonzero multiple of a degree-n generator has degree at least n. */
  lemma {:induction false} MultipleHasHighTerm(q: seq<bool>, g: Poly, n: nat) returns (top: nat)
    requires HasDegree(g, n) && true in q
    ensures top in Product(q, g) && top >= n
  {
    var front := q[..|q| - 1];
    if true in front {
      top := MultipleHasHighTerm(front, g, n);
      top := top + 1;
    } else {
      assert q[|q| - 1];
      NoTermsIsZero(front, g);
      top := n;
    }
  }

  lemma {:induction false} NoTermsIsZero(q: seq<bool>, g: Poly)
    requires true !in q
    ensures Product(q, g) == {}
  {
    if q == [] {
    } else {
      NoTermsIsZero(q[..|q| - 1], g);
    }
  }

  /** Division by a generator of known degree leaves exactly one remainder. */
  lemma RemainderIsUnique(p: Poly, g: Poly, n: nat, r1: Poly, r2: Poly)
    requires HasDegree(g, n)
    requires IsRemainder(p, g, n, r1) && IsRemainder(p, g, n, r2)
    ensures r1 == r2
  {
    var q1: seq<bool> :| p == Add(Product(q1, g), r1);
    var q2: seq<bool> :| p == Add(Product(q2, g), r2);
    var a := PadZeros(q1, g, |q2|);
    var b := PadZeros(q2, g, |q1|);
    ProductIsLinear(a, b, g);
    var difference := Product(XorBits(a, b), g);
    assert forall i: nat :: i in difference <==> ((i in r1) != (i in r2));
    if true in XorBits(a, b) {
      var top := MultipleHasHighTerm(XorBits(a, b), g, n);
      assert false;
    } else {
      NoTermsIsZero(XorBits(a, b), g);
    }
  }

  /** Two products of a generator add up to a third. */
  lemma ProductsAdd(q1: seq<bool>, q2: seq<bool>, g: Poly) returns (q: seq<bool>)
    ensures Product(q, g) == Add(Product(q1, g), Product(q2, g))
  {
    var a := PadZeros(q1, g, |q2|);
    var b := PadZeros(q2, g, |q1|);
    ProductIsLinear(a, b, g);
    q := XorBits(a, b);
  }

  /** Coefficient lists of one length stand for different polynomials when they differ. */
  lemma PolyOfIsInjective(a: seq<bool>, b: seq<bool>)
    requires |a| == |b| && PolyOf(a) == PolyOf(b)
    ensures a == b
  {
    forall i | 0 <= i < |a|
      ensures a[i] == b[i]
    {
      var e := |a| - 1 - i;
      assert e in PolyOf(a) <==> Coefficient(a, e);
      assert e in PolyOf(b) <==> Coefficient(b, e);
    }
  }
}
