/** Arithmetic in GF(2^8): the field product as polynomial multiplication followed by
    reduction, and the two shortcuts the cipher uses in its place. */
module GF256 {

  /** Sum of two polynomials over GF(2). */
  function Plus(p: bv16, q: bv16): bv16 {
    p ^ q
  }

  predicate Has(p: bv16, bit: bv16) {
    p & bit != 0
  }

  /** v where y has the bit, and 0 elsewhere. */
  function Term(y: bv8, bit: bv8, v: bv16): bv16 {
    if y & bit != 0 then v else 0
  }

  function LowTerms(w: bv16, y: bv8): bv16 {
    Plus(Plus(Plus(Term(y, 0x01, w), Term(y, 0x02, w << 1)), Term(y, 0x04, w << 2)), Term(y, 0x08, w << 3))
  }

  function HighTerms(w: bv16, y: bv8): bv16 {
    Plus(Plus(Plus(Term(y, 0x10, w << 4), Term(y, 0x20, w << 5)), Term(y, 0x40, w << 6)), Term(y, 0x80, w << 7))
  }

  /** Product of two polynomials over GF(2) of degree at most 7. */
  function PolyMul(x: bv8, y: bv8): bv16 {
    Plus(LowTerms(x as bv16, y), HighTerms(x as bv16, y))
  }

  /** One step of long division by x^8 + x^4 + x^3 + x + 1. */
  function Cancel(p: bv16, bit: bv16, multiple: bv16): bv16 {
    if Has(p, bit) then Plus(p, multiple) else p
  }

  function LowByte(p: bv16): bv8 {
    (p & 0xff) as bv8
  }

  /** Remainder modulo x^8 + x^4 + x^3 + x + 1. */
  function Reduce(p: bv16): bv8 {
    var p := Cancel(p, 0x4000, 0x46c0);
    var p := Cancel(p, 0x2000, 0x2360);
    var p := Cancel(p, 0x1000, 0x11b0);
    var p := Cancel(p, 0x0800, 0x08d8);
    var p := Cancel(p, 0x0400, 0x046c);
    var p := Cancel(p, 0x0200, 0x0236);
    var p := Cancel(p, 0x0100, 0x011b);
    LowByte(p)
  }

  /** The field product of section 4.2 of FIPS 197. */
  function GfMul(x: bv8, y: bv8): bv8 {
    Reduce(PolyMul(x, y))
  }

  /** xtime: doubling, with the reduction folded into a product by the top bit. */
  function XTime(x: bv8): bv8 {
    (x << 1) ^ (((x >> 7) & 1) * 0x1b)
  }

  function Add(x: bv8, y: bv8): bv8 {
    x ^ y
  }

  function Sum5(a: bv8, b: bv8, c: bv8, d: bv8, e: bv8): bv8 {
    Add(Add(Add(Add(a, b), c), d), e)
  }

  function Times(x: bv8, y: bv8): bv8 {
    x * y
  }

  /** Multiply: the doublings that the low five bits of y select. */
  function Multiply(x: bv8, y: bv8): bv8 {
    Sum5(Times(y & 1, x), Times((y >> 1) & 1, XTime(x)), Times((y >> 2) & 1, XTime(XTime(x))),
         Times((y >> 3) & 1, XTime(XTime(XTime(x)))), Times((y >> 4) & 1, XTime(XTime(XTime(XTime(x))))))
  }

  lemma XTimeIsProduct(x: bv8)
    ensures XTime(x) == GfMul(x, 2)
  {
  }

  // ---- Both products as sums of repeated doublings ----

  lemma AddChain(a: bv8, b: bv8, c: bv8, d: bv8, e: bv8)
    ensures Add(Add(Add(Add(a, b), c), d), e) == a ^ b ^ c ^ d ^ e
  {
  }

  lemma Sum5IsXor(a: bv8, b: bv8, c: bv8, d: bv8, e: bv8)
    ensures Sum5(a, b, c, d, e) == a ^ b ^ c ^ d ^ e
  {
    AddChain(a, b, c, d, e);
  }

  function Bit(y: bv8, bit: bv8, v: bv8): bv8 {
    if y & bit != 0 then v else 0
  }

  /** The doublings that the low five bits of y select. */
  function LowBits(y: bv8, x0: bv8, x1: bv8, x2: bv8, x3: bv8, x4: bv8): bv8 {
    Sum5(Bit(y, 0x01, x0), Bit(y, 0x02, x1), Bit(y, 0x04, x2), Bit(y, 0x08, x3), Bit(y, 0x10, x4))
  }

  predicate SingleBit(bit: bv16) {
    bit != 0 && bit & (bit - 1) == 0
  }

  lemma PlusMasked(p: bv16, q: bv16, bit: bv16)
    ensures Plus(p, q) & bit == Plus(p & bit, q & bit)
  {
  }

  lemma MaskedBit(p: bv16, bit: bv16)
    requires SingleBit(bit)
    ensures p & bit == 0 || p & bit == bit
  {
  }

  lemma PlusHas(p: bv16, q: bv16, bit: bv16)
    requires SingleBit(bit)
    ensures Has(Plus(p, q), bit) <==> Has(p, bit) != Has(q, bit)
  {
    PlusMasked(p, q, bit);
    MaskedBit(p, bit);
    MaskedBit(q, bit);
    PlusCases(bit);
    hide Plus, SingleBit;
  }

  lemma PlusCases(v: bv16)
    ensures Plus(0, v) == v == Plus(v, 0) && Plus(v, v) == 0
  {
  }

  lemma PlusSwaps(p: bv16, q: bv16, m: bv16)
    ensures Plus(Plus(p, m), q) == Plus(Plus(p, q), m)
  {
  }

  lemma PlusRegroups(p: bv16, q: bv16, m: bv16)
    ensures Plus(p, Plus(q, m)) == Plus(Plus(p, q), m)
  {
  }

  lemma PlusTwice(p: bv16, m: bv16)
    ensures Plus(Plus(p, m), m) == p
  {
  }

  lemma CancelAdds(p: bv16, q: bv16, bit: bv16, multiple: bv16)
    requires SingleBit(bit)
    ensures Cancel(Plus(p, q), bit, multiple) == Plus(Cancel(p, bit, multiple), Cancel(q, bit, multiple))
  {
    hide Plus, Has, SingleBit;
    PlusHas(p, q, bit);
    PlusSwaps(p, q, multiple);
    PlusRegroups(p, q, multiple);
    PlusRegroups(Plus(p, multiple), q, multiple);
    PlusTwice(Plus(p, q), multiple);
  }

  lemma LowByteAdds(p: bv16, q: bv16)
    ensures LowByte(Plus(p, q)) == Add(LowByte(p), LowByte(q))
  {
  }

  lemma ReduceAdds(p: bv16, q: bv16)
    ensures Reduce(Plus(p, q)) == Add(Reduce(p), Reduce(q))
  {
    assert SingleBit(0x4000) && SingleBit(0x2000) && SingleBit(0x1000) && SingleBit(0x0800);
    assert SingleBit(0x0400) && SingleBit(0x0200) && SingleBit(0x0100);
    hide Plus, Add, Cancel, LowByte, SingleBit;
    var x, y := p, q;
    CancelAdds(x, y, 0x4000, 0x46c0);
    x, y := Cancel(x, 0x4000, 0x46c0), Cancel(y, 0x4000, 0x46c0);
    CancelAdds(x, y, 0x2000, 0x2360);
    x, y := Cancel(x, 0x2000, 0x2360), Cancel(y, 0x2000, 0x2360);
    CancelAdds(x, y, 0x1000, 0x11b0);
    x, y := Cancel(x, 0x1000, 0x11b0), Cancel(y, 0x1000, 0x11b0);
    CancelAdds(x, y, 0x0800, 0x08d8);
    x, y := Cancel(x, 0x0800, 0x08d8), Cancel(y, 0x0800, 0x08d8);
    CancelAdds(x, y, 0x0400, 0x046c);
    x, y := Cancel(x, 0x0400, 0x046c), Cancel(y, 0x0400, 0x046c);
    CancelAdds(x, y, 0x0200, 0x0236);
    x, y := Cancel(x, 0x0200, 0x0236), Cancel(y, 0x0200, 0x0236);
    CancelAdds(x, y, 0x0100, 0x011b);
    x, y := Cancel(x, 0x0100, 0x011b), Cancel(y, 0x0100, 0x011b);
    LowByteAdds(x, y);
  }

  lemma ReduceTerm(y: bv8, bit: bv8, v: bv16)
    ensures Reduce(Term(y, bit, v)) == Bit(y, bit, Reduce(v))
  {
  }

  lemma Doubled0(x: bv8)
    ensures Reduce(x as bv16) == x
  {
  }

  lemma Doubled1(x: bv8)
    ensures Reduce(x as bv16 << 1) == XTime(x)
  {
  }

  lemma Doubled2(x: bv8)
    ensures Reduce(x as bv16 << 2) == XTime(XTime(x))
  {
  }

  lemma Doubled3(x: bv8)
    ensures Reduce(x as bv16 << 3) == XTime(XTime(XTime(x)))
  {
  }

  lemma Doubled4(x: bv8)
    ensures Reduce(x as bv16 << 4) == XTime(XTime(XTime(XTime(x))))
  {
  }

  lemma TimesBit(b: bv8, v: bv8)
    requires b == 0 || b == 1
    ensures Times(b, v) == if b == 0 then 0 else v
  {
  }

  /** Multiply reads the low five bits of y. */
  lemma MultiplyBits(x: bv8, y: bv8)
    ensures var x1 := XTime(x);
            var x2 := XTime(x1);
            var x3 := XTime(x2);
            Multiply(x, y) == LowBits(y, x, x1, x2, x3, XTime(x3))
  {
    hide XTime, Sum5, Bit, Times;
    BitTimes0(y, x);
    BitTimes1(y, XTime(x));
    BitTimes2(y, XTime(XTime(x)));
    BitTimes3(y, XTime(XTime(XTime(x))));
    BitTimes4(y, XTime(XTime(XTime(XTime(x)))));
  }

  /** Below 32 so does the field product. */
  lemma ProductBits(x: bv8, y: bv8)
    requires y < 0x20
    ensures var x1 := XTime(x);
            var x2 := XTime(x1);
            var x3 := XTime(x2);
            GfMul(x, y) == LowBits(y, x, x1, x2, x3, XTime(x3))
  {
    hide XTime, Reduce, Term, Add, Bit, Plus, HighTerms;
    var w := x as bv16;
    var t0, t1, t2, t3 := Term(y, 0x01, w), Term(y, 0x02, w << 1), Term(y, 0x04, w << 2), Term(y, 0x08, w << 3);
    HighTermsBelow32(w, y);
    ReduceAdds(LowTerms(w, y), Term(y, 0x10, w << 4));
    ReduceAdds(Plus(Plus(t0, t1), t2), t3);
    ReduceAdds(Plus(t0, t1), t2);
    ReduceAdds(t0, t1);
    ReduceTerm(y, 0x01, w);
    ReduceTerm(y, 0x02, w << 1);
    ReduceTerm(y, 0x04, w << 2);
    ReduceTerm(y, 0x08, w << 3);
    ReduceTerm(y, 0x10, w << 4);
    Doubled0(x);
    Doubled1(x);
    Doubled2(x);
    Doubled3(x);
    Doubled4(x);
  }

  lemma HighTermsBelow32(w: bv16, y: bv8)
    requires y < 0x20
    ensures HighTerms(w, y) == Term(y, 0x10, w << 4)
  {
    assert y & 0x20 == 0 && y & 0x40 == 0 && y & 0x80 == 0;
  }

  lemma BitTimes0(y: bv8, v: bv8)
    ensures Times(y & 1, v) == Bit(y, 0x01, v)
  {
    TimesBit(y & 1, v);
    hide Times;
  }

  lemma BitTimes1(y: bv8, v: bv8)
    ensures Times((y >> 1) & 1, v) == Bit(y, 0x02, v)
  {
    TimesBit((y >> 1) & 1, v);
    hide Times;
  }

  lemma BitTimes2(y: bv8, v: bv8)
    ensures Times((y >> 2) & 1, v) == Bit(y, 0x04, v)
  {
    TimesBit((y >> 2) & 1, v);
    hide Times;
  }

  lemma BitTimes3(y: bv8, v: bv8)
    ensures Times((y >> 3) & 1, v) == Bit(y, 0x08, v)
  {
    TimesBit((y >> 3) & 1, v);
    hide Times;
  }

  lemma BitTimes4(y: bv8, v: bv8)
    ensures Times((y >> 4) & 1, v) == Bit(y, 0x10, v)
  {
    TimesBit((y >> 4) & 1, v);
    hide Times;
  }

  lemma MultiplyIsProduct(x: bv8, y: bv8)
    requires y < 0x20
    ensures Multiply(x, y) == GfMul(x, y)
  {
    hide *;
    MultiplyBits(x, y);
    ProductBits(x, y);
  }

  /** Multiply looks at five bits of its second argument, so it is the field product
      for exactly the multipliers that have no more than five. */
  lemma MultiplyIsProductBelow32(y: bv8)
    ensures (forall x :: Multiply(x, y) == GfMul(x, y)) <==> y < 0x20
  {
    if y < 0x20 {
      forall x
        ensures Multiply(x, y) == GfMul(x, y)
      {
        MultiplyIsProduct(x, y);
      }
    } else {
      assert Multiply(1, y) != GfMul(1, y);
    }
  }

  // ---- A column of four bytes, mixed and unmixed ----

  lemma AddRules(a: bv8, b: bv8, c: bv8)
    ensures Add(a, 0) == a && Add(0, a) == a
    ensures Add(a, b) == Add(b, a)
    ensures Add(Add(a, b), c) == Add(Add(c, b), a)
  {
  }

  /** The multipliers of MixColumns and of its inverse, as sums of repeated doublings. */
  lemma Product3(x: bv8)
    ensures GfMul(x, 0x03) == Add(XTime(x), x)
  {
    hide XTime, GfMul, Add;
    ProductBits(x, 0x03);
    AddRules(x, XTime(x), 0);
    AddRules(Add(x, XTime(x)), 0, 0);
  }

  lemma Product9(x: bv8)
    ensures GfMul(x, 0x09) == Add(XTime(XTime(XTime(x))), x)
  {
    hide XTime, GfMul, Add;
    ProductBits(x, 0x09);
    AddRules(x, XTime(XTime(XTime(x))), 0);
    AddRules(Add(x, XTime(XTime(XTime(x)))), 0, 0);
  }

  lemma ProductB(x: bv8)
    ensures GfMul(x, 0x0b) == Add(Add(XTime(XTime(XTime(x))), XTime(x)), x)
  {
    hide XTime, GfMul, Add;
    ProductBits(x, 0x0b);
    AddRules(x, XTime(x), XTime(XTime(XTime(x))));
    AddRules(Add(x, XTime(x)), 0, 0);
    AddRules(Add(Add(x, XTime(x)), XTime(XTime(XTime(x)))), 0, 0);
  }

  lemma ProductD(x: bv8)
    ensures GfMul(x, 0x0d) == Add(Add(XTime(XTime(XTime(x))), XTime(XTime(x))), x)
  {
    hide XTime, GfMul, Add;
    ProductBits(x, 0x0d);
    AddRules(x, XTime(XTime(x)), XTime(XTime(XTime(x))));
    AddRules(Add(x, XTime(XTime(x))), 0, 0);
    AddRules(Add(Add(x, XTime(XTime(x))), XTime(XTime(XTime(x)))), 0, 0);
  }

  lemma ProductE(x: bv8)
    ensures GfMul(x, 0x0e) == Add(Add(XTime(XTime(XTime(x))), XTime(XTime(x))), XTime(x))
  {
    hide XTime, GfMul, Add;
    ProductBits(x, 0x0e);
    AddRules(XTime(x), XTime(XTime(x)), XTime(XTime(XTime(x))));
    AddRules(Add(XTime(x), XTime(XTime(x))), 0, 0);
    AddRules(Add(Add(XTime(x), XTime(XTime(x))), XTime(XTime(XTime(x)))), 0, 0);
  }

  function Sum4(a: bv8, b: bv8, c: bv8, d: bv8): bv8 {
    a ^ b ^ c ^ d
  }

  /** {02}a + {03}b + c + d: one row of the matrix of section 5.1.3 of FIPS 197. */
  function MixByte(a: bv8, b: bv8, c: bv8, d: bv8): bv8 {
    Sum4(GfMul(a, 0x02), GfMul(b, 0x03), c, d)
  }

  /** {0e}a + {0b}b + {0d}c + {09}d: one row of the matrix of section 5.3.3 of FIPS 197. */
  function UnmixByte(a: bv8, b: bv8, c: bv8, d: bv8): bv8 {
    Sum4(GfMul(a, 0x0e), GfMul(b, 0x0b), GfMul(c, 0x0d), GfMul(d, 0x09))
  }

  // Both rows written out by doublings, so that the products can cancel term by term.

  lemma XTimeAdd(x: bv8, y: bv8)
    ensures XTime(Add(x, y)) == Add(XTime(x), XTime(y))
  {
  }

  lemma XTimeSum5(a: bv8, b: bv8, c: bv8, d: bv8, e: bv8)
    ensures XTime(Sum5(a, b, c, d, e)) == Sum5(XTime(a), XTime(b), XTime(c), XTime(d), XTime(e))
  {
    XTimeAdd(Add(Add(Add(a, b), c), d), e);
    XTimeAdd(Add(Add(a, b), c), d);
    XTimeAdd(Add(a, b), c);
    XTimeAdd(a, b);
  }

  function Mixed(a: bv8, b: bv8, c: bv8, d: bv8): bv8 {
    Sum5(XTime(a), XTime(b), b, c, d)
  }

  /** The eleven terms of one byte of an unmixed column. */
  function Sum11(a3: bv8, a2: bv8, a1: bv8, b3: bv8, b1: bv8, b0: bv8,
                 c3: bv8, c2: bv8, c0: bv8, d3: bv8, d0: bv8): bv8 {
    (a3 ^ a2 ^ a1) ^ (b3 ^ b1 ^ b0) ^ (c3 ^ c2 ^ c0) ^ (d3 ^ d0)
  }

  function Unmixed(a: bv8, b: bv8, c: bv8, d: bv8): bv8 {
    var a1, b1, c1, d1 := XTime(a), XTime(b), XTime(c), XTime(d);
    var a2, b2, c2, d2 := XTime(a1), XTime(b1), XTime(c1), XTime(d1);
    Sum11(XTime(a2), a2, a1, XTime(b2), b1, b, XTime(c2), c2, c, XTime(d2), d)
  }

  /** The doublings of the four bytes cancel in pairs and leave the first byte. */
  lemma DoublingsCancel(a0: bv8, a1: bv8, a2: bv8, a3: bv8, a4: bv8,
                        b0: bv8, b1: bv8, b2: bv8, b3: bv8, b4: bv8,
                        c0: bv8, c1: bv8, c2: bv8, c3: bv8, c4: bv8,
                        d0: bv8, d1: bv8, d2: bv8, d3: bv8, d4: bv8)
    ensures Sum11(a4 ^ b4 ^ b3 ^ c3 ^ d3, a3 ^ b3 ^ b2 ^ c2 ^ d2, a2 ^ b2 ^ b1 ^ c1 ^ d1,
                  b4 ^ c4 ^ c3 ^ d3 ^ a3, b2 ^ c2 ^ c1 ^ d1 ^ a1, b1 ^ c1 ^ c0 ^ d0 ^ a0,
                  c4 ^ d4 ^ d3 ^ a3 ^ b3, c3 ^ d3 ^ d2 ^ a2 ^ b2, c1 ^ d1 ^ d0 ^ a0 ^ b0,
                  d4 ^ a4 ^ a3 ^ b3 ^ c3, d1 ^ a1 ^ a0 ^ b0 ^ c0) == a0
  {
  }

  lemma SumsCancel(a0: bv8, a1: bv8, a2: bv8, a3: bv8, a4: bv8,
                   b0: bv8, b1: bv8, b2: bv8, b3: bv8, b4: bv8,
                   c0: bv8, c1: bv8, c2: bv8, c3: bv8, c4: bv8,
                   d0: bv8, d1: bv8, d2: bv8, d3: bv8, d4: bv8)
    ensures Sum11(Sum5(a4, b4, b3, c3, d3), Sum5(a3, b3, b2, c2, d2), Sum5(a2, b2, b1, c1, d1),
                  Sum5(b4, c4, c3, d3, a3), Sum5(b2, c2, c1, d1, a1), Sum5(b1, c1, c0, d0, a0),
                  Sum5(c4, d4, d3, a3, b3), Sum5(c3, d3, d2, a2, b2), Sum5(c1, d1, d0, a0, b0),
                  Sum5(d4, a4, a3, b3, c3), Sum5(d1, a1, a0, b0, c0)) == a0
  {
    Sum5IsXor(a4, b4, b3, c3, d3); Sum5IsXor(a3, b3, b2, c2, d2); Sum5IsXor(a2, b2, b1, c1, d1);
    Sum5IsXor(b4, c4, c3, d3, a3); Sum5IsXor(b2, c2, c1, d1, a1); Sum5IsXor(b1, c1, c0, d0, a0);
    Sum5IsXor(c4, d4, d3, a3, b3); Sum5IsXor(c3, d3, d2, a2, b2); Sum5IsXor(c1, d1, d0, a0, b0);
    Sum5IsXor(d4, a4, a3, b3, c3); Sum5IsXor(d1, a1, a0, b0, c0);
    DoublingsCancel(a0, a1, a2, a3, a4, b0, b1, b2, b3, b4, c0, c1, c2, c3, c4, d0, d1, d2, d3, d4);
  }

  lemma MixedDoublings(a: bv8, b: bv8, c: bv8, d: bv8)
    ensures
      var a1, b1, c1, d1 := XTime(a), XTime(b), XTime(c), XTime(d);
      var a2, b2, c2, d2 := XTime(a1), XTime(b1), XTime(c1), XTime(d1);
      var a3, b3, c3, d3 := XTime(a2), XTime(b2), XTime(c2), XTime(d2);
      var m1 := XTime(Mixed(a, b, c, d));
      && m1 == Sum5(a2, b2, b1, c1, d1)
      && XTime(m1) == Sum5(a3, b3, b2, c2, d2)
      && XTime(XTime(m1)) == Sum5(XTime(a3), XTime(b3), b3, c3, d3)
  {
    var a1, b1, c1, d1 := XTime(a), XTime(b), XTime(c), XTime(d);
    var a2, b2, c2, d2 := XTime(a1), XTime(b1), XTime(c1), XTime(d1);
    XTimeSum5(a1, b1, b, c, d);
    XTimeSum5(a2, b2, b1, c1, d1);
    XTimeSum5(XTime(a2), XTime(b2), b2, c2, d2);
  }

  /** Unmixing a mixed column gives its first byte back; by rotation, every byte. */
  lemma UnmixedMixed(a: bv8, b: bv8, c: bv8, d: bv8)
    ensures Unmixed(Mixed(a, b, c, d), Mixed(b, c, d, a), Mixed(c, d, a, b), Mixed(d, a, b, c)) == a
  {
    var a1, b1, c1, d1 := XTime(a), XTime(b), XTime(c), XTime(d);
    var a2, b2, c2, d2 := XTime(a1), XTime(b1), XTime(c1), XTime(d1);
    var a3, b3, c3, d3 := XTime(a2), XTime(b2), XTime(c2), XTime(d2);
    MixedDoublings(a, b, c, d);
    MixedDoublings(b, c, d, a);
    MixedDoublings(c, d, a, b);
    MixedDoublings(d, a, b, c);
    SumsCancel(a, a1, a2, a3, XTime(a3), b, b1, b2, b3, XTime(b3),
               c, c1, c2, c3, XTime(c3), d, d1, d2, d3, XTime(d3));
  }

  lemma Sum5FromSum4(a1: bv8, b1: bv8, b: bv8, c: bv8, d: bv8)
    ensures Sum4(a1, Add(b1, b), c, d) == Sum5(a1, b1, b, c, d)
  {
    Sum5IsXor(a1, b1, b, c, d);
  }

  lemma MixByteByDoublings(a: bv8, b: bv8, c: bv8, d: bv8)
    ensures MixByte(a, b, c, d) == Mixed(a, b, c, d)
  {
    XTimeIsProduct(a);
    Product3(b);
    Sum5FromSum4(XTime(a), XTime(b), b, c, d);
  }

  lemma Add3(a: bv8, b: bv8, c: bv8)
    ensures Add(Add(a, b), c) == a ^ b ^ c
  {
  }

  lemma Sum11FromXors(a3: bv8, a2: bv8, a1: bv8, b3: bv8, b1: bv8, b0: bv8,
                      c3: bv8, c2: bv8, c0: bv8, d3: bv8, d0: bv8)
    ensures Sum4(a3 ^ a2 ^ a1, b3 ^ b1 ^ b0, c3 ^ c2 ^ c0, d3 ^ d0)
         == Sum11(a3, a2, a1, b3, b1, b0, c3, c2, c0, d3, d0)
  {
  }

  lemma Sum11FromSum4(a3: bv8, a2: bv8, a1: bv8, b3: bv8, b1: bv8, b0: bv8,
                      c3: bv8, c2: bv8, c0: bv8, d3: bv8, d0: bv8)
    ensures Sum4(Add(Add(a3, a2), a1), Add(Add(b3, b1), b0), Add(Add(c3, c2), c0), Add(d3, d0))
         == Sum11(a3, a2, a1, b3, b1, b0, c3, c2, c0, d3, d0)
  {
    Add3(a3, a2, a1);
    Add3(b3, b1, b0);
    Add3(c3, c2, c0);
    Sum11FromXors(a3, a2, a1, b3, b1, b0, c3, c2, c0, d3, d0);
  }

  lemma UnmixByteByDoublings(a: bv8, b: bv8, c: bv8, d: bv8)
    ensures UnmixByte(a, b, c, d) == Unmixed(a, b, c, d)
  {
    ProductE(a);
    ProductB(b);
    ProductD(c);
    Product9(d);
    var a1, b1, c1, d1 := XTime(a), XTime(b), XTime(c), XTime(d);
    var a2, b2, c2, d2 := XTime(a1), XTime(b1), XTime(c1), XTime(d1);
    Sum11FromSum4(XTime(a2), a2, a1, XTime(b2), b1, b, XTime(c2), c2, c, XTime(d2), d);
  }

  /** The matrix of section 5.3.3 is the inverse of the matrix of section 5.1.3: the byte at
      the head of a column comes back. Rotating the column gives the other three rows. */
  lemma UnmixByteInverts(a: bv8, b: bv8, c: bv8, d: bv8)
    ensures UnmixByte(MixByte(a, b, c, d), MixByte(b, c, d, a), MixByte(c, d, a, b), MixByte(d, a, b, c)) == a
  {
    MixByteByDoublings(a, b, c, d);
    MixByteByDoublings(b, c, d, a);
    MixByteByDoublings(c, d, a, b);
    MixByteByDoublings(d, a, b, c);
    UnmixByteByDoublings(Mixed(a, b, c, d), Mixed(b, c, d, a), Mixed(c, d, a, b), Mixed(d, a, b, c));
    UnmixedMixed(a, b, c, d);
  }

  // ---- The expressions the cipher evaluates for one byte ----

  lemma FoldedSum(a: bv8, b: bv8, c: bv8, d: bv8, a1: bv8, b1: bv8)
    ensures a ^ (Add(a1, b1) ^ (a ^ b ^ c ^ d)) == Sum5(a1, b1, b, c, d)
  {
    Sum5IsXor(a1, b1, b, c, d);
  }

  /** One byte of a mixed column from the byte, its successor and the sum of the column. */
  function MixStep(x: bv8, next: bv8, sum: bv8): bv8 {
    x ^ (XTime(x ^ next) ^ sum)
  }

  lemma MixStepIsRow(a: bv8, b: bv8, c: bv8, d: bv8)
    ensures MixStep(a, b, a ^ b ^ c ^ d) == MixByte(a, b, c, d)
  {
    hide XTime, MixByte, Add, Sum5;
    XTimeAdd(a, b);
    AddIsXor(a, b);
    FoldedSum(a, b, c, d, XTime(a), XTime(b));
    MixByteByDoublings(a, b, c, d);
  }

  lemma AddIsXor(x: bv8, y: bv8)
    ensures Add(x, y) == x ^ y
  {
  }

  /** One byte of an unmixed column, by the five-bit product. */
  function UnmixStep(a: bv8, b: bv8, c: bv8, d: bv8): bv8 {
    Sum4(Multiply(a, 0x0e), Multiply(b, 0x0b), Multiply(c, 0x0d), Multiply(d, 0x09))
  }

  lemma UnmixStepIsRow(a: bv8, b: bv8, c: bv8, d: bv8)
    ensures UnmixStep(a, b, c, d) == UnmixByte(a, b, c, d)
  {
    hide Multiply, GfMul, Sum4;
    MultiplyIsProduct(a, 0x0e);
    MultiplyIsProduct(b, 0x0b);
    MultiplyIsProduct(c, 0x0d);
    MultiplyIsProduct(d, 0x09);
  }

  lemma XorRotates(a: bv8, b: bv8, c: bv8, d: bv8)
    ensures a ^ b ^ c ^ d == b ^ c ^ d ^ a
  {
  }

  /** All four rows of MixColumns for one column, with the sum of the column computed once. */
  lemma MixStepsAreRows(a: bv8, b: bv8, c: bv8, d: bv8, sum: bv8)
    requires sum == a ^ b ^ c ^ d
    ensures MixStep(a, b, sum) == MixByte(a, b, c, d)
    ensures MixStep(b, c, sum) == MixByte(b, c, d, a)
    ensures MixStep(c, d, sum) == MixByte(c, d, a, b)
    ensures MixStep(d, a, sum) == MixByte(d, a, b, c)
  {
    XorRotates(a, b, c, d);
    XorRotates(b, c, d, a);
    XorRotates(c, d, a, b);
    MixStepIsRow(a, b, c, d);
    MixStepIsRow(b, c, d, a);
    MixStepIsRow(c, d, a, b);
    MixStepIsRow(d, a, b, c);
  }
}
