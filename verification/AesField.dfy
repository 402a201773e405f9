/** Arithmetic in GF(2^8) as the block cipher uses it (section 4 of FIPS 197, where addition is
    exclusive or): the multiplication loop, the algebra behind the substitution table, and the proof
    that the two column transformations undo each other. */
module AesField {
  import opened AesTables
  import opened Bytes

  // Multiplication by x modulo x^8 + x^4 + x^3 + x + 1.
  // The top bit a >> 7 is 0 or 1, and says whether the reduction polynomial is subtracted.
  function Xtime(a: bv8): bv8 {
    (a << 1) ^ ((a >> 7) * 0x1b)
  }

  // p if the lowest bit of b is set, and 0 otherwise.
  function Gate(p: bv8, b: bv8): bv8 {
    p & (0 - (b & 1))
  }

  // The sum of p * x^i over the bits i < n that are set in b.
  function ProductBits(p: bv8, b: bv8, n: nat): bv8
    decreases n
  {
    if n == 0 then 0 else Xor(Gate(p, b), ProductBits(Xtime(p), b >> 1, n - 1))
  }

  // The product in the field.
  function GMul(a: bv8, b: bv8): bv8 {
    ProductBits(a, b, 8)
  }

  method GMulLoop(a: bv8, b: bv8) returns (r: bv8)
    ensures r == GMul(a, b)
  {
    r := 0;
    var p, bits := a, b;
    XorZero(GMul(a, b));
    for i := 0 to 8
      invariant Xor(r, ProductBits(p, bits, 8 - i)) == GMul(a, b)
    {
      GateIsConditional(p, bits);
      XorAssociative(r, Gate(p, bits), ProductBits(Xtime(p), bits >> 1, 7 - i));
      XorZero(r);
      if bits & 1 != 0 {
        r := Xor(r, p);
      }
      p := Xtime(p);
      bits := bits >> 1;
    }
    XorZero(r);
  }

  lemma GateIsConditional(p: bv8, b: bv8)
    ensures Gate(p, b) == if b & 1 != 0 then p else 0
  {
  }

  lemma XtimeLinear(a: bv8, b: bv8)
    ensures Xtime(Xor(a, b)) == Xor(Xtime(a), Xtime(b))
  {
  }

  // The eight steps of the product, spelled out.
  lemma GMulUnrolled(a: bv8, b: bv8)
    ensures
      var p1 := Xtime(a); var p2 := Xtime(p1); var p3 := Xtime(p2); var p4 := Xtime(p3);
      var p5 := Xtime(p4); var p6 := Xtime(p5); var p7 := Xtime(p6);
      GMul(a, b) ==
      Xor(Gate(a, b), Xor(Gate(p1, b >> 1), Xor(Gate(p2, b >> 2), Xor(Gate(p3, b >> 3),
      Xor(Gate(p4, b >> 4), Xor(Gate(p5, b >> 5), Xor(Gate(p6, b >> 6), Gate(p7, b >> 7))))))))
  {
    var p1 := Xtime(a); var p2 := Xtime(p1); var p3 := Xtime(p2); var p4 := Xtime(p3);
    var p5 := Xtime(p4); var p6 := Xtime(p5); var p7 := Xtime(p6);
    ShiftsAdd(b);
    XorZero(Gate(p7, b >> 7));
    assert ProductBits(Xtime(p7), (b >> 7) >> 1, 0) == 0;
    assert ProductBits(p7, b >> 7, 1) == Xor(Gate(p7, b >> 7), ProductBits(Xtime(p7), (b >> 7) >> 1, 0));
    assert ProductBits(p6, b >> 6, 2) == Xor(Gate(p6, b >> 6), ProductBits(p7, b >> 7, 1));
    assert ProductBits(p5, b >> 5, 3) == Xor(Gate(p5, b >> 5), ProductBits(p6, b >> 6, 2));
    assert ProductBits(p4, b >> 4, 4) == Xor(Gate(p4, b >> 4), ProductBits(p5, b >> 5, 3));
    assert ProductBits(p3, b >> 3, 5) == Xor(Gate(p3, b >> 3), ProductBits(p4, b >> 4, 4));
    assert ProductBits(p2, b >> 2, 6) == Xor(Gate(p2, b >> 2), ProductBits(p3, b >> 3, 5));
    assert ProductBits(p1, b >> 1, 7) == Xor(Gate(p1, b >> 1), ProductBits(p2, b >> 2, 6));
  }

  lemma ShiftsAdd(b: bv8)
    ensures (b >> 1) >> 1 == b >> 2 && (b >> 2) >> 1 == b >> 3 && (b >> 3) >> 1 == b >> 4
    ensures (b >> 4) >> 1 == b >> 5 && (b >> 5) >> 1 == b >> 6 && (b >> 6) >> 1 == b >> 7
  {
  }

  // ---- The substitution table is the field inverse followed by an affine map ----

  // The affine map of section 5.1.1 of FIPS 197 and its inverse.
  function Affine(x: bv8): bv8 {
    x ^ ((x << 1) | (x >> 7)) ^ ((x << 2) | (x >> 6)) ^ ((x << 3) | (x >> 5)) ^ ((x << 4) | (x >> 4)) ^ 0x63
  }

  function UndoAffine(x: bv8): bv8 {
    ((x << 1) | (x >> 7)) ^ ((x << 3) | (x >> 5)) ^ ((x << 6) | (x >> 2)) ^ 0x05
  }

  /** Every entry of the substitution table is the affine image of the multiplicative inverse of
      its index, zero standing for its own inverse. */
  lemma SBoxIsAffineInverse(x: bv8)
    ensures SBox(x) == Affine(UndoAffine(SBox(x)))
    ensures if x == 0 then UndoAffine(SBox(x)) == 0 else GMul(x, UndoAffine(SBox(x))) == 1
  {
    AffineUndone(SBox(x));
    GMulUnrolled(x, UndoAffine(SBox(x)));
  }

  lemma AffineUndone(y: bv8)
    ensures Affine(UndoAffine(y)) == y
  {
  }

  // ---- Columns ----

  // One byte of MixColumns; the other three are the same form on the rotated column.
  function MixByte(a: bv8, b: bv8, c: bv8, d: bv8): bv8 {
    Xor(Xor(Xor(Xor(Xtime(a), Xtime(b)), b), c), d)
  }

  // One byte of the inverse, likewise.
  function UnmixByte(a: bv8, b: bv8, c: bv8, d: bv8): bv8 {
    Xor(Xor(Xor(GMul(0x0e, a), GMul(0x0b, b)), GMul(0x0d, c)), GMul(0x09, d))
  }

  function Sum4(a: bv8, b: bv8, c: bv8, d: bv8): bv8 {
    Xor(Xor(a, b), Xor(c, d))
  }

  // Mixing twice leaves the byte plus four times the sum of it and the byte two places on.
  function MixedTwice(a: bv8, c: bv8): bv8 {
    Xor(a, Xtime(Xtime(Xor(a, c))))
  }

  lemma MixByteForm(a: bv8, b: bv8, c: bv8, d: bv8)
    ensures MixByte(a, b, c, d) == Xor(Xor(a, Sum4(a, b, c, d)), Xtime(Xor(a, b)))
  {
    XtimeLinear(a, b);
    SumWithoutFirst(a, b, c, d, Xtime(Xor(a, b)));
  }

  lemma SumWithoutFirst(a: bv8, b: bv8, c: bv8, d: bv8, p: bv8)
    ensures Xor(Xor(Xor(p, b), c), d) == Xor(Xor(a, Sum4(a, b, c, d)), p)
  {
    var r := Xor(b, Xor(c, d));
    SumIsFirstAndRest(a, b, c, d);
    XorCommutes(a, Xor(a, r));
    XorCommutes(a, r);
    XorCancels(r, a);
    XorAssociative(Xor(p, b), c, d);
    XorAssociative(p, b, Xor(c, d));
    XorCommutes(p, r);
  }

  lemma SumIsFirstAndRest(a: bv8, b: bv8, c: bv8, d: bv8)
    ensures Sum4(a, b, c, d) == Xor(a, Xor(b, Xor(c, d)))
  {
    XorAssociative(a, b, Xor(c, d));
  }

  lemma SumRotates(a: bv8, b: bv8, c: bv8, d: bv8)
    ensures Sum4(a, b, c, d) == Sum4(b, c, d, a)
  {
    SumIsFirstAndRest(a, b, c, d);
    XorCommutes(a, Xor(b, Xor(c, d)));
    XorAssociative(b, c, d);
    XorAssociative(Xor(b, c), d, a);
  }

  // The sum of two neighbours after mixing.
  lemma MixedNeighbours(a: bv8, b: bv8, c: bv8, d: bv8)
    ensures Xor(MixByte(a, b, c, d), MixByte(b, c, d, a)) == Xor(Xor(a, b), Xtime(Xor(a, c)))
  {
    var t, p, q := Sum4(a, b, c, d), Xtime(Xor(a, b)), Xtime(Xor(b, c));
    MixByteForm(a, b, c, d);
    MixByteForm(b, c, d, a);
    SumRotates(a, b, c, d);
    XorPairs(Xor(a, t), p, Xor(b, t), q);
    XorPairsCancel(a, b, t);
    XtimeLinear(Xor(a, b), Xor(b, c));
    XorPairsCancel(a, c, b);
    XorCommutes(b, c);
  }

  // Mixing keeps the sum of the column.
  lemma MixKeepsSum(a: bv8, b: bv8, c: bv8, d: bv8)
    ensures Sum4(MixByte(a, b, c, d), MixByte(b, c, d, a), MixByte(c, d, a, b), MixByte(d, a, b, c)) ==
            Sum4(a, b, c, d)
  {
    MixedNeighbours(a, b, c, d);
    MixedNeighbours(c, d, a, b);
    XorCommutes(a, c);
    XorPairsCancel(Xor(a, b), Xor(c, d), Xtime(Xor(a, c)));
  }

  lemma MixTwice(a: bv8, b: bv8, c: bv8, d: bv8)
    ensures MixByte(MixByte(a, b, c, d), MixByte(b, c, d, a), MixByte(c, d, a, b), MixByte(d, a, b, c)) ==
            MixedTwice(a, c)
  {
    var t, p, q := Sum4(a, b, c, d), Xtime(Xor(a, b)), Xtime(Xor(a, c));
    MixByteForm(a, b, c, d);
    MixByteForm(MixByte(a, b, c, d), MixByte(b, c, d, a), MixByte(c, d, a, b), MixByte(d, a, b, c));
    MixKeepsSum(a, b, c, d);
    MixedNeighbours(a, b, c, d);
    XtimeLinear(Xor(a, b), q);
    CancelSumAndDouble(a, t, p, Xtime(q));
  }

  lemma CancelSumAndDouble(a: bv8, t: bv8, p: bv8, r: bv8)
    ensures Xor(Xor(Xor(Xor(a, t), p), t), Xor(p, r)) == Xor(a, r)
  {
  }

  lemma MixedTwiceIsInvolution(a: bv8, c: bv8)
    ensures MixedTwice(MixedTwice(a, c), MixedTwice(c, a)) == a
  {
    var t := Xtime(Xtime(Xor(a, c)));
    XorCommutes(a, c);
    XorPairsCancel(a, c, t);
    XorCancels(a, t);
  }

  // The inverse transformation is three mixings.
  lemma UnmixIsMixThrice(a: bv8, b: bv8, c: bv8, d: bv8)
    ensures UnmixByte(a, b, c, d) ==
            MixByte(MixedTwice(a, c), MixedTwice(b, d), MixedTwice(c, a), MixedTwice(d, b))
  {
    var t := Sum4(a, b, c, d);
    var u, v := Xtime(Xtime(Xor(a, c))), Xtime(Xtime(Xor(b, d)));
    XorCommutes(a, c);
    XorCommutes(b, d);
    MixByteForm(Xor(a, u), Xor(b, v), Xor(c, u), Xor(d, v));
    SumAbsorbs(a, b, c, d, u, v);
    XorPairs(a, u, b, v);
    XtimeLinear(Xor(a, b), Xor(u, v));
    assert Xor(u, v) == Xtime(Xtime(t)) by {
      XtimeLinear(Xtime(Xor(a, c)), Xtime(Xor(b, d)));
      XtimeLinear(Xor(a, c), Xor(b, d));
      XorPairs(a, c, b, d);
    }
    UnmixForm(a, b, c, d);
    XorAssociative(Xor(Xor(a, u), t), Xtime(Xor(a, b)), Xtime(Xtime(Xtime(t))));
  }

  lemma SumAbsorbs(a: bv8, b: bv8, c: bv8, d: bv8, u: bv8, v: bv8)
    ensures Sum4(Xor(a, u), Xor(b, v), Xor(c, u), Xor(d, v)) == Sum4(a, b, c, d)
  {
    XorPairs(a, u, b, v);
    XorPairs(c, u, d, v);
    XorPairsCancel(Xor(a, b), Xor(c, d), Xor(u, v));
  }

  // The product is linear in its first factor, and doubling that factor doubles it.
  lemma {:induction false} ProductLinear(p: bv8, q: bv8, b: bv8, n: nat)
    ensures ProductBits(Xor(p, q), b, n) == Xor(ProductBits(p, b, n), ProductBits(q, b, n))
    decreases n
  {
    hide Xor, Xtime, Gate;
    if n == 0 {
      XorZero(0);
    } else {
      ProductLinear(Xtime(p), Xtime(q), b >> 1, n - 1);
      XtimeLinear(p, q);
      GateLinear(p, q, b);
      XorPairs(Gate(p, b), Gate(q, b), ProductBits(Xtime(p), b >> 1, n - 1), ProductBits(Xtime(q), b >> 1, n - 1));
    }
  }

  lemma GateLinear(p: bv8, q: bv8, b: bv8)
    ensures Gate(Xor(p, q), b) == Xor(Gate(p, b), Gate(q, b))
    ensures Gate(Xtime(p), b) == Xtime(Gate(p, b))
  {
  }

  lemma {:induction false} ProductDoubles(p: bv8, b: bv8, n: nat)
    ensures ProductBits(Xtime(p), b, n) == Xtime(ProductBits(p, b, n))
    decreases n
  {
    if n == 0 {
      assert Xtime(0) == 0;
    } else {
      hide Xor, Xtime, Gate;
      ProductDoubles(Xtime(p), b >> 1, n - 1);
      GateLinear(p, p, b);
      XtimeLinear(Gate(p, b), ProductBits(Xtime(p), b >> 1, n - 1));
    }
  }

  lemma PowersTimes(a: bv8)
    ensures GMul(1, a) == a
    ensures GMul(Xtime(1), a) == Xtime(a)
    ensures GMul(Xtime(Xtime(1)), a) == Xtime(Xtime(a))
    ensures GMul(Xtime(Xtime(Xtime(1))), a) == Xtime(Xtime(Xtime(a)))
  {
    hide Xtime, Xor, ProductBits;
    OneTimes(a);
    ProductDoubles(1, a, 8);
    ProductDoubles(Xtime(1), a, 8);
    ProductDoubles(Xtime(Xtime(1)), a, 8);
  }

  lemma OneTimes(a: bv8)
    ensures GMul(1, a) == a
  {
    GMulUnrolled(1, a);
  }

  lemma PowersOfX()
    ensures Xtime(1) == 2 && Xtime(2) == 4 && Xtime(4) == 8
    ensures Xor(Xor(4, 2), 8) == 0x0e && Xor(Xor(1, 2), 8) == 0x0b && Xor(Xor(4, 1), 8) == 0x0d && Xor(1, 8) == 0x09
  {
  }

  // The products with the four coefficients of the inverse transformation.
  lemma ConstantProducts(a: bv8)
    ensures GMul(0x0e, a) == Xor(Xor(Xtime(Xtime(a)), Xtime(a)), Xtime(Xtime(Xtime(a))))
    ensures GMul(0x0b, a) == Xor(Xor(a, Xtime(a)), Xtime(Xtime(Xtime(a))))
    ensures GMul(0x0d, a) == Xor(Xor(Xtime(Xtime(a)), a), Xtime(Xtime(Xtime(a))))
    ensures GMul(0x09, a) == Xor(a, Xtime(Xtime(Xtime(a))))
  {
    hide Xtime, Xor, ProductBits;
    PowersOfX();
    PowersTimes(a);
    ProductLinear(4, 2, a, 8);
    ProductLinear(Xor(4, 2), 8, a, 8);
    ProductLinear(1, 2, a, 8);
    ProductLinear(Xor(1, 2), 8, a, 8);
    ProductLinear(4, 1, a, 8);
    ProductLinear(Xor(4, 1), 8, a, 8);
    ProductLinear(1, 8, a, 8);
  }

  // The inverse transformation, collected by powers of x.
  lemma UnmixForm(a: bv8, b: bv8, c: bv8, d: bv8)
    ensures
      var t := Sum4(a, b, c, d);
      UnmixByte(a, b, c, d) ==
      Xor(Xor(Xor(a, Xtime(Xtime(Xor(a, c)))), t), Xor(Xtime(Xor(a, b)), Xtime(Xtime(Xtime(t)))))
  {
    var a1, b1, a2, c2 := Xtime(a), Xtime(b), Xtime(Xtime(a)), Xtime(Xtime(c));
    var a3, b3, c3, d3 := Xtime(a2), Xtime(Xtime(b1)), Xtime(c2), Xtime(Xtime(Xtime(d)));
    ConstantProducts(a);
    ConstantProducts(b);
    ConstantProducts(c);
    ConstantProducts(d);
    // cubes to the right
    var ab, cd := Xor(Xor(a2, a1), Xor(b, b1)), Xor(Xor(c2, c), d);
    XorPairs(Xor(a2, a1), a3, Xor(b, b1), b3);
    XorPairs(Xor(c2, c), c3, d, d3);
    XorAssociative(Xor(GMul(0x0e, a), GMul(0x0b, b)), GMul(0x0d, c), GMul(0x09, d));
    XorPairs(ab, Xor(a3, b3), cd, Xor(c3, d3));
    CubeOfSum(a, b, c, d);
    // then the rest
    var s, r := Xor(a2, c2), Xor(b, Xor(c, d));
    XorPairs(a2, a1, b, b1);
    XorAssociative(c2, c, d);
    XorAssociative(Xor(a2, b), Xor(a1, b1), cd);
    XorCommutes(Xor(a1, b1), cd);
    XorAssociative(Xor(a2, b), cd, Xor(a1, b1));
    XorPairs(a2, b, c2, Xor(c, d));
    assert Xor(ab, cd) == Xor(Xor(s, r), Xor(a1, b1));
    SumIsFirstAndRest(a, b, c, d);
    XorCommutes(a, s);
    XorCommutes(a, r);
    XorPairsCancel(s, r, a);
    XtimeLinear(a, b);
    XtimeLinear(a, c);
    XtimeLinear(a1, Xtime(c));
    XorAssociative(Xor(s, r), Xor(a1, b1), Xtime(Xtime(Xtime(Sum4(a, b, c, d)))));
  }

  lemma CubeOfSum(a: bv8, b: bv8, c: bv8, d: bv8)
    ensures Xtime(Xtime(Xtime(Sum4(a, b, c, d)))) ==
            Sum4(Xtime(Xtime(Xtime(a))), Xtime(Xtime(Xtime(b))), Xtime(Xtime(Xtime(c))), Xtime(Xtime(Xtime(d))))
  {
    XtimeOfSum(a, b, c, d);
    XtimeOfSum(Xtime(a), Xtime(b), Xtime(c), Xtime(d));
    XtimeOfSum(Xtime(Xtime(a)), Xtime(Xtime(b)), Xtime(Xtime(c)), Xtime(Xtime(d)));
  }

  lemma XtimeOfSum(a: bv8, b: bv8, c: bv8, d: bv8)
    ensures Xtime(Sum4(a, b, c, d)) == Sum4(Xtime(a), Xtime(b), Xtime(c), Xtime(d))
  {
    XtimeLinear(Xor(a, b), Xor(c, d));
    XtimeLinear(a, b);
    XtimeLinear(c, d);
  }

  /** FIPS 197 section 5.3.3: the inverse column transformation undoes MixColumns ... */
  lemma UnmixUndoesMix(a: bv8, b: bv8, c: bv8, d: bv8)
    ensures UnmixByte(MixByte(a, b, c, d), MixByte(b, c, d, a), MixByte(c, d, a, b), MixByte(d, a, b, c)) == a
  {
    var m0, m1, m2, m3 := MixByte(a, b, c, d), MixByte(b, c, d, a), MixByte(c, d, a, b), MixByte(d, a, b, c);
    UnmixIsMixThrice(m0, m1, m2, m3);
    var n0, n1, n2, n3 := MixedTwice(a, c), MixedTwice(b, d), MixedTwice(c, a), MixedTwice(d, b);
    MixTwice(a, b, c, d);
    MixTwice(b, c, d, a);
    MixTwice(c, d, a, b);
    MixTwice(d, a, b, c);
    MixTwice(m0, m1, m2, m3);
    MixTwice(m1, m2, m3, m0);
    MixTwice(m2, m3, m0, m1);
    MixTwice(m3, m0, m1, m2);
    MixTwice(n0, n1, n2, n3);
    MixedTwiceIsInvolution(a, c);
  }

  /** ... and the other way round. */
  lemma MixUndoesUnmix(a: bv8, b: bv8, c: bv8, d: bv8)
    ensures MixByte(UnmixByte(a, b, c, d), UnmixByte(b, c, d, a), UnmixByte(c, d, a, b), UnmixByte(d, a, b, c)) == a
  {
    var n0, n1, n2, n3 := MixedTwice(a, c), MixedTwice(b, d), MixedTwice(c, a), MixedTwice(d, b);
    UnmixIsMixThrice(a, b, c, d);
    UnmixIsMixThrice(b, c, d, a);
    UnmixIsMixThrice(c, d, a, b);
    UnmixIsMixThrice(d, a, b, c);
    MixTwice(n0, n1, n2, n3);
    MixedTwiceIsInvolution(a, c);
  }
}
