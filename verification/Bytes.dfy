/** Bytes and byte strings: exclusive or and its algebra, little-endian and big-endian numbers. */
module Bytes {
  const U32: nat := 0x1_0000_0000
  const U64: nat := 0x1_0000_0000_0000_0000

  datatype Option<T> = None | Some(value: T)

  // Exclusive or. Kept a function so that proofs can rewrite inside sums of it.
  function Xor(a: bv8, b: bv8): bv8 {
    a ^ b
  }

  lemma XorAssociative(a: bv8, b: bv8, c: bv8)
    ensures Xor(Xor(a, b), c) == Xor(a, Xor(b, c))
  {
  }

  lemma XorCommutes(a: bv8, b: bv8)
    ensures Xor(a, b) == Xor(b, a)
  {
  }

  lemma XorZero(a: bv8)
    ensures Xor(a, 0) == a && Xor(0, a) == a
  {
  }

  lemma XorCancels(a: bv8, t: bv8)
    ensures Xor(Xor(a, t), t) == a
  {
  }

  lemma XorPairs(a: bv8, p: bv8, b: bv8, q: bv8)
    ensures Xor(Xor(a, p), Xor(b, q)) == Xor(Xor(a, b), Xor(p, q))
  {
    XorAssociative(a, p, Xor(b, q));
    XorAssociative(p, b, q);
    XorCommutes(p, b);
    XorAssociative(b, p, q);
    XorAssociative(a, b, Xor(p, q));
  }

  lemma XorPairsCancel(a: bv8, b: bv8, t: bv8)
    ensures Xor(Xor(a, t), Xor(b, t)) == Xor(a, b)
  {
  }

  function XorSeq(a: seq<bv8>, b: seq<bv8>): (r: seq<bv8>)
    requires |a| == |b|
    ensures |r| == |a|
  {
    seq(|a|, i requires 0 <= i < |a| => Xor(a[i], b[i]))
  }

  lemma XorSeqCancels(a: seq<bv8>, t: seq<bv8>)
    requires |a| == |t|
    ensures XorSeq(XorSeq(a, t), t) == a
  {
    forall i | 0 <= i < |a| ensures XorSeq(XorSeq(a, t), t)[i] == a[i] {
      XorCancels(a[i], t[i]);
    }
  }

  // ---- Numbers ----

  function LowByte(n: nat): bv8 {
    (n % 256) as bv8
  }

  // The lowest len bytes of n, the lowest first.
  function LittleEndian(n: nat, len: nat): (r: seq<bv8>)
    ensures |r| == len
  {
    if len == 0 then [] else [LowByte(n)] + LittleEndian(n / 256, len - 1)
  }

  // The same, the highest first.
  function BigEndian(n: nat, len: nat): (r: seq<bv8>)
    ensures |r| == len
  {
    if len == 0 then [] else BigEndian(n / 256, len - 1) + [LowByte(n)]
  }

  function FromBigEndian(b: seq<bv8>): nat {
    if b == [] then 0 else 256 * FromBigEndian(b[..|b| - 1]) + b[|b| - 1] as nat
  }

  function FromLittleEndian(b: seq<bv8>): nat {
    if b == [] then 0 else b[0] as nat + 256 * FromLittleEndian(b[1..])
  }

  function Power256(len: nat): (r: nat)
    ensures r > 0
  {
    if len == 0 then 1 else 256 * Power256(len - 1)
  }

  lemma {:induction false} ByteOfNumber(n: nat)
    requires n < 256
    ensures n as bv8 as int == n
  {
    if n < 128 {
      if n < 64 {} else {}
    } else {
      if n < 192 {} else {}
    }
  }

  lemma LowByteNumber(n: nat)
    ensures LowByte(n) as nat == n % 256
  {
    ByteOfNumber(n % 256);
  }

  lemma {:induction false} LittleEndianRoundTrip(n: nat, len: nat)
    requires n < Power256(len)
    ensures FromLittleEndian(LittleEndian(n, len)) == n
  {
    if len != 0 {
      hide LowByte;
      Divided(n, 256);
      LittleEndianRoundTrip(n / 256, len - 1);
      LowByteNumber(n);
      assert LittleEndian(n, len)[1..] == LittleEndian(n / 256, len - 1);
    }
  }

  lemma {:induction false} BigEndianRoundTrip(n: nat, len: nat)
    requires n < Power256(len)
    ensures FromBigEndian(BigEndian(n, len)) == n
  {
    if len != 0 {
      hide LowByte, BigEndian;
      Divided(n, 256);
      BigEndianRoundTrip(n / 256, len - 1);
      LowByteNumber(n);
      LastDigit(n, len);
      assert BigEndian(n, len)[..len - 1] == BigEndian(n / 256, len - 1);
    }
  }

  lemma ByteBack(b: bv8)
    ensures (b as nat) as bv8 == b
  {
  }

  lemma ByteIsLow(b: bv8)
    ensures b as nat < 256 && LowByte(b as nat) == b
  {
    ByteBack(b);
    DivModUnique(b as nat, 256, 0, b as nat);
  }

  // The bytes of a number are the only ones that stand for it.
  lemma {:induction false} LittleEndianOf(b: seq<bv8>)
    ensures LittleEndian(FromLittleEndian(b), |b|) == b
  {
    if b != [] {
      hide LowByte;
      var n := FromLittleEndian(b[1..]);
      LittleEndianOf(b[1..]);
      ByteIsLow(b[0]);
      DivModUnique(b[0] as nat + 256 * n, 256, n, b[0] as nat);
      LowByteOf(b[0] as nat + 256 * n);
    }
  }

  lemma LowByteOf(n: nat)
    ensures LowByte(n) == LowByte(n % 256)
  {
    Divided(n, 256);
    DivModUnique(n % 256, 256, 0, n % 256);
  }

  lemma {:induction false} BigEndianOf(b: seq<bv8>)
    ensures BigEndian(FromBigEndian(b), |b|) == b
  {
    if b != [] {
      hide LowByte;
      var k := |b| - 1;
      var n := FromBigEndian(b[..k]);
      BigEndianOf(b[..k]);
      ByteIsLow(b[k]);
      DivModUnique(256 * n + b[k] as nat, 256, n, b[k] as nat);
      LowByteOf(256 * n + b[k] as nat);
      assert b == b[..k] + [b[k]];
    }
  }

  // Two numbers side by side are one long number.
  function SideBySide(hi: nat, lo: nat, len: nat): nat {
    hi * Power256(len) + lo
  }

  lemma {:induction false} BigEndianJoin(hi: nat, lo: nat, hiLen: nat, len: nat)
    requires lo < Power256(len)
    ensures BigEndian(hi, hiLen) + BigEndian(lo, len) == BigEndian(SideBySide(hi, lo, len), hiLen + len)
    decreases len
  {
    if len == 0 {
      assert BigEndian(lo, 0) == [];
    } else {
      hide LowByte, BigEndian, Power256, SideBySide;
      DigitOut(hi, lo, len);
      BigEndianJoin(hi, lo / 256, hiLen, len - 1);
      LastDigit(SideBySide(hi, lo, len), hiLen + len);
      LastDigit(lo, len);
    }
  }

  lemma DigitOut(hi: nat, lo: nat, len: nat)
    requires len > 0 && lo < Power256(len)
    ensures SideBySide(hi, lo, len) / 256 == SideBySide(hi, lo / 256, len - 1)
    ensures LowByte(SideBySide(hi, lo, len)) == LowByte(lo)
    ensures lo / 256 < Power256(len - 1)
  {
    var p := Power256(len - 1);
    Divided(lo, 256);
    assert hi * (256 * p) == 256 * (hi * p);
    DivModUnique(256 * (hi * p) + lo, 256, hi * p + lo / 256, lo % 256);
  }

  lemma LastDigit(n: nat, len: nat)
    requires len > 0
    ensures BigEndian(n, len) == BigEndian(n / 256, len - 1) + [LowByte(n)]
  {
  }

  function Quotient(n: nat, d: nat): nat
    requires d > 0
  {
    n / d
  }

  lemma DivBelow(i: nat, n: nat, q: nat)
    requires n > 0 && i < n * q
    ensures i / n < q
  {
    if i / n >= q {
      MulMonotone(n, q, i / n);
      assert false;
    }
  }

  lemma MulMonotone(n: nat, a: nat, b: nat)
    requires a <= b
    ensures n * a <= n * b
  {
  }

  lemma SliceOfSlice<T>(s: seq<T>, a: nat, b: nat, i: nat, j: nat)
    requires a <= b <= |s| && i <= j <= b - a
    ensures s[a..b][i..j] == s[a + i..a + j]
  {
    forall k | 0 <= k < j - i ensures s[a..b][i..j][k] == s[a + i..a + j][k] {
    }
  }

  lemma ThreeParts<T>(done: seq<T>, data: seq<T>, i: nat, j: nat)
    requires i <= j <= |data|
    ensures done + data[..i] + data[i..j] + data[j..] == done + data
  {
    assert data[..i] + data[i..j] + data[j..] == data;
  }

  // A part is in its place.
  predicate Lies(image: seq<bv8>, at: nat, part: seq<bv8>) {
    at + |part| <= |image| && image[at..at + |part|] == part
  }

  // A part inside a part that lies in its place.
  lemma LiesInside(image: seq<bv8>, at: nat, part: seq<bv8>, i: nat, j: nat)
    requires Lies(image, at, part) && i <= j <= |part|
    ensures Lies(image, at + i, part[i..j])
  {
    SliceOfSlice(image, at, at + |part|, i, j);
  }

  // ---- Equal parts ----

  // Where n parts of a size end.
  function PartsEnd(n: nat, size: nat): nat {
    n * size
  }

  lemma PartsGrow(n: nat, size: nat)
    ensures PartsEnd(n + 1, size) == PartsEnd(n, size) + size
  {
  }

  lemma PartsOrdered(m: nat, n: nat, size: nat)
    requires m <= n
    ensures PartsEnd(m, size) <= PartsEnd(n, size)
  {
    MulMonotone(size, m, n);
  }

  function PartOf(data: seq<bv8>, size: nat, i: nat): (r: seq<bv8>)
    requires PartsEnd(i + 1, size) <= |data|
    ensures |r| == size
  {
    PartsGrow(i, size);
    data[PartsEnd(i, size)..PartsEnd(i + 1, size)]
  }

  lemma PartOfFront(a: seq<bv8>, b: seq<bv8>, size: nat, i: nat)
    requires PartsEnd(i + 1, size) <= |a|
    ensures PartOf(a + b, size, i) == PartOf(a, size, i)
  {
    hide PartsEnd;
    PartsGrow(i, size);
  }

  lemma PartOfEnd(a: seq<bv8>, b: seq<bv8>, size: nat, i: nat)
    requires |a| == PartsEnd(i, size) && |b| == size
    ensures PartsEnd(i + 1, size) == |a + b| && PartOf(a + b, size, i) == b
  {
    hide PartsEnd;
    PartsGrow(i, size);
  }

  lemma DivModUnique(n: nat, d: nat, q: nat, r: nat)
    requires d > 0 && n == d * q + r && r < d
    ensures n / d == q && n % d == r
  {
    if n / d > q {
      MulMonotone(d, q + 1, n / d);
      assert false;
    }
    if n / d < q {
      MulMonotone(d, n / d + 1, q);
      assert false;
    }
  }

  lemma Divided(n: nat, d: nat)
    requires d > 0
    ensures n == d * (n / d) + n % d && n % d < d
  {
  }

  lemma ModOfSum(a: nat, b: nat, m: nat)
    requires m > 0
    ensures (a % m + b) % m == (a + b) % m
  {
    Divided(a, m);
    Divided(a % m + b, m);
    assert m * (a / m) + m * ((a % m + b) / m) == m * (a / m + (a % m + b) / m);
    DivModUnique(a + b, m, a / m + (a % m + b) / m, (a % m + b) % m);
  }

  // ---- Machine words ----

  // The test of a loop that takes steps while a whole one fits, in 32-bit arithmetic.
  predicate StepFits(i: nat, step: nat, len: nat) {
    (i + step) % U32 <= len
  }

  // The last place a loop comes to that takes steps from a start on while a whole one fits.
  function LastPlace(start: nat, step: nat, len: nat): (i: nat)
    requires step > 0 && start <= len
    ensures start <= i <= len < i + step
  {
    PartsCounted(len - start, step);
    start + PartsEnd(Quotient(len - start, step), step)
  }

  // The test is right wherever the loop comes.
  ghost predicate TestRight(start: nat, step: nat, len: nat)
    requires step > 0
  {
    forall n: nat :: start + PartsEnd(n, step) <= len ==> TestRightAt(start + PartsEnd(n, step), step, len)
  }

  predicate TestRightAt(i: nat, step: nat, len: nat) {
    StepFits(i, step, len) <==> i + step <= len
  }

  /** A loop with this test takes the steps it should exactly when one step more than the last still
      gives a sum below 2^32: otherwise the sum wraps and the loop goes round again. */
  lemma StepTestExact(start: nat, step: nat, len: nat)
    requires 0 < step < U32 && start <= len < U32
    ensures TestRight(start, step, len) <==> LastPlace(start, step, len) + step < U32
  {
    hide PartsEnd, Quotient, TestRightAt;
    var q, last := Quotient(len - start, step), LastPlace(start, step, len);
    if last + step < U32 {
      forall n: nat | start + PartsEnd(n, step) <= len ensures TestRightAt(start + PartsEnd(n, step), step, len) {
        NotBeyondLast(start, step, len, n);
        SumTells(start + PartsEnd(n, step), step, len);
      }
    } else {
      SumTells(last, step, len);
    }
  }

  lemma SumTells(i: nat, step: nat, len: nat)
    requires 0 < step < U32 && i <= len < U32
    ensures i + step < U32 ==> TestRightAt(i, step, len)
    ensures i + step >= U32 ==> !TestRightAt(i, step, len)
  {
  }

  lemma NotBeyondLast(start: nat, step: nat, len: nat, n: nat)
    requires step > 0 && start + PartsEnd(n, step) <= len
    ensures start + PartsEnd(n, step) <= LastPlace(start, step, len)
  {
    var q := Quotient(len - start, step);
    PartsCounted(len - start, step);
    hide PartsEnd, Quotient;
    if n > q {
      PartsOrdered(q + 1, n, step);
      assert false;
    }
    PartsOrdered(n, q, step);
  }

  // The parts that fit whole.
  lemma PartsCounted(n: nat, size: nat)
    requires size > 0
    ensures
      var q := Quotient(n, size);
      PartsEnd(q, size) <= n < PartsEnd(q + 1, size) && PartsEnd(q + 1, size) == PartsEnd(q, size) + size
  {
    Divided(n, size);
    PartsGrow(Quotient(n, size), size);
  }

  /** From 0 on, for steps that divide 2^32, that is when the length and a step are together below it. */
  lemma StepTestFromZero(step: nat, len: nat)
    requires 0 < step < U32 && U32 % step == 0 && len < U32
    ensures LastPlace(0, step, len) + step < U32 <==> len + step < U32
  {
    var q, whole := Quotient(len, step), Quotient(U32, step);
    PartsCounted(len, step);
    Divided(U32, step);
    assert PartsEnd(whole, step) == U32;
    hide PartsEnd, Quotient;
    PartsGrow(q + 1, step);
    if q + 2 <= whole {
      PartsOrdered(q + 2, whole, step);
    } else {
      PartsOrdered(whole, q + 1, step);
    }
  }

  // The value of a counter of two 64-bit words.
  function CounterValue(lo: nat, hi: nat): nat {
    hi * U64 + lo
  }

  /** A counter of two words, carried by hand, counts modulo 2^128; comparing the new low word with the
      old one or with the number added both tell whether to carry. */
  lemma CounterCarries(lo: nat, hi: nat, len: nat)
    requires lo < U64 && hi < U64 && len < U64
    ensures
      var lo', carry := (lo + len) % U64, lo + len >= U64;
      var hi' := if carry then (hi + 1) % U64 else hi;
      && (lo' < lo <==> carry) && (lo' < len <==> carry) && lo' < U64 && hi' < U64
      && CounterValue(lo', hi') == (CounterValue(lo, hi) + len) % (U64 * U64)
  {
    if lo + len < U64 {
      DivModUnique(lo + len, U64, 0, lo + len);
      DivModUnique(CounterValue(lo, hi) + len, U64 * U64, 0, CounterValue(lo, hi) + len);
    } else {
      DivModUnique(lo + len, U64, 1, lo + len - U64);
      if hi + 1 < U64 {
        DivModUnique(hi + 1, U64, 0, hi + 1);
        DivModUnique(CounterValue(lo, hi) + len, U64 * U64, 0, CounterValue(lo, hi) + len);
      } else {
        DivModUnique(hi + 1, U64, 1, 0);
        DivModUnique(CounterValue(lo, hi) + len, U64 * U64, 1, lo + len - U64);
      }
    }
  }

  function Zeros(k: nat): (r: seq<bv8>)
    ensures |r| == k
  {
    seq(k, _ => 0)
  }

  // The pieces one after another.
  function Joined(pieces: seq<seq<bv8>>): seq<bv8> {
    if pieces == [] then [] else Joined(pieces[..|pieces| - 1]) + pieces[|pieces| - 1]
  }

  // All pieces have the same size.
  predicate EvenPieces(pieces: seq<seq<bv8>>, size: nat) {
    forall i :: 0 <= i < |pieces| ==> |pieces[i]| == size
  }

  // Pieces of one size are found at the multiples of it.
  lemma {:induction false} JoinedPart(pieces: seq<seq<bv8>>, size: nat, i: nat)
    requires EvenPieces(pieces, size) && i < |pieces|
    ensures PartsEnd(i + 1, size) <= |Joined(pieces)| && PartOf(Joined(pieces), size, i) == pieces[i]
    decreases |pieces|
  {
    hide PartsEnd, PartOf;
    var last := |pieces| - 1;
    var front := Joined(pieces[..last]);
    JoinedLength(pieces[..last], size);
    JoinedLength(pieces, size);
    PartsOrdered(i + 1, |pieces|, size);
    if i < last {
      JoinedPart(pieces[..last], size, i);
      PartOfFront(front, pieces[last], size, i);
    } else {
      PartOfEnd(front, pieces[last], size, i);
    }
  }

  lemma PieceLies(image: seq<bv8>, at: nat, pieces: seq<seq<bv8>>, size: nat, i: nat)
    requires Lies(image, at, Joined(pieces)) && EvenPieces(pieces, size) && i < |pieces|
    ensures Lies(image, at + PartsEnd(i, size), pieces[i])
  {
    hide Lies, PartsEnd, Joined;
    JoinedPart(pieces, size, i);
    PartsGrow(i, size);
    LiesInside(image, at, Joined(pieces), PartsEnd(i, size), PartsEnd(i + 1, size));
  }

  lemma {:induction false} JoinedLength(pieces: seq<seq<bv8>>, size: nat)
    requires EvenPieces(pieces, size)
    ensures |Joined(pieces)| == PartsEnd(|pieces|, size)
    decreases |pieces|
  {
    if pieces != [] {
      JoinedLength(pieces[..|pieces| - 1], size);
      PartsGrow(|pieces| - 1, size);
    }
  }

  lemma JoinedGrows(pieces: seq<seq<bv8>>, i: nat)
    requires i < |pieces|
    ensures Joined(pieces[..i + 1]) == Joined(pieces[..i]) + pieces[i]
  {
    assert pieces[..i + 1][..i] == pieces[..i];
  }
}
