/** The streaming hashes SHA-1, SHA-256 and SHA-512 (FIPS 180-4): a buffer, a bit counter and
    padding around a compression function that is a parameter. */
module Sha {
  import opened Bytes

  type ShaWords = seq<nat>

  // What the three algorithms differ in. SHA-1 and SHA-256 have blocks of 64 bytes and a 64-bit
  // length; SHA-512 has blocks of 128 bytes and a length of two 64-bit words.
  datatype Variant = Variant(blockSize: nat, lengthSize: nat, iv: ShaWords,
                             compress: (ShaWords, seq<bv8>) -> ShaWords, digest: ShaWords -> seq<bv8>)
  {
    predicate Valid() {
      (blockSize == 64 && lengthSize == 8) || (blockSize == 128 && lengthSize == 16)
    }
  }

  // ---- The standard ----

  // The number of zero bytes after the first padding byte for a message of n bytes.
  function ZeroCount(v: Variant, n: nat): nat
    requires v.Valid()
  {
    var used := n % v.blockSize;
    if used < v.blockSize - v.lengthSize then v.blockSize - v.lengthSize - 1 - used
    else 2 * v.blockSize - v.lengthSize - 1 - used
  }

  // Sections 5.1.1 and 5.1.2: one bit, zeros, and the message length in bits.
  function Padding(v: Variant, n: nat): seq<bv8>
    requires v.Valid()
  {
    [0x80] + Zeros(ZeroCount(v, n)) + BigEndian(8 * n % Power256(v.lengthSize), v.lengthSize)
  }

  function Padded(v: Variant, message: seq<bv8>): seq<bv8>
    requires v.Valid()
  {
    message + Padding(v, |message|)
  }

  // The chain of compressions over whole blocks.
  function Fold(v: Variant, h: ShaWords, data: seq<bv8>): ShaWords
    requires v.Valid() && |data| % v.blockSize == 0
    decreases |data|
  {
    if data == [] then h
    else Fold(v, v.compress(h, data[..v.blockSize]), data[v.blockSize..])
  }

  function ShaDigest(v: Variant, message: seq<bv8>): seq<bv8>
    requires v.Valid()
  {
    PaddedWhole(v, message);
    v.digest(Fold(v, v.iv, Padded(v, message)))
  }

  lemma PaddedWhole(v: Variant, message: seq<bv8>)
    requires v.Valid()
    ensures |Padded(v, message)| % v.blockSize == 0
  {
    ZeroCountLeast(v, |message|, 0);
  }

  /** The number of zero bytes is the smallest that fills the last block. */
  lemma ZeroCountLeast(v: Variant, n: nat, k: nat)
    requires v.Valid()
    ensures (n + 1 + ZeroCount(v, n) + v.lengthSize) % v.blockSize == 0
    ensures (n + 1 + k + v.lengthSize) % v.blockSize == 0 ==> ZeroCount(v, n) <= k
  {
    var size, used, q := v.blockSize, n % v.blockSize, n / v.blockSize;
    var blocks := if used < size - v.lengthSize then 1 else 2;
    Divided(n, size);
    DivModUnique(n + 1 + ZeroCount(v, n) + v.lengthSize, size, q + blocks, 0);
    if k < ZeroCount(v, n) {
      var left := used + 1 + k + v.lengthSize - (blocks - 1) * size;
      DivModUnique(n + 1 + k + v.lengthSize, size, q + blocks - 1, left);
    }
  }

  /** Two messages shorter than the length field allows are never padded to the same string. */
  lemma PaddingInjective(v: Variant, a: seq<bv8>, b: seq<bv8>)
    requires v.Valid() && 8 * |a| < Power256(v.lengthSize) && 8 * |b| < Power256(v.lengthSize)
    requires Padded(v, a) == Padded(v, b)
    ensures a == b
  {
    hide Padding, BigEndian, FromBigEndian, Power256;
    LengthLast(v, a);
    LengthLast(v, b);
    BigEndianRoundTrip(8 * |a|, v.lengthSize);
    BigEndianRoundTrip(8 * |b|, v.lengthSize);
    assert a == Padded(v, a)[..|a|] && b == Padded(v, b)[..|b|];
  }

  lemma LengthLast(v: Variant, a: seq<bv8>)
    requires v.Valid() && 8 * |a| < Power256(v.lengthSize)
    ensures Padded(v, a)[|Padded(v, a)| - v.lengthSize..] == BigEndian(8 * |a|, v.lengthSize)
  {
    hide BigEndian, Power256, ZeroCount;
    SmallMod(8 * |a|, Power256(v.lengthSize));
  }

  lemma SmallMod(n: nat, m: nat)
    requires n < m
    ensures n % m == n
  {
  }

  // ---- The buffer ----

  // The part of the input that fills whole blocks.
  function Whole(v: Variant, data: seq<bv8>): (r: seq<bv8>)
    requires v.Valid()
    ensures |r| % v.blockSize == 0
  {
    data[..|data| - |data| % v.blockSize]
  }

  function Rest(v: Variant, data: seq<bv8>): (r: seq<bv8>)
    requires v.Valid()
    ensures |r| == |data| % v.blockSize
  {
    data[|data| - |data| % v.blockSize..]
  }

  // Compressing one more block after a whole number of them.
  lemma {:induction false} FoldOneMore(v: Variant, h: ShaWords, data: seq<bv8>, block: seq<bv8>)
    requires v.Valid() && |data| % v.blockSize == 0 && |block| == v.blockSize
    ensures Fold(v, h, data + block) == v.compress(Fold(v, h, data), block)
    decreases |data|
  {
    if data == [] {
      assert data + block == block && block[..v.blockSize] == block && block[v.blockSize..] == [];
    } else {
      var all := data + block;
      assert all[..v.blockSize] == data[..v.blockSize] && all[v.blockSize..] == data[v.blockSize..] + block;
      FoldOneMore(v, v.compress(h, data[..v.blockSize]), data[v.blockSize..], block);
    }
  }

  // Input that completes a block.
  lemma BlockCompleted(v: Variant, data: seq<bv8>, more: seq<bv8>)
    requires v.Valid() && |data| % v.blockSize + |more| == v.blockSize
    ensures Whole(v, data + more) == Whole(v, data) + (Rest(v, data) + more) && Rest(v, data + more) == []
  {
    Divided(|data|, v.blockSize);
    DivModUnique(|data| + |more|, v.blockSize, |data| / v.blockSize + 1, 0);
    assert data + more == Whole(v, data) + (Rest(v, data) + more);
  }

  // Input that does not.
  lemma BlockNotCompleted(v: Variant, data: seq<bv8>, more: seq<bv8>)
    requires v.Valid() && |data| % v.blockSize + |more| < v.blockSize
    ensures Whole(v, data + more) == Whole(v, data) && Rest(v, data + more) == Rest(v, data) + more
  {
    var n, r := |data|, |data| % v.blockSize;
    Divided(n, v.blockSize);
    DivModUnique(n + |more|, v.blockSize, n / v.blockSize, r + |more|);
    assert (data + more)[..n - r] == data[..n - r];
    assert (data + more)[n - r..] == data[n - r..] + more;
  }

  // ---- The length counter ----

  // The two words of the length in bits.
  function BitsHi(lo: nat, hi: nat): nat {
    hi * 8 % U64 + lo / 0x2000_0000_0000_0000
  }

  function BitsLo(lo: nat): nat {
    lo * 8 % U64
  }

  /** Shifting the two words of the counter gives eight times as many bits. */
  lemma BitsAreEightfold(lo: nat, hi: nat)
    requires lo < U64 && hi < U64
    ensures BitsLo(lo) < U64 && BitsHi(lo, hi) < U64
    ensures CounterValue(BitsLo(lo), BitsHi(lo, hi)) == 8 * CounterValue(lo, hi) % (U64 * U64)
  {
    var top := lo / 0x2000_0000_0000_0000;
    var rest := lo - top * 0x2000_0000_0000_0000;
    DivModUnique(lo * 8, U64, top, rest * 8);
    var h := hi / 0x2000_0000_0000_0000;
    DivModUnique(hi * 8, U64, h, (hi - h * 0x2000_0000_0000_0000) * 8);
    DivModUnique(8 * CounterValue(lo, hi), U64 * U64, h, CounterValue(BitsLo(lo), BitsHi(lo, hi)));
  }

  // ---- The stream ----

  class ShaStream {
    const v: Variant
    var h: ShaWords
    var lenLo: nat
    var lenHi: nat
    const buf: array<bv8>
    var bufLen: nat
    // all the bytes absorbed so far
    ghost var absorbed: seq<bv8>

    ghost predicate Valid()
      reads this, buf
    {
      && v.Valid() && Buffered(absorbed)
      && Counts(|absorbed|)
    }

    // The counter words stand for so many bytes, modulo 2^64 or 2^128.
    ghost predicate Counts(n: nat)
      reads this`lenLo, this`lenHi
    {
      && lenLo < U64 && lenHi < U64
      && (v.lengthSize == 8 ==> lenLo == n % U64)
      && (v.lengthSize == 16 ==> CounterValue(lenLo, lenHi) == n % (U64 * U64))
    }

    // The chain value and the buffer stand for the given input.
    ghost predicate Buffered(data: seq<bv8>)
      reads this`h, this`bufLen, buf
    {
      && v.Valid() && buf.Length == v.blockSize
      && bufLen == |data| % v.blockSize
      && buf[..bufLen] == Rest(v, data)
      && h == Fold(v, v.iv, Whole(v, data))
    }

    // How much of the data goes into a partly filled buffer first.
    function TakenFirst(len: nat): (n: nat)
      requires v.Valid() && bufLen <= v.blockSize
      reads this`bufLen
      ensures n <= len
    {
      if bufLen == 0 || len == 0 then 0
      else if len < v.blockSize - bufLen then len
      else v.blockSize - bufLen
    }

    // The block loop of a call with so many bytes does not wrap.
    predicate CallEnds(len: nat)
      requires v.Valid() && bufLen <= v.blockSize
      reads this`bufLen
    {
      len < U32 && LastPlace(TakenFirst(len), v.blockSize, len) + v.blockSize < U32
    }

    constructor (v: Variant)
      requires v.Valid()
      ensures Valid() && this.v == v && absorbed == [] && fresh(buf)
    {
      this.v, this.h := v, v.iv;
      this.lenLo, this.lenHi, this.bufLen := 0, 0, 0;
      this.buf := new bv8[v.blockSize];
      this.absorbed := [];
    }

    method Update(data: seq<bv8>)
      requires Valid() && CallEnds(|data|)
      modifies this, buf
      ensures Valid() && absorbed == old(absorbed) + data
    {
      hide Buffered, Counts;
      CountBytes(|data|, |absorbed|);
      AbsorbAll(data);
    }

    method AbsorbAll(data: seq<bv8>)
      requires Buffered(absorbed) && CallEnds(|data|)
      modifies this`h, this`bufLen, this`absorbed, buf
      ensures Buffered(absorbed) && absorbed == old(absorbed) + data
    {
      hide Buffered, TestRight, LastPlace, TakenFirst;
      BufferBound(absorbed);
      StepTestExact(TakenFirst(|data|), v.blockSize, |data|);
      var first := FillBuffer(data);
      var i := AbsorbBlocks(data, first);
      AbsorbRest(data, i);
      ThreeParts(old(absorbed), data, first, i);
    }

    // Wherever the buffer stands, a call that ends a block below 2^32 does not wrap.
    lemma ShortCallEnds(len: nat)
      requires Valid() && len + v.blockSize < U32
      ensures v.Valid() && bufLen <= v.blockSize && CallEnds(len)
    {
      hide LastPlace, Fold, Whole, Rest;
    }

    lemma BufferBound(data: seq<bv8>)
      requires Buffered(data)
      ensures v.Valid() && bufLen < v.blockSize
    {
      hide Fold, Whole, Rest;
    }

    // Compresses the whole blocks from a place on.
    method AbsorbBlocks(data: seq<bv8>, start: nat) returns (i: nat)
      requires Buffered(absorbed) && start <= |data| < U32 && TestRight(start, v.blockSize, |data|)
      requires bufLen == 0 || start == |data|
      modifies this`h, this`absorbed
      ensures start <= i <= |data| && Buffered(absorbed) && absorbed == old(absorbed) + data[start..i]
      ensures bufLen + (|data| - i) < v.blockSize
    {
      BufferBound(absorbed);
      hide Buffered, StepFits;
      ghost var n: nat := 0;
      i := start;
      assert PartsEnd(0, v.blockSize) == 0;
      assert TestRightAt(start + PartsEnd(0, v.blockSize), v.blockSize, |data|);
      while StepFits(i, v.blockSize, |data|)
        invariant i == start + PartsEnd(n, v.blockSize) && TestRightAt(i, v.blockSize, |data|)
        invariant i <= |data| && Buffered(absorbed) && absorbed == old(absorbed) + data[start..i]
        decreases |data| - i
      {
        AbsorbBlock(data[i..i + v.blockSize]);
        assert data[start..i + v.blockSize] == data[start..i] + data[i..i + v.blockSize];
        i := i + v.blockSize;
        PartsGrow(n, v.blockSize);
        n := n + 1;
      }
    }

    // Keeps the bytes from a place on, of which there are too few for a block.
    method AbsorbRest(data: seq<bv8>, start: nat)
      requires Buffered(absorbed) && start <= |data| && bufLen + (|data| - start) < v.blockSize
      modifies this`bufLen, this`absorbed, buf
      ensures Buffered(absorbed) && absorbed == old(absorbed) + data[start..]
    {
      hide Buffered;
      for i := start to |data|
        invariant Buffered(absorbed) && absorbed == old(absorbed) + data[start..i]
        invariant bufLen + (|data| - i) < v.blockSize
      {
        AbsorbByte(data[i]);
        assert data[start..i + 1] == data[start..i] + [data[i]];
      }
      assert data[start..] == data[start..|data|];
    }

    // Compresses a block straight from the input.
    method AbsorbBlock(block: seq<bv8>)
      requires Buffered(absorbed) && bufLen == 0 && |block| == v.blockSize
      modifies this`h, this`absorbed
      ensures Buffered(absorbed) && absorbed == old(absorbed) + block
    {
      hide Fold;
      FoldOneMore(v, v.iv, absorbed, block);
      assert Whole(v, absorbed) == absorbed;
      BlockCompleted(v, absorbed, block);
      assert Rest(v, absorbed) == [] && [] + block == block;
      h := v.compress(h, block);
      absorbed := absorbed + block;
    }

    // Puts a byte into a buffer that has room for it and more.
    method AbsorbByte(b: bv8)
      requires Buffered(absorbed) && bufLen + 1 < v.blockSize
      modifies this`bufLen, this`absorbed, buf
      ensures Buffered(absorbed) && absorbed == old(absorbed) + [b] && bufLen == old(bufLen) + 1
    {
      hide Fold, Whole, Rest;
      BlockNotCompleted(v, absorbed, [b]);
      buf[bufLen] := b;
      bufLen := bufLen + 1;
      absorbed := absorbed + [b];
      assert |absorbed| % v.blockSize == bufLen by {
        assert |Rest(v, absorbed)| == |absorbed| % v.blockSize;
      }
    }

    // Completes a partly filled buffer, as far as the data goes.
    method FillBuffer(data: seq<bv8>) returns (i: nat)
      requires Buffered(absorbed)
      modifies this`h, this`bufLen, this`absorbed, buf
      ensures i <= |data| && Buffered(absorbed) && absorbed == old(absorbed) + data[..i]
      ensures bufLen == 0 || i == |data|
      ensures i == old(TakenFirst(|data|))
    {
      hide Fold, Whole, Rest;
      i := 0;
      assert data[..0] == [];
      if bufLen != 0 {
        var need := v.blockSize - bufLen;
        var take := if |data| < need then |data| else need;
        ghost var rest, more := buf[..bufLen], data[..take];
        for j := 0 to take
          modifies buf
          invariant buf[..bufLen] == rest
          invariant buf[bufLen..bufLen + j] == data[..j]
        {
          buf[bufLen + j] := data[j];
        }
        assert buf[..bufLen + take] == rest + more;
        assert rest == Rest(v, absorbed) && |rest| == |absorbed| % v.blockSize;
        bufLen := bufLen + take;
        i := take;
        if bufLen == v.blockSize {
          BlockCompleted(v, absorbed, more);
          assert buf[..] == rest + more;
          FoldOneMore(v, v.iv, Whole(v, absorbed), rest + more);
          h := v.compress(h, buf[..]);
          bufLen := 0;
        } else {
          BlockNotCompleted(v, absorbed, more);
        }
        absorbed := absorbed + more;
        assert |Rest(v, absorbed)| == |absorbed| % v.blockSize;
      }
    }

    // Advances the counter, with a carry where it has two words.
    method CountBytes(len: nat, ghost n: nat)
      requires v.Valid() && len < U32 && Counts(n)
      modifies this`lenLo, this`lenHi
      ensures Counts(n + len)
    {
      CounterCarries(lenLo, lenHi, len);
      ModOfSum(n, len, if v.lengthSize == 8 then U64 else U64 * U64);
      var before := lenLo;
      lenLo := (lenLo + len) % U64;
      if v.lengthSize == 16 && lenLo < before {
        lenHi := (lenHi + 1) % U64;
      }
    }

    /** The digest of everything absorbed, padded as the standard says. */
    method Final() returns (out: seq<bv8>)
      requires Valid()
      modifies this, buf
      ensures out == ShaDigest(v, old(absorbed))
    {
      hide Fold, Rest, Padding, Whole, ZeroCount, BigEndian, Power256, Counts;
      ghost var message := absorbed;
      var length := LengthBytes();
      FillToLength();
      Update(length);
      AllWhole(v, message, absorbed);
      out := v.digest(h);
    }

    // The bit count, most significant byte first.
    method LengthBytes() returns (b: seq<bv8>)
      requires Valid()
      ensures b == BigEndian(8 * |absorbed| % Power256(v.lengthSize), v.lengthSize)
    {
      hide BigEndian, BitsHi, BitsLo, Buffered, CounterValue;
      LengthField(v, |absorbed|, lenLo, lenHi);
      b := if v.lengthSize == 8 then BigEndian(lenLo * 8 % U64, 8)
           else BigEndian(BitsHi(lenLo, lenHi), 8) + BigEndian(BitsLo(lenLo), 8);
    }

    // The first padding byte, then zeros one by one until only the length field is missing.
    method FillToLength()
      requires Valid()
      modifies this, buf
      ensures Valid() && absorbed == old(absorbed) + [0x80] + Zeros(ZeroCount(v, |old(absorbed)|))
    {
      hide Fold, Whole, Rest, ZeroCount;
      ghost var message, n := absorbed, |absorbed|;
      Update([0x80]);
      ghost var k := 0;
      assert Zeros(0) == [];
      while bufLen != v.blockSize - v.lengthSize
        invariant Valid() && absorbed == message + [0x80] + Zeros(k)
        invariant k <= ZeroCount(v, n)
        decreases ZeroCount(v, n) - k
      {
        PadNotDone(v, n, k);
        Update([0]);
        assert Zeros(k) + [0] == Zeros(k + 1);
        k := k + 1;
      }
      PadDone(v, n, k);
    }
  }

  lemma AllWhole(v: Variant, message: seq<bv8>, all: seq<bv8>)
    requires v.Valid()
    requires all == message + [0x80] + Zeros(ZeroCount(v, |message|)) +
                    BigEndian(8 * |message| % Power256(v.lengthSize), v.lengthSize)
    ensures all == Padded(v, message) && Whole(v, all) == all && |all| % v.blockSize == 0
  {
    hide ZeroCount, BigEndian, Zeros, Power256, Whole;
    var zeros := Zeros(ZeroCount(v, |message|));
    var length := BigEndian(8 * |message| % Power256(v.lengthSize), v.lengthSize);
    Regrouped(message, [0x80], zeros, length);
    PaddedWhole(v, message);
    AllInBlocks(v, all);
  }

  lemma Regrouped(a: seq<bv8>, b: seq<bv8>, c: seq<bv8>, d: seq<bv8>)
    ensures a + b + c + d == a + (b + c + d)
  {
  }

  lemma AllInBlocks(v: Variant, data: seq<bv8>)
    requires v.Valid() && |data| % v.blockSize == 0
    ensures Whole(v, data) == data
  {
  }

  // The length field, from the counter words.
  lemma LengthField(v: Variant, n: nat, lo: nat, hi: nat)
    requires v.Valid() && lo < U64 && hi < U64
    requires v.lengthSize == 8 ==> lo == n % U64
    requires v.lengthSize == 16 ==> CounterValue(lo, hi) == n % (U64 * U64)
    ensures (if v.lengthSize == 8 then BigEndian(lo * 8 % U64, 8)
             else BigEndian(BitsHi(lo, hi), 8) + BigEndian(BitsLo(lo), 8)) ==
            BigEndian(8 * n % Power256(v.lengthSize), v.lengthSize)
  {
    hide BigEndian;
    PowersOf256();
    if v.lengthSize == 8 {
      ModOfProduct(n, U64);
    } else {
      BitsAreEightfold(lo, hi);
      BigEndianJoin(BitsHi(lo, hi), BitsLo(lo), 8, 8);
      ModOfProduct(n, U64 * U64);
    }
  }

  lemma PowersOf256()
    ensures Power256(8) == U64 && Power256(16) == U64 * U64
  {
    assert Power256(4) == U32;
    assert Power256(8) == 256 * (256 * (256 * (256 * Power256(4))));
    assert Power256(12) == 256 * (256 * (256 * (256 * Power256(8))));
    assert Power256(16) == 256 * (256 * (256 * (256 * Power256(12))));
  }

  lemma ModOfProduct(n: nat, m: nat)
    requires m > 0
    ensures 8 * (n % m) % m == 8 * n % m
  {
    var q, r := n / m, n % m;
    var t, rest := 8 * r / m, 8 * r % m;
    Divided(n, m);
    Divided(8 * r, m);
    EightTimes(m, q, t);
    DivModUnique(8 * n, m, 8 * q + t, rest);
  }

  lemma EightTimes(m: nat, q: nat, t: nat)
    ensures m * (8 * q + t) == 8 * (m * q) + m * t
  {
  }

  // While the buffer does not end where the length goes, zeros are still missing.
  lemma PadNotDone(v: Variant, n: nat, k: nat)
    requires v.Valid() && k <= ZeroCount(v, n) && (n + 1 + k) % v.blockSize != v.blockSize - v.lengthSize
    ensures k < ZeroCount(v, n)
  {
    if k == ZeroCount(v, n) {
      PadEnds(v, n);
      assert false;
    }
  }

  lemma PadEnds(v: Variant, n: nat)
    requires v.Valid()
    ensures (n + 1 + ZeroCount(v, n)) % v.blockSize == v.blockSize - v.lengthSize
  {
    var size, used, q := v.blockSize, n % v.blockSize, n / v.blockSize;
    Divided(n, size);
    DivModUnique(n + 1 + ZeroCount(v, n), size, if used < size - v.lengthSize then q else q + 1, size - v.lengthSize);
  }

  lemma PadDone(v: Variant, n: nat, k: nat)
    requires v.Valid() && k <= ZeroCount(v, n) && (n + 1 + k) % v.blockSize == v.blockSize - v.lengthSize
    ensures k == ZeroCount(v, n)
  {
    Divided(n + 1 + k, v.blockSize);
    DivModUnique(n + 1 + k + v.lengthSize, v.blockSize, (n + 1 + k) / v.blockSize + 1, 0);
    ZeroCountLeast(v, n, k);
  }

  /** One call over the whole message, and any number of calls over its pieces, give the same digest. */
  method HashPieces(v: Variant, pieces: seq<seq<bv8>>) returns (out: seq<bv8>)
    requires v.Valid() && forall i :: 0 <= i < |pieces| ==> |pieces[i]| + v.blockSize < U32
    ensures out == ShaDigest(v, Joined(pieces))
  {
    var s := new ShaStream(v);
    assert Joined(pieces[..0]) == [];
    hide ShaStream.Valid, ShaStream.CallEnds, Joined, ShaDigest, Variant.Valid;
    for i := 0 to |pieces|
      invariant s.Valid() && s.v == v && fresh(s) && fresh(s.buf) && s.absorbed == Joined(pieces[..i])
    {
      JoinedGrows(pieces, i);
      s.ShortCallEnds(|pieces[i]|);
      s.Update(pieces[i]);
    }
    assert pieces[..|pieces|] == pieces;
    out := s.Final();
  }
}
