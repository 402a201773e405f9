/** The hashes and key derivations as their standards word them: by the sequence of intermediate values
    rather than by a function that computes it. */
module HashStandard {
  import opened Bytes
  import Sha
  import Blake2b
  import KeyStretch
  import AntiForensic

  // ---- SHA (FIPS 180-4) ----

  // The chain values of a padded message, one more than it has blocks.
  ghost predicate ShaChain(v: Sha.Variant, data: seq<bv8>, hs: seq<Sha.ShaWords>)
    requires v.Valid()
  {
    && hs != [] && |data| == PartsEnd(|hs| - 1, v.blockSize) && hs[0] == v.iv
    && forall i: nat :: i + 1 < |hs| ==> ShaLink(v, data, hs, i)
  }

  ghost predicate ShaLink(v: Sha.Variant, data: seq<bv8>, hs: seq<Sha.ShaWords>, i: nat)
    requires v.Valid() && i + 1 < |hs|
  {
    PartsEnd(i + 1, v.blockSize) <= |data| && hs[i + 1] == v.compress(hs[i], PartOf(data, v.blockSize, i))
  }

  lemma {:induction false} FoldIsChain(v: Sha.Variant, data: seq<bv8>, hs: seq<Sha.ShaWords>, n: nat)
    requires v.Valid() && ShaChain(v, data, hs) && n < |hs|
    ensures PartsEnd(n, v.blockSize) <= |data| && PartsEnd(n, v.blockSize) % v.blockSize == 0
    ensures Sha.Fold(v, v.iv, data[..PartsEnd(n, v.blockSize)]) == hs[n]
    decreases n
  {
    PartsOrdered(n, |hs| - 1, v.blockSize);
    WholeParts(n, v.blockSize);
    if n == 0 {
      assert PartsEnd(0, v.blockSize) == 0;
    } else {
      hide PartsEnd;
      FoldIsChain(v, data, hs, n - 1);
      PartsGrow(n - 1, v.blockSize);
      hide Sha.Fold;
      assert ShaLink(v, data, hs, n - 1);
      Sha.FoldOneMore(v, v.iv, data[..PartsEnd(n - 1, v.blockSize)], PartOf(data, v.blockSize, n - 1));
      assert data[..PartsEnd(n, v.blockSize)] == data[..PartsEnd(n - 1, v.blockSize)] + PartOf(data, v.blockSize, n - 1);
    }
  }

  lemma WholeParts(n: nat, size: nat)
    requires size > 0
    ensures PartsEnd(n, size) % size == 0
  {
    DivModUnique(PartsEnd(n, size), size, n, 0);
  }

  // The number of zeros that completes a block, and no smaller one does.
  ghost predicate LeastZeros(v: Sha.Variant, n: nat, zeros: nat)
    requires v.Valid()
  {
    FillsBlock(v, n, zeros) && forall k: nat :: k < zeros ==> !FillsBlock(v, n, k)
  }

  predicate FillsBlock(v: Sha.Variant, n: nat, zeros: nat)
    requires v.Valid()
  {
    (n + 1 + zeros + v.lengthSize) % v.blockSize == 0
  }

  /** Sections 5 and 6 of FIPS 180-4: the message, a one bit, the least number of zeros and the length in bits
      are compressed block by block from the initial value, and the last chain value is the digest. */
  lemma ShaIsStandard(v: Sha.Variant, message: seq<bv8>, zeros: nat, length: seq<bv8>, hs: seq<Sha.ShaWords>)
    requires v.Valid() && LeastZeros(v, |message|, zeros) && |length| == v.lengthSize
    requires FromBigEndian(length) == 8 * |message| % (if v.lengthSize == 8 then U64 else U64 * U64)
    requires ShaChain(v, message + [0x80] + Zeros(zeros) + length, hs)
    ensures hs != [] && Sha.ShaDigest(v, message) == v.digest(hs[|hs| - 1])
  {
    assert hs != [];
    hide Sha.Fold, ShaChain, FromBigEndian, BigEndian, Sha.ZeroCount, Zeros;
    var data := message + [0x80] + Zeros(zeros) + length;
    ZerosAre(v, |message|, zeros);
    Sha.PowersOf256();
    BigEndianOf(length);
    Sha.Regrouped(message, [0x80], Zeros(zeros), length);
    assert data == Sha.Padded(v, message);
    FoldIsChain(v, data, hs, |hs| - 1);
    WholeData(v, data, hs);
  }

  lemma WholeData(v: Sha.Variant, data: seq<bv8>, hs: seq<Sha.ShaWords>)
    requires v.Valid() && ShaChain(v, data, hs)
    ensures data[..PartsEnd(|hs| - 1, v.blockSize)] == data
  {
  }

  lemma ZerosAre(v: Sha.Variant, n: nat, zeros: nat)
    requires v.Valid() && LeastZeros(v, n, zeros)
    ensures zeros == Sha.ZeroCount(v, n)
  {
    hide Sha.ZeroCount;
    Sha.ZeroCountLeast(v, n, zeros);
    assert FillsBlock(v, n, Sha.ZeroCount(v, n));
  }

  // ---- BLAKE2b (RFC 7693) ----

  function Prime(i: nat): nat
    requires i < 8
  {
    [2, 3, 5, 7, 11, 13, 17, 19][i]
  }

  // The square root of a prime has this whole part.
  function WholeRoot(i: nat): nat
    requires i < 8
  {
    [1, 1, 2, 2, 3, 3, 4, 4][i]
  }

  // n is the whole part of the square root of m.
  predicate IsRoot(n: nat, m: nat) {
    n * n <= m < (n + 1) * (n + 1)
  }

  /** The initial words are the first 64 bits of the fractional parts of the square roots of the first eight
      primes (section 2.6 of RFC 7693). */
  lemma IvAreRoots(i: nat)
    requires i < 8
    ensures IsRoot(WholeRoot(i) * U64 + Blake2b.IV[i] as nat, Prime(i) * (U64 * U64))
  {
    match i
    case 0 => case 1 => case 2 => case 3 => case 4 => case 5 => case 6 => case _ =>
  }

  // A number below 256 as a word.
  function SmallWord(n: nat): bv64
    requires n < 256
  {
    n as bv64
  }

  // The two lowest bytes of a word, and what is above them.
  function LowestByte(w: bv64): bv64 { w & 0xff }
  function SecondByte(w: bv64): bv64 { (w >> 8) & 0xff }
  function Above(w: bv64): bv64 { w >> 16 }

  lemma SmallWordIs(n: nat)
    requires n <= 128
    ensures SmallWord(n) == Blake2b.Word(n) && LowestByte(SmallWord(n)) == SmallWord(n)
  {
  }

  /** The parameter word: the output length in the lowest byte, the key length in the next, then 1 and 1
      (section 2.5 of RFC 7693). */
  lemma ParameterIs(outLen: nat, keyLen: nat)
    requires outLen <= 64 && keyLen <= 128
    ensures IsParameter(Blake2b.ParameterWord(outLen, keyLen), outLen, keyLen)
  {
    hide Blake2b.Parameters, Blake2b.Word, SmallWord, LowestByte, SecondByte, Above;
    SmallWordIs(outLen);
    SmallWordIs(keyLen);
    BytesOfParameter(SmallWord(outLen), SmallWord(keyLen));
  }

  lemma BytesOfParameter(o: bv64, k: bv64)
    requires LowestByte(o) == o && LowestByte(k) == k
    ensures
      var w := Blake2b.Parameters(o, k);
      LowestByte(w) == o && SecondByte(w) == k && Above(w) == 0x0101
  {
  }

  // The words that hashing starts from.
  ghost predicate IsStart(start: Blake2b.Blake2bWords, outLen: nat, keyLen: nat)
    requires outLen <= 64 && keyLen <= 128
  {
    && |start| == 8 && (forall i :: 1 <= i < 8 ==> start[i] == Blake2b.IV[i])
    && exists w: bv64 :: IsParameter(w, outLen, keyLen) && start[0] == Combined(Blake2b.IV[0], w)
  }

  predicate IsParameter(w: bv64, outLen: nat, keyLen: nat)
    requires outLen <= 64 && keyLen <= 128
  {
    LowestByte(w) == SmallWord(outLen) && SecondByte(w) == SmallWord(keyLen) && Above(w) == 0x0101
  }

  function Combined(v: bv64, w: bv64): bv64 {
    v ^ w
  }

  lemma OneParameter(v: bv64, w: bv64)
    requires LowestByte(v) == LowestByte(w) && SecondByte(v) == SecondByte(w) && Above(v) == Above(w)
    ensures v == w
  {
  }

  lemma StartIs(start: Blake2b.Blake2bWords, outLen: nat, keyLen: nat)
    requires outLen <= 64 && keyLen <= 128 && IsStart(start, outLen, keyLen)
    ensures start == Blake2b.StartWords(outLen, keyLen)
  {
    hide Blake2b.ParameterWord, IsParameter;
    var w: bv64 :| IsParameter(w, outLen, keyLen) && start[0] == Combined(Blake2b.IV[0], w);
    SameParameter(w, outLen, keyLen);
    assert start[0] == Blake2b.StartWords(outLen, keyLen)[0];
  }

  lemma SameParameter(w: bv64, outLen: nat, keyLen: nat)
    requires outLen <= 64 && keyLen <= 128 && IsParameter(w, outLen, keyLen)
    ensures w == Blake2b.ParameterWord(outLen, keyLen)
  {
    hide Blake2b.ParameterWord, SmallWord, LowestByte, SecondByte, Above;
    ParameterIs(outLen, keyLen);
    OneParameter(w, Blake2b.ParameterWord(outLen, keyLen));
  }

  // The chain values over an input: every block but the last with the count of the bytes up to its end, the
  // last one, filled up with zeros, with the whole length and the final flag.
  ghost predicate Blake2Chain(f: Blake2b.Compressor, input: seq<bv8>, hs: seq<Blake2b.Blake2bWords>) {
    && |hs| >= 2 && PartsEnd(|hs| - 2, 128) <= |input| <= PartsEnd(|hs| - 1, 128)
    && (|hs| > 2 ==> PartsEnd(|hs| - 2, 128) < |input|)
    && (forall i: nat :: i + 2 < |hs| ==> Blake2Link(f, input, hs, i))
    && var rest := input[PartsEnd(|hs| - 2, 128)..];
       |rest| <= 128 && hs[|hs| - 1] == f(hs[|hs| - 2], rest + Zeros(128 - |rest|), |input| % (U64 * U64), true)
  }

  ghost predicate Blake2Link(f: Blake2b.Compressor, input: seq<bv8>, hs: seq<Blake2b.Blake2bWords>, i: nat)
    requires i + 1 < |hs|
  {
    && PartsEnd(i + 1, 128) <= |input|
    && hs[i + 1] == f(hs[i], PartOf(input, 128, i), PartsEnd(i + 1, 128) % (U64 * U64), false)
  }

  lemma {:induction false} EarlierIsChain(f: Blake2b.Compressor, input: seq<bv8>, hs: seq<Blake2b.Blake2bWords>, n: nat)
    requires Blake2Chain(f, input, hs) && n + 1 < |hs|
    ensures n * Blake2b.BLOCK <= |input| && Blake2b.Earlier(f, hs[0], input, n) == hs[n]
    decreases n
  {
    PartsOrdered(n, |hs| - 2, 128);
    if n > 0 {
      EarlierIsChain(f, input, hs, n - 1);
      assert Blake2Link(f, input, hs, n - 1);
    }
  }

  lemma BlocksBefore(n: nat, k: nat)
    requires PartsEnd(k, 128) <= n <= PartsEnd(k + 1, 128) && (k > 0 ==> PartsEnd(k, 128) < n)
    ensures Blake2b.EarlierBlocks(n) == k && k * Blake2b.BLOCK == PartsEnd(k, 128)
  {
    if n > 0 {
      DivModUnique(n - 1, 128, k, n - 1 - 128 * k);
    }
  }

  /** Section 3.3 of RFC 7693: the key, filled up to a block, and the message are compressed from the words that
      the lengths give, and the digest is the beginning of the last chain value, its words little-endian. */
  lemma Blake2bIsStandard(f: Blake2b.Compressor, outLen: nat, key: seq<bv8>, message: seq<bv8>,
                          hs: seq<Blake2b.Blake2bWords>, j: nat)
    requires outLen <= 64 && |key| <= 128 && j < outLen
    requires Blake2Chain(f, (if key == [] then [] else key + Zeros(128 - |key|)) + message, hs)
    requires IsStart(hs[0], outLen, |key|) && |hs[|hs| - 1]| == 8
    ensures
      var digest := Blake2b.Blake2bDigest(f, outLen, key, message);
      |digest| == outLen && digest[j] == LittleEndian(hs[|hs| - 1][j / 8] as nat, 8)[j % 8]
  {
    hide IsStart, Blake2b.StartWords, Blake2b.Earlier, Blake2b.EarlierBlocks, LittleEndian, Blake2b.Serialized;
    var input := (if key == [] then [] else key + Zeros(128 - |key|)) + message;
    var n := |hs| - 2;
    StartIs(hs[0], outLen, |key|);
    EarlierIsChain(f, input, hs, n);
    BlocksBefore(|input|, n);
    assert Blake2b.Last(f, hs[0], input) == hs[|hs| - 1];
    KeyStretch.SerializedLength(hs[|hs| - 1]);
    SerializedAt(hs[|hs| - 1], j);
  }

  lemma {:induction false} SerializedAt(h: Blake2b.Blake2bWords, j: nat)
    requires j < 8 * |h|
    ensures |Blake2b.Serialized(h)| == 8 * |h|
    ensures Blake2b.Serialized(h)[j] == LittleEndian(h[j / 8] as nat, 8)[j % 8]
    decreases |h|
  {
    hide LittleEndian;
    KeyStretch.SerializedLength(h);
    if j >= 8 {
      SerializedAt(h[1..], j - 8);
      DivModUnique(j, 8, (j - 8) / 8 + 1, (j - 8) % 8);
    }
  }

  // ---- PBKDF2 (RFC 8018) ----

  // The chain of keyed hashes of a block.
  ghost predicate PrfChain(p: KeyStretch.Prf, password: seq<bv8>, first: seq<bv8>, us: seq<seq<bv8>>)
    requires p.Valid()
  {
    && us != [] && us[0] == p.hmac(password, first)
    && forall k :: 0 < k < |us| ==> us[k] == p.hmac(password, us[k - 1])
  }

  // Byte j of all of them combined.
  function XorColumn(us: seq<seq<bv8>>, j: nat): bv8
    requires us != [] && forall k :: 0 <= k < |us| ==> j < |us[k]|
  {
    var n := |us| - 1;
    if n == 0 then us[0][j] else Xor(XorColumn(us[..n], j), us[n][j])
  }

  lemma {:induction false} ChainIsU(p: KeyStretch.Prf, password: seq<bv8>, salt: seq<bv8>, number: seq<bv8>, us: seq<seq<bv8>>,
                                    c: nat)
    requires p.Valid() && |number| == 4 && PrfChain(p, password, salt + number, us) && 1 <= c <= |us|
    ensures us[c - 1] == KeyStretch.U(p, password, salt, FromBigEndian(number), c)
    decreases c
  {
    hide BigEndian, FromBigEndian;
    BigEndianOf(number);
    if c > 1 {
      ChainIsU(p, password, salt, number, us, c - 1);
    }
  }

  /** T of a block: the first hash is of the salt and the block number in four bytes, the highest first, each
      further one of the one before, and all are combined. */
  lemma {:induction false} BlockIsStandard(p: KeyStretch.Prf, password: seq<bv8>, salt: seq<bv8>, number: seq<bv8>,
                                           us: seq<seq<bv8>>, j: nat)
    requires p.Valid() && |number| == 4 && PrfChain(p, password, salt + number, us) && j < p.length
    ensures forall k :: 0 <= k < |us| ==> |us[k]| == p.length
    ensures KeyStretch.T(p, password, salt, FromBigEndian(number), |us|)[j] == XorColumn(us, j)
    decreases |us|
  {
    hide Xor, FromBigEndian, KeyStretch.U;
    var n := |us| - 1;
    ChainIsU(p, password, salt, number, us, |us|);
    if n > 0 {
      assert PrfChain(p, password, salt + number, us[..n]);
      BlockIsStandard(p, password, salt, number, us[..n], j);
      assert forall k :: 0 <= k < n ==> us[k] == us[..n][k];
    }
  }

  // Where byte r of block i + 1 is in the key.
  function PlaceOf(length: nat, i: nat, r: nat): nat {
    length * i + r
  }

  /** Byte j of the key is a byte of block j / length + 1. */
  lemma KeyByteIs(p: KeyStretch.Prf, password: seq<bv8>, salt: seq<bv8>, c: nat, n: nat, j: nat)
    requires p.Valid() && c >= 1 && j < n
    ensures KeyStretch.DerivedKey(p, password, salt, c, n)[j] ==
            KeyStretch.T(p, password, salt, j / p.length + 1, c)[j % p.length]
  {
    hide KeyStretch.T, KeyStretch.DerivedKey;
    Divided(j, p.length);
    KeyByteAt(p, password, salt, c, n, j / p.length, j % p.length);
  }

  lemma KeyByteAt(p: KeyStretch.Prf, password: seq<bv8>, salt: seq<bv8>, c: nat, n: nat, i: nat, r: nat)
    requires p.Valid() && c >= 1 && r < p.length && PlaceOf(p.length, i, r) < n
    ensures KeyStretch.DerivedKey(p, password, salt, c, n)[PlaceOf(p.length, i, r)] ==
            KeyStretch.T(p, password, salt, i + 1, c)[r]
  {
    hide KeyStretch.T, KeyStretch.Blocks, KeyStretch.BlockEnd, KeyStretch.BlocksFor, PlaceOf;
    var all := KeyStretch.BlocksFor(p, n);
    BlockReached(p.length, n, all, i, r);
    LastBlockByte(p, password, salt, c, i, r);
    BlockByteStays(p, password, salt, c, i + 1, all, PlaceOf(p.length, i, r));
  }

  lemma BlockReached(length: nat, n: nat, blocks: nat, i: nat, r: nat)
    requires PlaceOf(length, i, r) < n <= blocks * length
    ensures i + 1 <= blocks
  {
    assert blocks * length == length * blocks;
    if blocks <= i {
      MulMonotone(length, blocks, i);
      assert false;
    }
  }

  lemma BlockByteStays(p: KeyStretch.Prf, password: seq<bv8>, salt: seq<bv8>, c: nat, m: nat, n: nat, j: nat)
    requires p.Valid() && c >= 1 && m <= n && j < |KeyStretch.Blocks(p, password, salt, c, m)|
    ensures j < |KeyStretch.Blocks(p, password, salt, c, n)|
    ensures KeyStretch.Blocks(p, password, salt, c, n)[j] == KeyStretch.Blocks(p, password, salt, c, m)[j]
  {
    hide KeyStretch.Blocks;
    KeyStretch.BlocksGrow(p, password, salt, c, m, n);
    var front := KeyStretch.Blocks(p, password, salt, c, n)[..m * p.length];
    assert front[j] == KeyStretch.Blocks(p, password, salt, c, n)[j];
  }

  lemma LastBlockByte(p: KeyStretch.Prf, password: seq<bv8>, salt: seq<bv8>, c: nat, i: nat, r: nat)
    requires p.Valid() && c >= 1 && r < p.length
    ensures PlaceOf(p.length, i, r) < |KeyStretch.Blocks(p, password, salt, c, i + 1)|
    ensures KeyStretch.Blocks(p, password, salt, c, i + 1)[PlaceOf(p.length, i, r)] ==
            KeyStretch.T(p, password, salt, i + 1, c)[r]
  {
    hide KeyStretch.T;
    assert (i + 1) * p.length == p.length * i + p.length;
  }

  // ---- H' (RFC 9106) ----

  // The values V1, V2, ... from the length and the input on.
  ghost predicate VChain(f: Blake2b.Compressor, number: seq<bv8>, message: seq<bv8>, vs: seq<seq<bv8>>) {
    && vs != [] && vs[0] == Blake2b.Blake2bDigest(f, 64, [], number + message)
    && forall k :: 0 < k < |vs| ==> vs[k] == Blake2b.Blake2bDigest(f, 64, [], vs[k - 1])
  }

  lemma {:induction false} ChainIsV(f: Blake2b.Compressor, number: seq<bv8>, message: seq<bv8>, vs: seq<seq<bv8>>, i: nat)
    requires |number| == 4 && VChain(f, number, message, vs) && 1 <= i <= |vs|
    ensures vs[i - 1] == KeyStretch.V(f, message, FromLittleEndian(number), i)
    decreases i
  {
    hide LittleEndian, FromLittleEndian, Blake2b.Blake2bDigest;
    LittleEndianOf(number);
    if i > 1 {
      ChainIsV(f, number, message, vs, i - 1);
    }
  }

  // The first 32 bytes of each value.
  function Fronts(vs: seq<seq<bv8>>): seq<bv8>
    requires forall k :: 0 <= k < |vs| ==> |vs[k]| >= 32
  {
    if vs == [] then [] else Fronts(vs[..|vs| - 1]) + vs[|vs| - 1][..32]
  }

  lemma {:induction false} FrontsAreHalves(f: Blake2b.Compressor, number: seq<bv8>, message: seq<bv8>, vs: seq<seq<bv8>>, n: nat)
    requires |number| == 4 && VChain(f, number, message, vs) && n <= |vs| && forall k :: 0 <= k < |vs| ==> |vs[k]| >= 32
    ensures Fronts(vs[..n]) == KeyStretch.Halves(f, message, FromLittleEndian(number), n)
    decreases n
  {
    hide FromLittleEndian, Blake2b.Blake2bDigest, KeyStretch.V;
    if n > 0 {
      FrontsAreHalves(f, number, message, vs, n - 1);
      ChainIsV(f, number, message, vs, n);
      assert vs[..n][..n - 1] == vs[..n - 1];
    }
  }

  /** Section 3.3 of RFC 9106: the length in four bytes, the lowest first, and the input are hashed; up to 64 bytes
      that is all, and above, the output is the first halves of r values and a last hash of what remains, where
      r is the length divided by 32, rounded up, less 2. */
  lemma HPrimeIsStandard(f: Blake2b.Compressor, number: seq<bv8>, message: seq<bv8>, vs: seq<seq<bv8>>)
    requires |number| == 4 && (forall k :: 0 <= k < |vs| ==> |vs[k]| == 64)
    requires FromLittleEndian(number) > 64 ==> VChain(f, number, message, vs)
    requires FromLittleEndian(number) > 64 ==> 32 * (|vs| + 1) < FromLittleEndian(number) <= 32 * (|vs| + 2)
    ensures
      var n := FromLittleEndian(number);
      KeyStretch.HPrime(f, message, n) ==
      if n <= 64 then Blake2b.Blake2bDigest(f, n, [], number + message)
      else Fronts(vs) + Blake2b.Blake2bDigest(f, n - 32 * |vs|, [], vs[|vs| - 1])
  {
    hide LittleEndian, FromLittleEndian, Blake2b.Blake2bDigest, VChain, KeyStretch.V, KeyStretch.Halves;
    var n, r := FromLittleEndian(number), |vs|;
    LittleEndianOf(number);
    if n > 64 {
      DivModUnique(n + 31, 32, r + 2, n + 31 - 32 * (r + 2));
      assert KeyStretch.HalfBlocks(n) == r;
      FrontsAreHalves(f, number, message, vs, r);
      ChainIsV(f, number, message, vs, r);
      assert vs[..r] == vs;
    }
  }

  // ---- The anti-forensic merge ----

  // One turn: the running value is combined with a stripe and hashed together with the number of the stripe in
  // four bytes, the highest first; the hash replaces the front.
  ghost predicate Diffuses(h: AntiForensic.Diffuser, number: seq<bv8>, before: seq<bv8>, stripe: seq<bv8>, after: seq<bv8>)
    requires |before| == |stripe| == |after|
  {
    var digest := h(XorSeq(before, stripe) + number);
    forall j :: 0 <= j < |after| ==> after[j] == if j < |digest| then digest[j] else Xor(before[j], stripe[j])
  }

  lemma DiffusesIs(h: AntiForensic.Diffuser, number: seq<bv8>, before: seq<bv8>, stripe: seq<bv8>, after: seq<bv8>)
    requires |before| == |stripe| == |after| && |number| == 4 && Diffuses(h, number, before, stripe, after)
    ensures after == AntiForensic.Diffused(h, XorSeq(before, stripe), FromBigEndian(number))
  {
    hide BigEndian, FromBigEndian, Xor;
    BigEndianOf(number);
  }

  // The running values over all stripes but the last, from zeros on.
  ghost predicate MergeChain(h: AntiForensic.Diffuser, split: seq<bv8>, keyBytes: nat, numbers: seq<seq<bv8>>,
                             ds: seq<seq<bv8>>) {
    && |ds| == |numbers| + 1 && ds[0] == Zeros(keyBytes) && (forall s :: 0 <= s < |ds| ==> |ds[s]| == keyBytes)
    && forall s: nat :: s < |numbers| ==> MergeLink(h, split, keyBytes, numbers, ds, s)
  }

  ghost predicate MergeLink(h: AntiForensic.Diffuser, split: seq<bv8>, keyBytes: nat, numbers: seq<seq<bv8>>,
                            ds: seq<seq<bv8>>, s: nat)
    requires s < |numbers| && |ds| == |numbers| + 1 && forall s :: 0 <= s < |ds| ==> |ds[s]| == keyBytes
  {
    && |numbers[s]| == 4 && FromBigEndian(numbers[s]) == s && PartsEnd(s + 1, keyBytes) <= |split|
    && Diffuses(h, numbers[s], ds[s], PartOf(split, keyBytes, s), ds[s + 1])
  }

  lemma {:induction false} ChainIsFolded(h: AntiForensic.Diffuser, split: seq<bv8>, keyBytes: nat, numbers: seq<seq<bv8>>,
                                         ds: seq<seq<bv8>>, n: nat)
    requires MergeChain(h, split, keyBytes, numbers, ds) && n <= |numbers|
    ensures AntiForensic.Start(n, keyBytes) <= |split|
    ensures ds[n] == AntiForensic.Folded(h, split, keyBytes, n)
    decreases n
  {
    hide FromBigEndian, Diffuses, AntiForensic.Diffused;
    if n > 0 {
      ChainIsFolded(h, split, keyBytes, numbers, ds, n - 1);
      assert MergeLink(h, split, keyBytes, numbers, ds, n - 1);
      DiffusesIs(h, numbers[n - 1], ds[n - 1], PartOf(split, keyBytes, n - 1), ds[n]);
      assert AntiForensic.Stripe(split, keyBytes, n - 1) == PartOf(split, keyBytes, n - 1);
    }
  }

  /** The merged key is the last running value combined with the last stripe. */
  lemma MergeIsChain(h: AntiForensic.Diffuser, split: seq<bv8>, keyBytes: nat, numbers: seq<seq<bv8>>, ds: seq<seq<bv8>>, j: nat)
    requires MergeChain(h, split, keyBytes, numbers, ds) && PartsEnd(|numbers| + 1, keyBytes) <= |split| && j < keyBytes
    ensures AntiForensic.Start(|numbers| + 1, keyBytes) <= |split|
    ensures AntiForensic.Merged(h, split, |numbers| + 1, keyBytes)[j] ==
            Xor(ds[|numbers|][j], PartOf(split, keyBytes, |numbers|)[j])
  {
    hide MergeChain, Xor, AntiForensic.Folded;
    ChainIsFolded(h, split, keyBytes, numbers, ds, |numbers|);
    assert AntiForensic.Stripe(split, keyBytes, |numbers|) == PartOf(split, keyBytes, |numbers|);
  }
}
