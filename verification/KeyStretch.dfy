/** Key material of any length: the variable-length hash H' of Argon2 (section 3.3 of RFC 9106) and
    PBKDF2 (section 5.2 of RFC 8018). The hashes underneath are parameters. */
module KeyStretch {
  import opened Bytes
  import opened Blake2b

  // ---- H' ----

  function HashTo(f: Compressor, outLen: nat, message: seq<bv8>): seq<bv8>
    requires outLen <= 64
  {
    Blake2bDigest(f, outLen, [], message)
  }

  // V1 is the hash of the length and the input; every later one is the hash of the one before.
  function V(f: Compressor, message: seq<bv8>, outLen: nat, i: nat): seq<bv8>
    requires i >= 1
    decreases i
  {
    if i == 1 then HashTo(f, 64, LittleEndian(outLen, 4) + message) else HashTo(f, 64, V(f, message, outLen, i - 1))
  }

  // The first 32 bytes of V1 to Vr, one after another.
  function Halves(f: Compressor, message: seq<bv8>, outLen: nat, r: nat): seq<bv8>
    decreases r
  {
    if r == 0 then [] else Halves(f, message, outLen, r - 1) + Prefix(V(f, message, outLen, r), 32)
  }

  // r = ceil(T / 32) - 2
  function HalfBlocks(outLen: nat): nat
    requires outLen > 64
  {
    (outLen + 31) / 32 - 2
  }

  function HPrime(f: Compressor, message: seq<bv8>, outLen: nat): seq<bv8> {
    if outLen <= 64 then HashTo(f, outLen, LittleEndian(outLen, 4) + message)
    else
      var r := HalfBlocks(outLen);
      LastHash(outLen);
      Halves(f, message, outLen, r) + HashTo(f, outLen - 32 * r, V(f, message, outLen, r))
  }

  lemma LastHash(outLen: nat)
    requires outLen > 64
    ensures HalfBlocks(outLen) >= 1 && 32 < outLen - 32 * HalfBlocks(outLen) <= 64
  {
    Divided(outLen + 31, 32);
  }

  // The digest has the length asked for.
  lemma {:induction false} SerializedLength(h: Blake2bWords)
    ensures |Serialized(h)| == 8 * |h|
    decreases |h|
  {
    if h != [] {
      SerializedLength(h[1..]);
    }
  }

  // A compression function that keeps the eight words of the chain value.
  ghost predicate KeepsWords(f: Compressor) {
    forall h: Blake2bWords, b: seq<bv8>, t: nat, last: bool :: |f(h, b, t, last)| == 8
  }

  lemma HashLength(f: Compressor, outLen: nat, message: seq<bv8>)
    requires outLen <= 64 && KeepsWords(f)
    ensures |HashTo(f, outLen, message)| == outLen
  {
    hide Last, Serialized, StartWords;
    var start, input := StartWords(outLen, 0), KeyBlock([]) + message;
    LastLength(f, start, input);
    SerializedLength(Last(f, start, input));
  }

  lemma LastLength(f: Compressor, start: Blake2bWords, input: seq<bv8>)
    requires KeepsWords(f)
    ensures |Last(f, start, input)| == 8
  {
    var k := EarlierBlocks(|input|);
    var block := input[k * BLOCK..];
    var h := Earlier(f, start, input, k);
    assert |f(h, block + Zeros(BLOCK - |block|), Wrapped(|input|), true)| == 8;
  }

  lemma {:induction false} HalvesLength(f: Compressor, message: seq<bv8>, outLen: nat, r: nat)
    requires KeepsWords(f)
    ensures |Halves(f, message, outLen, r)| == 32 * r
    decreases r
  {
    hide HashTo;
    if r > 0 {
      HalvesLength(f, message, outLen, r - 1);
      VLength(f, message, outLen, r);
    }
  }

  lemma VLength(f: Compressor, message: seq<bv8>, outLen: nat, i: nat)
    requires i >= 1 && KeepsWords(f)
    ensures |V(f, message, outLen, i)| == 64
  {
    hide HashTo;
    if i == 1 {
      HashLength(f, 64, LittleEndian(outLen, 4) + message);
    } else {
      HashLength(f, 64, V(f, message, outLen, i - 1));
    }
  }

  /** Every length comes out as asked for. */
  lemma HPrimeLength(f: Compressor, message: seq<bv8>, outLen: nat)
    requires KeepsWords(f)
    ensures |HPrime(f, message, outLen)| == outLen
  {
    hide HashTo, V, Halves;
    if outLen <= 64 {
      HashLength(f, outLen, LittleEndian(outLen, 4) + message);
    } else {
      var r := HalfBlocks(outLen);
      LastHash(outLen);
      HalvesLength(f, message, outLen, r);
      HashLength(f, outLen - 32 * r, V(f, message, outLen, r));
    }
  }

  method HashTwo(f: Compressor, outLen: nat, a: seq<bv8>, b: seq<bv8>) returns (out: seq<bv8>)
    requires outLen <= 64
    ensures out == HashTo(f, outLen, a + b)
  {
    hide StartWords, Last, Serialized, Prefix;
    var s := new Blake2bStream(f, outLen, []);
    s.Update(a);
    s.Update(b);
    assert s.absorbed == KeyBlock([]) + (a + b);
    out := s.Final();
  }

  // Consecutive places.
  function UpTo(from: nat, end: nat): (r: seq<nat>)
    requires from <= end
    ensures |r| == end - from && forall i :: 0 <= i < |r| ==> r[i] == from + i
  {
    seq<nat>(end - from, i requires i >= 0 => from + i)
  }

  /** The code writes the bytes of H' to the first outLen places, one place after the other and each of
      them once, and no others. */
  method HPrimeInto(f: Compressor, message: seq<bv8>, out: array<bv8>, outLen: nat) returns (ghost places: seq<nat>)
    requires KeepsWords(f) && outLen <= out.Length && outLen < U32
    modifies out
    ensures out[..outLen] == HPrime(f, message, outLen)
    ensures out[outLen..] == old(out[outLen..])
    ensures places == UpTo(0, outLen)
  {
    hide HashTo, HPrime;
    HPrimeUnfolds(f, message, outLen);
    if outLen <= 64 {
      var d := HashTwo(f, outLen, LittleEndian(outLen, 4), message);
      HashLength(f, outLen, LittleEndian(outLen, 4) + message);
      places := CopyPart(d, out, 0, outLen);
      assert out[..outLen] == out[..0] + out[0..outLen];
    } else {
      places := HPrimeLong(f, message, out, outLen);
    }
  }

  method HPrimeLong(f: Compressor, message: seq<bv8>, out: array<bv8>, outLen: nat) returns (ghost places: seq<nat>)
    requires KeepsWords(f) && 64 < outLen <= out.Length && outLen < U32
    modifies out
    ensures out[..outLen] == HPrime(f, message, outLen)
    ensures out[outLen..] == old(out[outLen..])
    ensures places == UpTo(0, outLen)
  {
    hide HashTo, V, Halves, Blake2bDigest, HPrime, KeepsWords;
    var prev;
    prev, places := FirstHalf(f, message, out, outLen);
    var written, remaining := 32, outLen - 32;
    ghost var i := 1;
    while remaining > 64
      invariant i >= 1 && written == 32 * i && written + remaining == outLen && remaining > 32
      invariant prev == V(f, message, outLen, i) && |prev| == 64
      invariant out[..written] == Halves(f, message, outLen, i)
      invariant out[outLen..] == old(out[outLen..])
      invariant places == UpTo(0, written)
    {
      ghost var more;
      prev, more := NextHalf(f, message, prev, out, written, outLen, i);
      places := places + more;
      written, remaining := written + 32, remaining - 32;
      i := i + 1;
    }
    LastHash(outLen);
    ghost var more := LastPart(f, message, prev, out, written, remaining, outLen);
    places := places + more;
  }

  method FirstHalf(f: Compressor, message: seq<bv8>, out: array<bv8>, outLen: nat)
    returns (first: seq<bv8>, ghost places: seq<nat>)
    requires KeepsWords(f) && 64 < outLen <= out.Length
    modifies out
    ensures first == V(f, message, outLen, 1) && |first| == 64
    ensures out[..32] == Halves(f, message, outLen, 1) && places == UpTo(0, 32)
    ensures out[outLen..] == old(out[outLen..])
  {
    hide HashTo, V, Halves, Blake2bDigest, KeepsWords;
    first := HashTwo(f, 64, LittleEndian(outLen, 4), message);
    ChainUnfolds(f, message, outLen, 1);
    VLength(f, message, outLen, 1);
    places := CopyPart(first, out, 0, 32);
    assert out[..32] == out[0..32];
    assert out[outLen..] == out[32..][outLen - 32..];
  }

  method LastPart(f: Compressor, message: seq<bv8>, prev: seq<bv8>, out: array<bv8>, written: nat, remaining: nat, outLen: nat)
    returns (ghost places: seq<nat>)
    requires KeepsWords(f) && 64 < outLen <= out.Length && written + remaining == outLen
    requires written == 32 * HalfBlocks(outLen) && 32 < remaining <= 64 && HalfBlocks(outLen) >= 1
    requires prev == V(f, message, outLen, HalfBlocks(outLen)) && out[..written] == Halves(f, message, outLen, HalfBlocks(outLen))
    modifies out
    ensures places == UpTo(written, outLen)
    ensures out[..outLen] == HPrime(f, message, outLen)
    ensures out[outLen..] == old(out[outLen..])
  {
    hide HashTo, V, Halves, Blake2bDigest, HPrime, KeepsWords, HalfBlocks;
    HPrimeUnfolds(f, message, outLen);
    var d := Hash(f, prev, [], remaining);
    HashIsHashTo(f, remaining, prev);
    HashLength(f, remaining, prev);
    places := CopyPart(d, out, written, remaining);
    assert out[..outLen] == out[..written] + out[written..outLen];
  }

  // One turn of the loop.
  method NextHalf(f: Compressor, message: seq<bv8>, prev: seq<bv8>, out: array<bv8>, written: nat, outLen: nat, ghost i: nat)
    returns (next: seq<bv8>, ghost places: seq<nat>)
    requires KeepsWords(f) && i >= 1 && written == 32 * i && written + 64 < outLen <= out.Length
    requires prev == V(f, message, outLen, i) && out[..written] == Halves(f, message, outLen, i)
    modifies out
    ensures next == V(f, message, outLen, i + 1) && |next| == 64 && places == UpTo(written, written + 32)
    ensures out[..written + 32] == Halves(f, message, outLen, i + 1)
    ensures out[outLen..] == old(out[outLen..])
  {
    hide HashTo, V, Halves, Blake2bDigest, KeepsWords;
    next := Hash(f, prev, [], 64);
    ChainUnfolds(f, message, outLen, i + 1);
    VLength(f, message, outLen, i + 1);
    ghost var tail := out[written + 32..];
    places := CopyPart(next, out, written, 32);
    assert out[..written + 32] == out[..written] + out[written..written + 32];
    assert out[outLen..] == out[written + 32..][outLen - written - 32..];
  }

  lemma HashIsHashTo(f: Compressor, outLen: nat, message: seq<bv8>)
    requires outLen <= 64
    ensures HashTo(f, outLen, message) == Blake2bDigest(f, outLen, [], message)
  {
  }

  lemma ChainUnfolds(f: Compressor, message: seq<bv8>, outLen: nat, i: nat)
    requires i >= 1
    ensures V(f, message, outLen, i) ==
            if i == 1 then HashTo(f, 64, LittleEndian(outLen, 4) + message)
            else Blake2bDigest(f, 64, [], V(f, message, outLen, i - 1))
    ensures Halves(f, message, outLen, i) == Halves(f, message, outLen, i - 1) + Prefix(V(f, message, outLen, i), 32)
    ensures Halves(f, message, outLen, 0) == []
  {
  }

  lemma HPrimeUnfolds(f: Compressor, message: seq<bv8>, outLen: nat)
    ensures outLen <= 64 ==> HPrime(f, message, outLen) == HashTo(f, outLen, LittleEndian(outLen, 4) + message)
    ensures outLen > 64 ==> HalfBlocks(outLen) >= 1 && 32 < outLen - 32 * HalfBlocks(outLen) <= 64
    ensures outLen > 64 ==>
      var r := HalfBlocks(outLen);
      HPrime(f, message, outLen) ==
      Halves(f, message, outLen, r) + HashTo(f, outLen - 32 * r, V(f, message, outLen, r))
  {
    if outLen > 64 {
      LastHash(outLen);
    }
  }

  // Copies to consecutive places, and says in which order it wrote them.
  method CopyPart(from: seq<bv8>, to: array<bv8>, off: nat, n: nat) returns (ghost places: seq<nat>)
    requires n <= |from| && off + n <= to.Length
    modifies to
    ensures to[..off] == old(to[..off]) && to[off + n..] == old(to[off + n..])
    ensures to[off..off + n] == from[..n]
    ensures places == UpTo(off, off + n)
  {
    places := [];
    for i := 0 to n
      invariant to[..off] == old(to[..off]) && to[off + n..] == old(to[off + n..])
      invariant to[off..off + i] == from[..i]
      invariant places == UpTo(off, off + i)
    {
      to[off + i] := from[i];
      places := places + [off + i];
    }
  }

  // ---- PBKDF2 ----

  // A keyed hash of fixed length.
  datatype Prf = Prf(length: nat, hmac: (seq<bv8>, seq<bv8>) -> seq<bv8>) {
    ghost predicate Valid() {
      0 < length <= 64 && forall key: seq<bv8>, text: seq<bv8> :: |hmac(key, text)| == length
    }
  }

  // U_c of block i: U_1 is over the salt and the block number, each later one over the one before.
  function U(p: Prf, password: seq<bv8>, salt: seq<bv8>, i: nat, c: nat): (r: seq<bv8>)
    requires p.Valid() && c >= 1
    ensures |r| == p.length
    decreases c
  {
    p.hmac(password, if c == 1 then salt + BigEndian(i, 4) else U(p, password, salt, i, c - 1))
  }

  // T_i with c iterations: the exclusive or of the chain.
  function T(p: Prf, password: seq<bv8>, salt: seq<bv8>, i: nat, c: nat): (r: seq<bv8>)
    requires p.Valid() && c >= 1
    ensures |r| == p.length
    decreases c
  {
    if c == 1 then U(p, password, salt, i, 1)
    else XorSeq(T(p, password, salt, i, c - 1), U(p, password, salt, i, c))
  }

  // Where the first n blocks end.
  function BlockEnd(p: Prf, n: nat): nat {
    n * p.length
  }

  // T_1, T_2, ... T_n.
  function Blocks(p: Prf, password: seq<bv8>, salt: seq<bv8>, c: nat, n: nat): (r: seq<bv8>)
    requires p.Valid() && c >= 1
    ensures |r| == BlockEnd(p, n)
    decreases n
  {
    if n == 0 then []
    else
      assert n * p.length == (n - 1) * p.length + p.length;
      Blocks(p, password, salt, c, n - 1) + T(p, password, salt, n, c)
  }

  // The number of blocks that cover n bytes.
  function BlocksFor(p: Prf, n: nat): (b: nat)
    requires p.Valid()
    ensures n <= b * p.length
  {
    Divided(n + p.length - 1, p.length);
    assert (n + p.length - 1) / p.length * p.length >= n;
    (n + p.length - 1) / p.length
  }

  function DerivedKey(p: Prf, password: seq<bv8>, salt: seq<bv8>, c: nat, n: nat): (r: seq<bv8>)
    requires p.Valid() && c >= 1
    ensures |r| == n
  {
    Blocks(p, password, salt, c, BlocksFor(p, n))[..n]
  }

  lemma {:induction false} BlocksGrow(p: Prf, password: seq<bv8>, salt: seq<bv8>, c: nat, m: nat, n: nat)
    requires p.Valid() && c >= 1 && m <= n
    ensures m * p.length <= n * p.length
    ensures Blocks(p, password, salt, c, n)[..m * p.length] == Blocks(p, password, salt, c, m)
    decreases n
  {
    MulMonotone(p.length, m, n);
    if m < n {
      MulMonotone(p.length, m, n - 1);
      BlocksGrow(p, password, salt, c, m, n - 1);
    }
  }

  /** A shorter key is a prefix of a longer one from the same password. */
  lemma ShorterKeyIsPrefix(p: Prf, password: seq<bv8>, salt: seq<bv8>, c: nat, m: nat, n: nat)
    requires p.Valid() && c >= 1 && m <= n
    ensures DerivedKey(p, password, salt, c, n)[..m] == DerivedKey(p, password, salt, c, m)
  {
    hide Blocks;
    var a, b := BlocksFor(p, m), BlocksFor(p, n);
    if a <= b {
      BlocksGrow(p, password, salt, c, a, b);
      assert Blocks(p, password, salt, c, b)[..a * p.length][..m] == Blocks(p, password, salt, c, b)[..n][..m];
    } else {
      BlocksGrow(p, password, salt, c, b, a);
      assert Blocks(p, password, salt, c, a)[..b * p.length][..m] == Blocks(p, password, salt, c, b)[..m];
    }
  }

  method XorBuf(dst: array<bv8>, src: seq<bv8>)
    requires |src| <= dst.Length
    modifies dst
    ensures dst[..|src|] == XorSeq(old(dst[..|src|]), src)
    ensures dst[|src|..] == old(dst[|src|..])
  {
    hide Xor;
    for i := 0 to |src|
      invariant forall j :: 0 <= j < i ==> dst[j] == Xor(old(dst[j]), src[j])
      invariant forall j :: i <= j < dst.Length ==> dst[j] == old(dst[j])
    {
      dst[i] := Xor(dst[i], src[i]);
    }
  }

  // One block: the chain of keyed hashes, folded together.
  method DeriveBlock(p: Prf, password: seq<bv8>, salt: seq<bv8>, iters: nat, blk: nat, t: array<bv8>)
    requires p.Valid() && t.Length == 64
    modifies t
    ensures t[..p.length] == T(p, password, salt, blk, if iters == 0 then 1 else iters)
  {
    hide XorSeq;
    var u := p.hmac(password, salt + BigEndian(blk, 4));
    ghost var _ := CopyPart(u, t, 0, p.length);
    assert t[..p.length] == t[0..p.length] == u[..p.length] == u;
    var c := 1;
    while c < iters
      invariant 1 <= c <= (if iters == 0 then 1 else iters)
      invariant u == U(p, password, salt, blk, c) && t[..p.length] == T(p, password, salt, blk, c)
    {
      u := p.hmac(password, u);
      XorBuf(t, u);
      c := c + 1;
    }
  }

  // How many bytes a turn of the loop takes from a block.
  function Taken(left: nat, length: nat): (n: nat)
    ensures n <= left
  {
    if left < length then left else length
  }

  // What is still wanted after so many turns.
  function LeftAfter(dklen: nat, length: nat, turns: nat): (left: nat)
    ensures left <= dklen
  {
    if turns == 0 then dklen
    else LeftAfter(dklen, length, turns - 1) - Taken(LeftAfter(dklen, length, turns - 1), length)
  }

  /** The loop comes to an end exactly when the digest is not empty. The digest size of an unknown hash
      identifier is 0, so for one the loop never ends. */
  lemma LoopEndsExactly(dklen: nat, length: nat)
    requires dklen > 0
    ensures (exists turns: nat :: LeftAfter(dklen, length, turns) == 0) <==> length > 0
  {
    if length > 0 {
      LeftShrinks(dklen, length, dklen);
    } else {
      forall turns: nat ensures LeftAfter(dklen, length, turns) == dklen {
        LeftStays(dklen, turns);
      }
    }
  }

  lemma {:induction false} LeftShrinks(dklen: nat, length: nat, turns: nat)
    requires length > 0
    ensures LeftAfter(dklen, length, turns) == 0 || LeftAfter(dklen, length, turns) + turns <= dklen
    decreases turns
  {
    if turns > 0 {
      LeftShrinks(dklen, length, turns - 1);
    }
  }

  lemma {:induction false} LeftStays(dklen: nat, turns: nat)
    ensures LeftAfter(dklen, 0, turns) == dklen
    decreases turns
  {
    if turns > 0 {
      LeftStays(dklen, turns - 1);
    }
  }

  /** The code writes exactly the first dklen bytes of T_1, T_2, ... */
  method Pbkdf2(p: Prf, password: seq<bv8>, salt: seq<bv8>, iters: nat, dk: array<bv8>, dklen: nat)
    requires p.Valid() && |salt| <= 508 && dklen <= dk.Length
    modifies dk
    ensures dk[..dklen] == DerivedKey(p, password, salt, if iters == 0 then 1 else iters, dklen)
    ensures dk[dklen..] == old(dk[dklen..])
  {
    assert BlockEnd(p, 0) == 0;
    ghost var c := if iters == 0 then 1 else iters;
    assert Covers(p, password, salt, c, 0, []);
    hide T, BlockEnd, Blocks, DerivedKey, Prf.Valid, Covers;
    var t := new bv8[64];
    var outOff: nat, left: nat, blk: nat := 0, dklen, 1;
    ghost var done := 0;
    while left > 0
      invariant outOff + left == dklen && blk == done + 1
      invariant Covers(p, password, salt, c, done, dk[..outOff]) && (left > 0 ==> outOff == BlockEnd(p, done))
      invariant forall j :: dklen <= j < dk.Length ==> dk[j] == old(dk[j])
    {
      var take := TakeBlock(p, password, salt, iters, blk, t, dk, outOff, left, c, dklen);
      outOff, left, blk := outOff + take, left - take, blk + 1;
      done := done + 1;
    }
    CoveredKey(p, password, salt, c, done, dk[..dklen]);
  }

  // A beginning of the first n blocks.
  ghost predicate Covers(p: Prf, password: seq<bv8>, salt: seq<bv8>, c: nat, n: nat, bytes: seq<bv8>)
    requires p.Valid() && c >= 1
  {
    bytes <= Blocks(p, password, salt, c, n)
  }

  lemma CoveredKey(p: Prf, password: seq<bv8>, salt: seq<bv8>, c: nat, n: nat, bytes: seq<bv8>)
    requires p.Valid() && c >= 1 && Covers(p, password, salt, c, n, bytes)
    ensures bytes == DerivedKey(p, password, salt, c, |bytes|)
  {
    hide Blocks, DerivedKey;
    Covered(p, password, salt, c, n, |bytes|);
  }

  // One turn of the loop: as much of the next block as is still wanted.
  method TakeBlock(p: Prf, password: seq<bv8>, salt: seq<bv8>, iters: nat, blk: nat, t: array<bv8>, dk: array<bv8>,
                   outOff: nat, left: nat, ghost c: nat, ghost end: nat)
    returns (take: nat)
    requires p.Valid() && t.Length == 64 && t != dk && blk >= 1 && left > 0 && outOff + left == end <= dk.Length
    requires c == if iters == 0 then 1 else iters
    requires outOff == BlockEnd(p, blk - 1) && Covers(p, password, salt, c, blk - 1, dk[..outOff])
    modifies t, dk
    ensures 0 < take <= left && Covers(p, password, salt, c, blk, dk[..outOff + take])
    ensures take < left ==> outOff + take == BlockEnd(p, blk)
    ensures forall j :: end <= j < dk.Length ==> dk[j] == old(dk[j])
  {
    hide T, Blocks, BlockEnd;
    DeriveBlock(p, password, salt, iters, blk, t);
    take := Taken(left, p.length);
    BlockAppended(p, password, salt, c, blk, take, dk[..outOff], t[..p.length]);
    CopyBlock(t, dk, outOff, take, end);
    assert dk[..outOff + take] == dk[..outOff] + t[..p.length][..take];
    assert forall j :: end <= j < dk.Length ==> dk[j] == dk[end..][j - end];
  }

  method CopyBlock(t: array<bv8>, dk: array<bv8>, off: nat, n: nat, ghost end: nat)
    requires n <= t.Length && off + n <= end <= dk.Length && t != dk
    modifies dk
    ensures dk[..off] == old(dk[..off]) && dk[end..] == old(dk[end..])
    ensures dk[off..off + n] == t[..n]
  {
    for i := 0 to n
      invariant dk[..off] == old(dk[..off]) && dk[end..] == old(dk[end..])
      invariant dk[off..off + i] == t[..i]
    {
      dk[off + i] := t[i];
    }
  }

  lemma BlockAppended(p: Prf, password: seq<bv8>, salt: seq<bv8>, c: nat, blk: nat, take: nat, done: seq<bv8>, t: seq<bv8>)
    requires p.Valid() && c >= 1 && blk >= 1 && take <= p.length && t == T(p, password, salt, blk, c)
    requires done == Blocks(p, password, salt, c, blk - 1)
    ensures BlockEnd(p, blk) == BlockEnd(p, blk - 1) + p.length
    ensures done + t[..take] <= Blocks(p, password, salt, c, blk)
  {
    hide T;
    assert blk * p.length == (blk - 1) * p.length + p.length;
    assert Blocks(p, password, salt, c, blk) == done + t;
  }

  // Any number of blocks that covers the key gives it.
  lemma Covered(p: Prf, password: seq<bv8>, salt: seq<bv8>, c: nat, n: nat, dklen: nat)
    requires p.Valid() && c >= 1 && dklen <= BlockEnd(p, n)
    ensures Blocks(p, password, salt, c, n)[..dklen] == DerivedKey(p, password, salt, c, dklen)
  {
    hide Blocks;
    var b := BlocksFor(p, dklen);
    if b <= n {
      BlocksGrow(p, password, salt, c, b, n);
      assert Blocks(p, password, salt, c, n)[..b * p.length][..dklen] == Blocks(p, password, salt, c, n)[..dklen];
    } else {
      BlocksGrow(p, password, salt, c, n, b);
      assert Blocks(p, password, salt, c, b)[..n * p.length][..dklen] == Blocks(p, password, salt, c, b)[..dklen];
    }
  }
}
