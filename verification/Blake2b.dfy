/** BLAKE2b (RFC 7693) as a stream: the buffer is compressed only when more input arrives, so that the
    last block is still there when the end is known. The compression function is a parameter. */
module Blake2b {
  import opened Bytes

  const BLOCK: nat := 128

  type Blake2bWords = seq<bv64>

  // Chain value, block, byte counter and final flag to the next chain value.
  type Compressor = (Blake2bWords, seq<bv8>, nat, bool) -> Blake2bWords

  const IV: Blake2bWords := [
    0x6a09e667f3bcc908, 0xbb67ae8584caa73b, 0x3c6ef372fe94f82b, 0xa54ff53a5f1d36f1,
    0x510e527fade682d1, 0x9b05688c2b3e6c1f, 0x1f83d9abfb41bd6b, 0x5be0cd19137e2179]

  // ---- Section 3.3 of RFC 7693 ----

  function ParameterWord(outLen: nat, keyLen: nat): bv64
    requires outLen <= 64 && keyLen <= 128
  {
    Parameters(Word(outLen), Word(keyLen))
  }

  function Word(n: nat): bv64
    requires n <= 128
  {
    n as bv64
  }

  function Parameters(outLen: bv64, keyLen: bv64): bv64 {
    0x01010000 ^ (keyLen << 8) ^ outLen
  }

  function StartWords(outLen: nat, keyLen: nat): Blake2bWords
    requires outLen <= 64 && keyLen <= 128
  {
    IV[0 := IV[0] ^ ParameterWord(outLen, keyLen)]
  }

  // The key, if there is one, fills the first block.
  function KeyBlock(key: seq<bv8>): seq<bv8>
    requires |key| <= BLOCK
  {
    if key == [] then [] else key + Zeros(BLOCK - |key|)
  }

  // How many blocks come before the last one, which is never empty unless there is no input at all.
  function EarlierBlocks(n: nat): nat {
    if n == 0 then 0 else (n - 1) / BLOCK
  }

  /** Section 3.3 of RFC 7693: the last of ceil(n / 128) blocks holds between 1 and 128 bytes. */
  lemma LastBlockNotEmpty(n: nat)
    requires n > 0
    ensures 0 < n - EarlierBlocks(n) * BLOCK <= BLOCK
    ensures EarlierBlocks(n) + 1 == (n + BLOCK - 1) / BLOCK
  {
    Divided(n - 1, BLOCK);
    DivModUnique(n + BLOCK - 1, BLOCK, (n - 1) / BLOCK + 1, (n - 1) % BLOCK);
  }

  // The chain value after the first k blocks, none of them the last.
  function Earlier(f: Compressor, start: Blake2bWords, input: seq<bv8>, k: nat): Blake2bWords
    requires k * BLOCK <= |input|
    decreases k
  {
    if k == 0 then start
    else f(Earlier(f, start, input, k - 1), input[(k - 1) * BLOCK..k * BLOCK], Wrapped(k * BLOCK), false)
  }

  // The last block, padded with zeros, with the final flag and the whole length.
  function Last(f: Compressor, start: Blake2bWords, input: seq<bv8>): Blake2bWords {
    var k := EarlierBlocks(|input|);
    var block := input[k * BLOCK..];
    assert |block| <= BLOCK;
    f(Earlier(f, start, input, k), block + Zeros(BLOCK - |block|), Wrapped(|input|), true)
  }

  // The words, little-endian, one after another.
  function Serialized(h: Blake2bWords): seq<bv8> {
    if h == [] then [] else LittleEndian(h[0] as nat, 8) + Serialized(h[1..])
  }

  function Prefix(s: seq<bv8>, n: nat): seq<bv8> {
    if n <= |s| then s[..n] else s
  }

  function Blake2bDigest(f: Compressor, outLen: nat, key: seq<bv8>, message: seq<bv8>): seq<bv8>
    requires outLen <= 64 && |key| <= BLOCK
  {
    Prefix(Serialized(Last(f, StartWords(outLen, |key|), KeyBlock(key) + message)), outLen)
  }

  // ---- The counter ----

  function Wrapped(n: nat): nat {
    n % (U64 * U64)
  }

  /** Adding to the low word and carrying into the high one advances the byte count. */
  lemma CounterAdvances(lo: nat, hi: nat, n: nat, len: nat)
    requires lo < U64 && hi < U64 && len < U64 && CounterValue(lo, hi) == Wrapped(n)
    ensures
      var lo' := (lo + len) % U64;
      var hi' := if lo' < len then (hi + 1) % U64 else hi;
      lo' < U64 && hi' < U64 && CounterValue(lo', hi') == Wrapped(n + len)
  {
    CounterCarries(lo, hi, len);
    ModOfSum(n, len, U64 * U64);
  }

  // ---- The stream ----

  class Blake2bStream {
    const f: Compressor
    ghost const start: Blake2bWords
    const outLen: nat
    var h: Blake2bWords
    var t0: nat
    var t1: nat
    const buf: array<bv8>
    var bufLen: nat
    // the input so far, the key block first, and how many of its blocks have been compressed
    ghost var absorbed: seq<bv8>
    ghost var compressed: nat

    ghost predicate Valid()
      reads this, buf
    {
      && buf.Length == BLOCK && bufLen <= BLOCK && outLen <= 64
      && |absorbed| == compressed * BLOCK + bufLen
      && (compressed > 0 ==> bufLen > 0)
      && h == Earlier(f, start, absorbed, compressed)
      && buf[..bufLen] == absorbed[compressed * BLOCK..]
      && t0 < U64 && t1 < U64 && CounterValue(t0, t1) == Wrapped(compressed * BLOCK)
    }

    constructor (f: Compressor, outLen: nat, key: seq<bv8>)
      requires outLen <= 64 && |key| <= BLOCK
      ensures Valid() && fresh(buf) && this.f == f && this.outLen == outLen
      ensures start == StartWords(outLen, |key|) && absorbed == KeyBlock(key)
    {
      hide StartWords;
      this.f, this.outLen := f, outLen;
      this.start := StartWords(outLen, |key|);
      this.h := StartWords(outLen, |key|);
      this.t0, this.t1, this.bufLen := 0, 0, 0;
      this.buf := new bv8[BLOCK];
      this.absorbed, this.compressed := KeyBlock(key), 0;
      new;
      for i := 0 to BLOCK
        modifies buf
        invariant forall j :: 0 <= j < i ==> buf[j] == 0
      {
        buf[i] := 0;
      }
      if |key| > 0 {
        for i := 0 to |key|
          modifies buf
          invariant forall j :: 0 <= j < i ==> buf[j] == key[j]
          invariant forall j :: i <= j < BLOCK ==> buf[j] == 0
        {
          buf[i] := key[i];
        }
        bufLen := BLOCK;
        assert buf[..] == KeyBlock(key);
      }
    }

    method Update(data: seq<bv8>)
      requires Valid()
      modifies this, buf
      ensures Valid() && absorbed == old(absorbed) + data
    {
      hide Valid;
      assert data[..0] == [];
      for i := 0 to |data|
        invariant Valid() && absorbed == old(absorbed) + data[..i]
      {
        Absorb(data[i]);
        assert data[..i + 1] == data[..i] + [data[i]];
      }
      assert data[..|data|] == data;
    }

    // One turn of the loop.
    method Absorb(b: bv8)
      requires Valid()
      modifies this, buf
      ensures Valid() && absorbed == old(absorbed) + [b]
    {
      hide Earlier, Wrapped, CounterValue;
      if bufLen == BLOCK {
        Flush();
      }
      AbsorbByte(b);
    }

    // Compresses the full buffer; afterwards it is empty and more input must follow.
    method Flush()
      requires Valid() && bufLen == BLOCK
      modifies this`h, this`t0, this`t1, this`bufLen, this`compressed
      ensures bufLen == 0 && compressed == old(compressed) + 1
      ensures |absorbed| == compressed * BLOCK && h == Earlier(f, start, absorbed, compressed)
      ensures t0 < U64 && t1 < U64 && CounterValue(t0, t1) == Wrapped(compressed * BLOCK)
    {
      hide Wrapped, CounterValue;
      CounterAdvances(t0, t1, compressed * BLOCK, BLOCK);
      t0 := (t0 + BLOCK) % U64;
      if t0 < BLOCK {
        t1 := (t1 + 1) % U64;
      }
      assert (compressed + 1) * BLOCK == |absorbed|;
      assert buf[..] == buf[..bufLen] == absorbed[compressed * BLOCK..];
      assert buf[..] == absorbed[compressed * BLOCK..(compressed + 1) * BLOCK];
      h := f(h, buf[..], CounterValue(t0, t1), false);
      bufLen := 0;
      compressed := compressed + 1;
    }

    method AbsorbByte(b: bv8)
      requires buf.Length == BLOCK && bufLen < BLOCK && outLen <= 64
      requires |absorbed| == compressed * BLOCK + bufLen && h == Earlier(f, start, absorbed, compressed)
      requires buf[..bufLen] == absorbed[compressed * BLOCK..]
      requires t0 < U64 && t1 < U64 && CounterValue(t0, t1) == Wrapped(compressed * BLOCK)
      modifies this`bufLen, this`absorbed, buf
      ensures Valid() && absorbed == old(absorbed) + [b]
    {
      hide Wrapped, CounterValue, Earlier;
      EarlierGrows(f, start, absorbed, [b], compressed);
      buf[bufLen] := b;
      bufLen := bufLen + 1;
      absorbed := absorbed + [b];
    }

    method Final() returns (out: seq<bv8>)
      requires Valid()
      modifies this, buf
      ensures out == Prefix(Serialized(Last(f, start, old(absorbed))), outLen)
    {
      hide Wrapped, CounterValue, Earlier, EarlierBlocks, Serialized, Prefix;
      ghost var input, n := absorbed, |absorbed|;
      CounterAdvances(t0, t1, compressed * BLOCK, bufLen);
      t0 := (t0 + bufLen) % U64;
      if t0 < bufLen {
        t1 := (t1 + 1) % U64;
      }
      LastIsBuffered(n, compressed, bufLen);
      ZeroFill();
      h := f(h, buf[..], CounterValue(t0, t1), true);
      out := Prefix(Serialized(h), outLen);
    }

    method ZeroFill()
      requires buf.Length == BLOCK && bufLen <= BLOCK
      modifies buf
      ensures buf[..] == old(buf[..bufLen]) + Zeros(BLOCK - bufLen)
    {
      for i := bufLen to BLOCK
        invariant buf[..bufLen] == old(buf[..bufLen])
        invariant forall j :: bufLen <= j < i ==> buf[j] == 0
      {
        buf[i] := 0;
      }
      assert buf[..] == buf[..bufLen] + buf[bufLen..];
    }
  }

  // The chain over earlier blocks does not depend on what comes later.
  lemma {:induction false} EarlierGrows(f: Compressor, start: Blake2bWords, input: seq<bv8>, more: seq<bv8>, k: nat)
    requires k * BLOCK <= |input|
    ensures Earlier(f, start, input + more, k) == Earlier(f, start, input, k)
    decreases k
  {
    if k > 0 {
      EarlierGrows(f, start, input, more, k - 1);
      assert (input + more)[(k - 1) * BLOCK..k * BLOCK] == input[(k - 1) * BLOCK..k * BLOCK];
    }
  }

  // What is still in the buffer at the end is the last block.
  lemma LastIsBuffered(n: nat, compressed: nat, bufLen: nat)
    requires n == compressed * BLOCK + bufLen && bufLen <= BLOCK && (compressed > 0 ==> bufLen > 0)
    ensures EarlierBlocks(n) == compressed
  {
    if n > 0 {
      DivModUnique(n - 1, BLOCK, compressed, bufLen - 1);
    }
  }

  method Hash(f: Compressor, data: seq<bv8>, key: seq<bv8>, outLen: nat) returns (out: seq<bv8>)
    requires outLen <= 64 && |key| <= BLOCK
    ensures out == Blake2bDigest(f, outLen, key, data)
  {
    var s := new Blake2bStream(f, outLen, key);
    s.Update(data);
    out := s.Final();
  }

  /** However the message is cut into pieces, the digest is the one of the whole. */
  method HashPieces(f: Compressor, pieces: seq<seq<bv8>>, key: seq<bv8>, outLen: nat) returns (out: seq<bv8>)
    requires outLen <= 64 && |key| <= BLOCK
    ensures out == Blake2bDigest(f, outLen, key, Joined(pieces))
  {
    hide KeyBlock, StartWords, Last, Serialized, Prefix, Blake2bStream.Valid;
    var s := new Blake2bStream(f, outLen, key);
    for i := 0 to |pieces|
      invariant s.Valid() && s.f == f && s.outLen == outLen && s.start == StartWords(outLen, |key|)
      invariant fresh(s) && fresh(s.buf) && s.absorbed == KeyBlock(key) + Joined(pieces[..i])
    {
      JoinedGrows(pieces, i);
      s.Update(pieces[i]);
    }
    assert pieces[..|pieces|] == pieces;
    out := s.Final();
  }
}
