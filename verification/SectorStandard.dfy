/** The sector modes against their standards, from the bytes of the key on: XTS as section 5 of IEEE
    1619-2007 defines it, and CBC under the initialisation vectors of the volume format. */
module SectorStandard {
  import opened Bytes
  import opened Aes
  import opened AesStandard
  import opened Cipher

  // ---- Sector numbers ----

  lemma {:induction false} ZerosAbove(b: seq<bv8>, k: nat)
    ensures FromLittleEndian(b + Zeros(k)) == FromLittleEndian(b)
    decreases |b|
  {
    if b == [] {
      assert b + Zeros(k) == Zeros(k);
      ZerosAreZero(k);
    } else {
      assert (b + Zeros(k))[1..] == b[1..] + Zeros(k);
      ZerosAbove(b[1..], k);
    }
  }

  lemma {:induction false} ZerosAreZero(k: nat)
    ensures FromLittleEndian(Zeros(k)) == 0
    decreases k
  {
    if k > 0 {
      assert Zeros(k)[1..] == Zeros(k - 1);
      ZerosAreZero(k - 1);
    }
  }

  // A block that stands for a number is the only one.
  lemma OneBlock(a: Block, b: Block)
    requires FromLittleEndian(a) == FromLittleEndian(b)
    ensures a == b
  {
    LittleEndianOf(a);
    LittleEndianOf(b);
  }

  lemma SectorBlockNumber(sector: nat)
    requires sector < U64
    ensures FromLittleEndian(SectorBlock(sector)) == sector
  {
    PowerEight();
    LittleEndianRoundTrip(sector, 8);
    ZerosAbove(LittleEndian(sector, 8), 8);
    assert SectorBlock(sector) == LittleEndian(sector, 8) + Zeros(8);
  }

  lemma PowerEight()
    ensures Power256(4) == U32 && Power256(8) == U64
  {
    assert Power256(4) == U32;
    assert Power256(8) == 256 * (256 * (256 * (256 * Power256(4))));
  }

  // ---- XTS ----

  /** The first tweak is the sector number, as sixteen bytes, enciphered under the tweak key, and
      nothing else. */
  lemma FirstTweakIs(k: XtsKeys, sector: nat, t: Block)
    requires k.Valid() && sector < U64
    ensures t == FirstTweak(k, sector) <==> FromLittleEndian(Decrypt(k.tweak, t)) == sector
  {
    hide Encrypt, Decrypt, SectorBlock;
    SectorBlockNumber(sector);
    DecryptUndoesEncrypt(k.tweak, SectorBlock(sector));
    if FromLittleEndian(Decrypt(k.tweak, t)) == sector {
      OneBlock(Decrypt(k.tweak, t), SectorBlock(sector));
      EncryptUndoesDecrypt(k.tweak, t);
    }
  }

  // One tweak is x times the other, coefficient by coefficient.
  ghost predicate TimesX(t: Block, u: Block) {
    forall k: nat :: k < 128 ==>
      Coefficient(u, k) == ((k > 0 && Coefficient(t, k - 1)) != (Coefficient(t, 127) && InModulus(k)))
  }

  lemma SameBits(a: bv8, b: bv8)
    requires Bit(a, 0) == Bit(b, 0) && Bit(a, 1) == Bit(b, 1) && Bit(a, 2) == Bit(b, 2) && Bit(a, 3) == Bit(b, 3)
    requires Bit(a, 4) == Bit(b, 4) && Bit(a, 5) == Bit(b, 5) && Bit(a, 6) == Bit(b, 6) && Bit(a, 7) == Bit(b, 7)
    ensures a == b
  {
  }

  lemma TimesXIsMulX(t: Block, u: Block)
    requires TimesX(t, u)
    ensures u == MulX(t)
  {
    hide MulX, Bit;
    var v := MulX(t);
    forall k: nat | k < 128 ensures Coefficient(u, k) == Coefficient(v, k) {
      MulXIsTimesX(t, k);
    }
    forall i | 0 <= i < 16 ensures u[i] == v[i] {
      SameInByte(u, v, i);
    }
  }

  lemma SameInByte(u: Block, v: Block, i: nat)
    requires i < 16 && forall k: nat :: k < 128 ==> Coefficient(u, k) == Coefficient(v, k)
    ensures u[i] == v[i]
  {
    hide Bit, Coefficient;
    BitsOfByte(u, i);
    BitsOfByte(v, i);
    SameBits(u[i], v[i]);
  }

  lemma BitsOfByte(u: Block, i: nat)
    requires i < 16
    ensures Coefficient(u, 8 * i) == Bit(u[i], 0) && Coefficient(u, 8 * i + 1) == Bit(u[i], 1)
    ensures Coefficient(u, 8 * i + 2) == Bit(u[i], 2) && Coefficient(u, 8 * i + 3) == Bit(u[i], 3)
    ensures Coefficient(u, 8 * i + 4) == Bit(u[i], 4) && Coefficient(u, 8 * i + 5) == Bit(u[i], 5)
    ensures Coefficient(u, 8 * i + 6) == Bit(u[i], 6) && Coefficient(u, 8 * i + 7) == Bit(u[i], 7)
  {
    hide Bit;
  }

  // Tweaks for consecutive blocks, each x times the one before.
  ghost predicate TweakChain(ts: seq<Block>) {
    ts != [] && forall j :: 0 < j < |ts| ==> TimesX(ts[j - 1], ts[j])
  }

  lemma {:induction false} ChainIsTweaks(ts: seq<Block>, j: nat)
    requires TweakChain(ts) && j < |ts|
    ensures ts[j] == TweakOf(ts[0], j)
    decreases j
  {
    hide TimesX, MulX;
    if j > 0 {
      ChainIsTweaks(ts, j - 1);
      TimesXIsMulX(ts[j - 1], ts[j]);
    }
  }

  /** Block j of a sector is enciphered under the data key, masked on both sides with the j-th tweak, where
      the first tweak is the sector number enciphered under the tweak key. */
  lemma XtsIsMasked(k: XtsKeys, sector: nat, data: seq<bv8>, decrypt: bool, ts: seq<Block>, j: nat)
    requires k.Valid() && sector < U64 && |data| % 16 == 0 && 16 * j < |data|
    requires TweakChain(ts) && j < |ts| && FromLittleEndian(Decrypt(k.tweak, ts[0])) == sector
    ensures
      var b: Block := XorSeq(data[16 * j..16 * j + 16], ts[j]);
      XtsSector(k, sector, data, decrypt)[16 * j..16 * j + 16] ==
      XorSeq(if decrypt then Decrypt(k.data, b) else Encrypt(k.data, b), ts[j])
  {
    hide Encrypt, Decrypt, TweakChain, FirstTweak, Xts;
    FirstTweakIs(k, sector, ts[0]);
    ChainIsTweaks(ts, j);
    XtsBlockwise(k.data, FirstTweak(k, sector), data, decrypt, j);
  }

  // ---- From the key ----

  // The round keys of a half of the key.
  ghost predicate Expands(key: seq<bv8>, kb: seq<bv8>) {
    KeyExpansion(key, |key| / 4, RoundsFor(|key| / 4), kb)
  }

  /** XTS from the key: the cipher of FIPS 197 under the first half of the key, masked with the encrypted
      sector number under the second half times x^j. */
  lemma XtsIsStandard(key: seq<bv8>, half: nat, dataKeys: seq<bv8>, tweakKeys: seq<bv8>, sector: seq<bv8>,
                      data: seq<bv8>, ts: seq<Block>, j: nat)
    requires |key| == 2 * half && ExpandableKey(half / 4)
    requires Expands(key[..half], dataKeys) && Expands(key[half..], tweakKeys)
    requires |sector| == 16 && FromLittleEndian(sector) < U64 && |data| % 16 == 0 && 16 * j < |data|
    requires TweakChain(ts) && j < |ts| && ts[0] == StandardCipher(tweakKeys, RoundsFor(half / 4), sector)
    ensures
      var k := XtsKeys(Expanded(key[..half]), Expanded(key[half..]));
      && k.Valid()
      && XtsSector(k, FromLittleEndian(sector), data, false)[16 * j..16 * j + 16] ==
         XorSeq(StandardCipher(dataKeys, RoundsFor(half / 4), XorSeq(data[16 * j..16 * j + 16], ts[j])), ts[j])
  {
    hide KeyExpansion, StandardCipher, Encrypt, Decrypt, TweakChain, XtsSector, Expanded;
    var k := XtsKeys(Expanded(key[..half]), Expanded(key[half..]));
    EncryptIsStandard(key[half..], tweakKeys, sector);
    EncryptIsStandard(key[..half], dataKeys, XorSeq(data[16 * j..16 * j + 16], ts[j]));
    XtsIsMasked(k, FromLittleEndian(sector), data, false, ts, j);
  }

  // Block j of a ciphertext is that of the plaintext as the standard has it.
  ghost predicate StandardBlock(dataKeys: seq<bv8>, rounds: nat, ts: seq<Block>, plain: seq<bv8>, cipher: seq<bv8>, j: nat)
    requires |dataKeys| == 16 * (rounds + 1) && |plain| == |cipher| && 16 * j + 16 <= |plain| && j < |ts|
  {
    cipher[16 * j..16 * j + 16] == XorSeq(StandardCipher(dataKeys, rounds, XorSeq(plain[16 * j..16 * j + 16], ts[j])), ts[j])
  }

  predicate SameBlock(a: seq<bv8>, b: seq<bv8>, j: nat)
    requires 16 * j + 16 <= |a| && |a| == |b|
  {
    a[16 * j..16 * j + 16] == b[16 * j..16 * j + 16]
  }

  lemma SameBlocks(a: seq<bv8>, b: seq<bv8>)
    requires |a| == |b| && |a| % 16 == 0 && forall j: nat :: 16 * j + 16 <= |a| ==> SameBlock(a, b, j)
    ensures a == b
  {
    forall i | 0 <= i < |a| ensures a[i] == b[i] {
      var j := i / 16;
      Divided(i, 16);
      Divided(|a|, 16);
      assert SameBlock(a, b, j);
      assert a[i] == a[16 * j..16 * j + 16][i % 16] && b[i] == b[16 * j..16 * j + 16][i % 16];
    }
  }

  /** The code, from the key on: what the standard makes of a plaintext under a key and a sector number, the
      code turns back into the plaintext. */
  method XtsFromKey(key: array<bv8>, sector: nat, inp: array<bv8>, out: array<bv8>, len: nat, ghost dataKeys: seq<bv8>,
                    ghost tweakKeys: seq<bv8>, ghost number: seq<bv8>, ghost ts: seq<Block>, ghost plain: seq<bv8>)
    requires key.Length % 2 == 0 && ExpandableKey(key.Length / 2 / 4) && sector < U64
    requires len % 16 == 0 && len <= inp.Length && len <= out.Length && len + 16 < U32 && |plain| == len
    requires Expands(key[..key.Length / 2], dataKeys) && Expands(key[key.Length / 2..], tweakKeys)
    requires |number| == 16 && FromLittleEndian(number) == sector && TweakChain(ts) && 16 * |ts| >= len
    requires ts[0] == StandardCipher(tweakKeys, RoundsFor(key.Length / 2 / 4), number)
    requires forall j: nat :: 16 * j + 16 <= len ==>
      StandardBlock(dataKeys, RoundsFor(key.Length / 2 / 4), ts, plain, inp[..len], j)
    modifies out
    ensures out[..len] == plain && out[len..] == old(out[len..])
  {
    assert |dataKeys| == 16 * (RoundsFor(key.Length / 2 / 4) + 1);
    hide KeyExpansion, StandardCipher, TweakChain, XtsSector, Expanded, ExpandableKey;
    ghost var half, all := key.Length / 2, key[..];
    assert all[..half] == key[..half] && all[half..] == key[half..2 * half] == key[half..];
    var k := XtsInit(key, key.Length);
    assert len / 16 * 16 == len;
    ghost var made := XtsSector(k, sector, plain, false);
    forall j: nat | 16 * j + 16 <= len ensures SameBlock(made, inp[..len], j) {
      assert StandardBlock(dataKeys, RoundsFor(half / 4), ts, plain, inp[..len], j);
      XtsIsStandard(all, half, dataKeys, tweakKeys, number, plain, ts, j);
    }
    SameBlocks(made, inp[..len]);
    XtsUndone(k, sector, plain);
    XtsCrypt(k, sector, inp, out, len, true);
  }

  lemma XtsUndone(k: XtsKeys, sector: nat, plain: seq<bv8>)
    requires k.Valid() && |plain| % 16 == 0
    ensures XtsSector(k, sector, XtsSector(k, sector, plain, false), true) == plain
  {
    XtsInverse(k.data, FirstTweak(k, sector), plain, false);
  }

  // ---- CBC ----

  /** The initialisation vector of each mode, by its number: the low 32 bits of the sector number, all of it, or all of it
      encrypted under the second key; zero for a mode the code does not know. */
  lemma CbcIvIs(k: CbcKeys, sector: nat, iv: Block)
    requires k.Valid() && sector < U64
    ensures k.mode == 2 ==> (iv == CbcIv(k, sector) <==> FromLittleEndian(iv) == sector % U32)
    ensures k.mode == 3 ==> (iv == CbcIv(k, sector) <==> FromLittleEndian(iv) == sector)
    ensures k.mode == 4 ==> (iv == CbcIv(k, sector) <==> FromLittleEndian(Decrypt(k.essiv, iv)) == sector)
    ensures k.mode !in {2, 3, 4} ==> (iv == CbcIv(k, sector) <==> FromLittleEndian(iv) == 0)
  {
    hide Encrypt, Decrypt, SectorBlock;
    SectorBlockNumber(sector);
    if k.mode == CIPHER_CBC_ESSIV {
      FirstTweakIs(XtsKeys(k.dec, k.essiv), sector, iv);
    } else {
      var block := CbcIv(k, sector);
      LowWord(sector);
      ZerosAreZero(16);
      assert ZERO_BLOCK == Zeros(16);
      if FromLittleEndian(iv) == FromLittleEndian(block) {
        OneBlock(iv, block);
      }
    }
  }

  lemma LowWord(sector: nat)
    ensures FromLittleEndian(LittleEndian(sector, 4) + seq(12, _ => 0)) == sector % U32
  {
    PowerEight();
    LittleEndianLow(sector, 4);
    LittleEndianRoundTrip(sector % U32, 4);
    ZerosAbove(LittleEndian(sector, 4), 12);
    assert Zeros(12) == seq(12, _ => 0);
  }

  lemma {:induction false} LittleEndianLow(n: nat, len: nat)
    ensures LittleEndian(n, len) == LittleEndian(n % Power256(len), len)
    decreases len
  {
    if len > 0 {
      hide LowByte;
      var p := Power256(len - 1);
      LittleEndianLow(n / 256, len - 1);
      DigitsApart(n, p);
      LowByteOf(n);
      LowByteOf(n % (256 * p));
    }
  }

  // Taking the low digits and dropping the last one can be done in either order.
  lemma DigitsApart(n: nat, p: nat)
    requires p > 0
    ensures n % (256 * p) / 256 == n / 256 % p && n % (256 * p) % 256 == n % 256
  {
    var q, r := n / 256 / p, n / 256 % p;
    Divided(n, 256);
    Divided(n / 256, p);
    assert 256 * (p * q) == (256 * p) * q;
    DivModUnique(n, 256 * p, q, 256 * r + n % 256);
    DivModUnique(256 * r + n % 256, 256, r, n % 256);
  }

  // The ciphertext block before block j, or the initialisation vector.
  function Before(iv: Block, data: seq<bv8>, j: nat): Block
    requires 16 * j <= |data|
  {
    if j == 0 then iv else data[16 * (j - 1)..16 * j]
  }

  /** Block j is the decryption of its ciphertext combined with the ciphertext before it (section 6.2 of
      NIST SP 800-38A). */
  lemma {:induction false} CbcBlockwise(k: Schedule, iv: Block, data: seq<bv8>, j: nat)
    requires k.Valid() && |data| % 16 == 0 && 16 * j < |data|
    ensures CbcDecrypt(k, iv, data)[16 * j..16 * j + 16] ==
            XorSeq(Decrypt(k, data[16 * j..16 * j + 16]), Before(iv, data, j))
    decreases j
  {
    hide Decrypt, XorSeq;
    if j > 0 {
      var rest, i := data[16..], 16 * (j - 1);
      CbcBlockwise(k, data[..16], rest, j - 1);
      SliceOfSlice(data, 16, |data|, i, i + 16);
      assert rest == data[16..|data|];
      assert Before(data[..16], rest, j - 1) == Before(iv, data, j) by {
        if j > 1 {
          SliceOfSlice(data, 16, |data|, i - 16, i);
        }
      }
      var head: seq<bv8>, tail: seq<bv8> := XorSeq(Decrypt(k, data[..16]), iv), CbcDecrypt(k, data[..16], rest);
      assert (head + tail)[16 + i..16 + i + 16] == tail[i..i + 16];
    }
  }
}
