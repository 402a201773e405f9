/** The two ways a disk sector is encrypted: XTS (section 5 of IEEE 1619-2007), which the code both
    encrypts and decrypts, and CBC with a sector-number initialisation vector, which it decrypts. */
module Cipher {
  import opened Bytes
  import opened Aes

  const CIPHER_XTS := 1
  const CIPHER_CBC_PLAIN := 2
  const CIPHER_CBC_PLAIN64 := 3
  const CIPHER_CBC_ESSIV := 4

  const ZERO_BLOCK: Block := seq(16, _ => 0)

  // ---- The tweak as a polynomial over GF(2) ----

  // The coefficient of x^k in the polynomial that sixteen bytes stand for.
  function Mask(m: nat): bv8
    requires m < 8
  {
    match m
    case 0 => 1 case 1 => 2 case 2 => 4 case 3 => 8 case 4 => 16 case 5 => 32 case 6 => 64 case _ => 128
  }

  predicate Bit(b: bv8, m: nat)
    requires m < 8
  {
    b & Mask(m) != 0
  }

  predicate Coefficient(t: Block, k: nat)
    requires k < 128
  {
    Bit(t[k / 8], k % 8)
  }

  // Where the low terms of the modulus are.
  predicate InModulus(k: nat) {
    k == 0 || k == 1 || k == 2 || k == 7
  }

  // A byte moved up one place, with the given bit below it, and down one place, with it above.
  function Up(b: bv8, below: bv8): bv8 {
    (b << 1) | (below >> 7)
  }

  function Down(b: bv8, above: bv8): bv8 {
    (b >> 1) | (above << 7)
  }

  // 0x87, the low terms x^7 + x^2 + x + 1 of the modulus, if the top bit of b is set.
  function Reduction(b: bv8): bv8 {
    (b >> 7) * 0x87
  }

  // Byte i of the tweak after one doubling.
  function MulXByte(t: Block, i: nat): bv8
    requires i < 16
  {
    if i == 0 then Xor(Up(t[0], 0), Reduction(t[15])) else Up(t[i], t[i - 1])
  }

  function MulX(t: Block): Block {
    seq(16, i requires 0 <= i < 16 => MulXByte(t, i))
  }

  // The inverse: the lowest coefficient of a doubled polynomial tells whether the modulus was subtracted.
  function Unreduced(b: bv8): bv8 {
    Xor(b, (b & 1) * 0x87)
  }

  function DivXByte(t: Block, i: nat): bv8
    requires i < 16
  {
    if i == 0 then Down(Unreduced(t[0]), t[1])
    else if i < 15 then Down(t[i], t[i + 1])
    else Down(t[15], t[0])
  }

  function DivX(t: Block): Block {
    seq(16, i requires 0 <= i < 16 => DivXByte(t, i))
  }

  /** One doubling is multiplication by x modulo x^128 + x^7 + x^2 + x + 1, coefficient by coefficient. */
  lemma MulXIsTimesX(t: Block, k: nat)
    requires k < 128
    ensures Coefficient(MulX(t), k) ==
            ((k > 0 && Coefficient(t, k - 1)) != (Coefficient(t, 127) && InModulus(k)))
  {
    hide Up, Reduction, Bit, Xor;
    var q, m := k / 8, k % 8;
    assert k == 8 * q + m;
    if q == 0 {
      LowByteBits(t[0], t[15], m);
    } else {
      UpBits(t[q], t[q - 1], m);
    }
    if m > 0 {
      assert (k - 1) / 8 == q && (k - 1) % 8 == m - 1;
    } else if q > 0 {
      assert (k - 1) / 8 == q - 1 && (k - 1) % 8 == 7;
    }
  }

  lemma UpBits(b: bv8, below: bv8, m: nat)
    requires m < 8
    ensures Bit(Up(b, below), m) == if m == 0 then Bit(below, 7) else Bit(b, m - 1)
  {
    match m
    case 0 => case 1 => case 2 => case 3 => case 4 => case 5 => case 6 => case _ =>
  }

  lemma LowByteBits(b: bv8, top: bv8, m: nat)
    requires m < 8
    ensures Bit(Xor(Up(b, 0), Reduction(top)), m) == ((m > 0 && Bit(b, m - 1)) != (Bit(top, 7) && InModulus(m)))
  {
    hide Xor, Up, Reduction;
    LowByteMasks(b, top, m);
  }

  lemma LowByteMasks(b: bv8, top: bv8, m: nat)
    requires m < 8
    ensures (Xor(Up(b, 0), Reduction(top)) & Mask(m) != 0) ==
            ((m > 0 && b & Mask(m - 1) != 0) != (top & Mask(7) != 0 && InModulus(m)))
  {
    match m
    case 0 => case 1 => case 2 => case 3 => case 4 => case 5 => case 6 => case _ =>
  }

  /** Doubling is a bijection of the sixteen-byte tweaks, with DivX as its inverse. */
  lemma MulXBijective(t: Block)
    ensures DivX(MulX(t)) == t && MulX(DivX(t)) == t
  {
    hide Up, Down, Reduction, Unreduced, Xor;
    forall i | 0 <= i < 16 ensures DivX(MulX(t))[i] == t[i] && MulX(DivX(t))[i] == t[i] {
      LowByteRestored(t[0], t[15], t[1]);
      if 1 <= i {
        MiddleByteRestored(t[i], t[i - 1], if i < 15 then t[i + 1] else t[0]);
      }
      TopByteRestored(t[15], t[14], t[0]);
    }
  }

  lemma LowByteRestored(b: bv8, top: bv8, next: bv8)
    ensures Down(Unreduced(Xor(Up(b, 0), Reduction(top))), Up(next, b)) == b
    ensures Xor(Up(Down(Unreduced(b), next), 0), Reduction(Down(top, b))) == b
  {
  }

  lemma MiddleByteRestored(b: bv8, below: bv8, above: bv8)
    ensures Down(Up(b, below), Up(above, b)) == b
    ensures Up(Down(b, above), Down(below, b)) == b
    ensures Up(Down(b, above), Down(Unreduced(below), b)) == b
  {
  }

  lemma TopByteRestored(b: bv8, below: bv8, first: bv8)
    ensures Down(Up(b, below), Xor(Up(first, 0), Reduction(b))) == b
  {
  }

  /** A tweak that is not zero never becomes zero. */
  lemma MulXKeepsNonzero(t: Block)
    requires MulX(t) == ZERO_BLOCK
    ensures t == ZERO_BLOCK
  {
    MulXBijective(t);
    forall i | 0 <= i < 16 ensures DivX(ZERO_BLOCK)[i] == 0 {
    }
  }

  method MulXInPlace(t: array<bv8>)
    requires t.Length == 16
    modifies t
    ensures t[..] == MulX(old(t[..]))
  {
    hide Up, Reduction, Xor;
    ghost var was: Block := t[..];
    var carry: bv8 := 0;
    for i := 0 to 16
      invariant carry == if i == 0 then 0 else TopBit(was[i - 1])
      invariant forall j :: 0 <= j < i ==> t[j] == if j == 0 then Up(was[0], 0) else MulXByte(was, j)
      invariant forall j :: i <= j < 16 ==> t[j] == was[j]
    {
      var next := TopBit(t[i]);
      CarryIsTopBit(t[i], if i == 0 then 0 else was[i - 1]);
      t[i] := WithCarry(t[i], carry);
      carry := next;
    }
    ReductionIsConditional(was[15], t[0]);
    if carry != 0 {
      t[0] := Xor(t[0], 0x87);
    }
  }

  function TopBit(b: bv8): bv8 {
    (b >> 7) & 1
  }

  function WithCarry(b: bv8, carry: bv8): bv8 {
    (b << 1) | carry
  }

  lemma CarryIsTopBit(b: bv8, below: bv8)
    ensures WithCarry(b, TopBit(below)) == Up(b, below) && TopBit(0) == 0
  {
  }

  lemma ReductionIsConditional(top: bv8, b: bv8)
    ensures Xor(b, Reduction(top)) == if TopBit(top) != 0 then Xor(b, 0x87) else b
  {
  }

  // ---- XTS ----

  datatype XtsKeys = XtsKeys(data: Schedule, tweak: Schedule) {
    ghost predicate Valid() {
      data.Valid() && tweak.Valid()
    }
  }

  /** The first half of the key is for the data, the second for the tweak. */
  method XtsInit(key: array<bv8>, keyLen: nat) returns (k: XtsKeys)
    requires keyLen <= key.Length && ExpandableKey(keyLen / 2 / 4)
    ensures k.Valid()
    ensures
      var half := keyLen / 2;
      k == XtsKeys(Expanded(key[..half]), Expanded(key[half..2 * half]))
  {
    hide KeyWord;
    var half := keyLen / 2;
    var data := InitEnc(key, 0, half);
    var tweak := InitEnc(key, half, half);
    assert key[0..half] == key[..half] && half + half == 2 * half;
    k := XtsKeys(data, tweak);
  }

  function SectorBlock(sector: nat): Block {
    LittleEndian(sector, 8) + seq(8, _ => 0)
  }

  function FirstTweak(k: XtsKeys, sector: nat): Block
    requires k.Valid()
  {
    Encrypt(k.tweak, SectorBlock(sector))
  }

  // The tweak of block j of a sector: the first one times x^j.
  function TweakOf(t: Block, j: nat): Block
    decreases j
  {
    if j == 0 then t else MulX(TweakOf(t, j - 1))
  }

  function CryptBlock(k: Schedule, b: Block, decrypt: bool): Block
    requires k.Valid()
  {
    if decrypt then Decrypt(k, b) else Encrypt(k, b)
  }

  function XtsBlock(k: Schedule, t: Block, b: Block, decrypt: bool): Block
    requires k.Valid()
  {
    XorSeq(CryptBlock(k, XorSeq(b, t), decrypt), t)
  }

  // The whole blocks of a string, each under its own tweak, the first under t.
  function Xts(k: Schedule, t: Block, data: seq<bv8>, decrypt: bool): (r: seq<bv8>)
    requires k.Valid() && |data| % 16 == 0
    ensures |r| == |data|
    decreases |data|
  {
    if data == [] then []
    else XtsBlock(k, t, data[..16], decrypt) + Xts(k, MulX(t), data[16..], decrypt)
  }

  function XtsSector(k: XtsKeys, sector: nat, data: seq<bv8>, decrypt: bool): (r: seq<bv8>)
    requires k.Valid() && |data| % 16 == 0
    ensures |r| == |data|
  {
    Xts(k.data, FirstTweak(k, sector), data, decrypt)
  }

  /** Block j of a sector is enciphered under the encrypted sector number times x^j, on its own. */
  lemma {:induction false} XtsBlockwise(k: Schedule, t: Block, data: seq<bv8>, decrypt: bool, j: nat)
    requires k.Valid() && |data| % 16 == 0 && 16 * j < |data|
    ensures Xts(k, t, data, decrypt)[16 * j..16 * j + 16] ==
            XtsBlock(k, TweakOf(t, j), data[16 * j..16 * j + 16], decrypt)
    decreases j
  {
    hide XtsBlock, MulX;
    if j == 0 {
    } else {
      var rest := data[16..];
      XtsBlockwise(k, MulX(t), rest, decrypt, j - 1);
      TweakShift(t, j);
      var i := 16 * (j - 1);
      assert rest[i..i + 16] == data[16 + i..16 + i + 16];
      var tail := Xts(k, MulX(t), rest, decrypt);
      var all := XtsBlock(k, t, data[..16], decrypt) + tail;
      assert all[16 + i..16 + i + 16] == tail[i..i + 16];
      assert 16 + i == 16 * j;
    }
  }

  lemma {:induction false} TweakShift(t: Block, j: nat)
    requires j > 0
    ensures TweakOf(MulX(t), j - 1) == TweakOf(t, j)
    decreases j
  {
    if j > 1 {
      TweakShift(t, j - 1);
    }
  }

  /** Decrypting undoes encrypting, and encrypting undoes decrypting, for every length that is a
      multiple of sixteen. */
  lemma {:induction false} XtsInverse(k: Schedule, t: Block, data: seq<bv8>, decrypt: bool)
    requires k.Valid() && |data| % 16 == 0
    ensures Xts(k, t, Xts(k, t, data, decrypt), !decrypt) == data
    decreases |data|
  {
    hide XtsBlock, MulX;
    if data != [] {
      assert |data| >= 16;
      var head: seq<bv8>, tail: seq<bv8> := XtsBlock(k, t, data[..16], decrypt), Xts(k, MulX(t), data[16..], decrypt);
      assert (head + tail)[..16] == head && (head + tail)[16..] == tail;
      XtsBlockInverse(k, t, data[..16], decrypt);
      XtsInverse(k, MulX(t), data[16..], decrypt);
    }
  }

  lemma XtsBlockInverse(k: Schedule, t: Block, b: Block, decrypt: bool)
    requires k.Valid()
    ensures XtsBlock(k, t, XtsBlock(k, t, b, decrypt), !decrypt) == b
  {
    hide XorSeq, Encrypt, Decrypt;
    var masked := XorSeq(b, t);
    XorSeqCancels(CryptBlock(k, masked, decrypt), t);
    if decrypt {
      EncryptUndoesDecrypt(k, masked);
    } else {
      DecryptUndoesEncrypt(k, masked);
    }
    XorSeqCancels(b, t);
  }

  /** Two sectors never start from the same tweak. */
  lemma FirstTweaksDiffer(k: XtsKeys, sector: nat, other: nat)
    requires k.Valid() && sector < Power256(8) && other < Power256(8)
    requires FirstTweak(k, sector) == FirstTweak(k, other)
    ensures sector == other
  {
    hide Encrypt, Decrypt;
    DecryptUndoesEncrypt(k.tweak, SectorBlock(sector));
    DecryptUndoesEncrypt(k.tweak, SectorBlock(other));
    assert SectorBlock(sector)[..8] == LittleEndian(sector, 8);
    assert SectorBlock(other)[..8] == LittleEndian(other, 8);
    LittleEndianRoundTrip(sector, 8);
    LittleEndianRoundTrip(other, 8);
  }

  lemma XtsStep(k: Schedule, t: Block, data: seq<bv8>, off: nat, decrypt: bool)
    requires k.Valid() && |data| % 16 == 0 && off % 16 == 0 && off + 16 <= |data|
    ensures Xts(k, t, data[off..], decrypt) ==
            XtsBlock(k, t, data[off..off + 16], decrypt) + Xts(k, MulX(t), data[off + 16..], decrypt)
  {
    hide XtsBlock, MulX;
    assert data[off..][..16] == data[off..off + 16] && data[off..][16..] == data[off + 16..];
  }

  method XorInto(a: array<bv8>, aOff: nat, b: array<bv8>, out: array<bv8>, outOff: nat)
    requires aOff + 16 <= a.Length && b.Length == 16 && outOff + 16 <= out.Length
    requires out != a && out != b
    modifies out
    ensures out[..outOff] == old(out[..outOff]) && out[outOff + 16..] == old(out[outOff + 16..])
    ensures out[outOff..outOff + 16] == XorSeq(a[aOff..aOff + 16], b[..])
  {
    hide Xor;
    for i := 0 to 16
      invariant forall j :: 0 <= j < outOff || outOff + 16 <= j < out.Length ==> out[j] == old(out[j])
      invariant forall j :: 0 <= j < i ==> out[outOff + j] == Xor(a[aOff + j], b[j])
    {
      out[outOff + i] := Xor(a[aOff + i], b[i]);
    }
  }

  method FillSectorBlock(sector: nat, t: array<bv8>)
    requires t.Length == 16
    modifies t
    ensures t[..] == SectorBlock(sector)
  {
    for i := 0 to 16
      invariant forall j :: 0 <= j < i ==> t[j] == 0
    {
      t[i] := 0;
    }
    FillLittleEndian(sector, 8, t);
    assert t[..] == t[..8] + t[8..];
  }

  method FillLittleEndian(n: nat, len: nat, t: array<bv8>)
    requires len <= t.Length
    modifies t
    ensures t[..len] == LittleEndian(n, len) && t[len..] == old(t[len..])
  {
    var rest := n;
    for i := 0 to len
      invariant t[..i] + LittleEndian(rest, len - i) == LittleEndian(n, len)
      invariant t[len..] == old(t[len..])
    {
      ghost var done := t[..i];
      t[i] := (rest % 256) as bv8;
      assert t[..i + 1] == done + [(rest % 256) as bv8];
      rest := rest / 256;
    }
  }

  // One block of the loop: mask, encipher, mask again.
  method XtsCryptBlock(k: Schedule, tweak: array<bv8>, inp: array<bv8>, out: array<bv8>, off: nat, decrypt: bool)
    requires k.Valid() && tweak.Length == 16 && tweak != out && tweak != inp
    requires off + 16 <= inp.Length && off + 16 <= out.Length
    modifies out
    ensures out[..off] == old(out[..off]) && forall j :: off + 16 <= j < out.Length ==> out[j] == old(out[j])
    ensures out[off..off + 16] == XtsBlock(k, tweak[..], old(inp[off..off + 16]), decrypt)
  {
    hide Encrypt, Decrypt, XorSeq;
    ghost var block, t := inp[off..off + 16], tweak[..];
    var tmp := new bv8[16];
    XorInto(inp, off, tweak, tmp, 0);
    assert tmp[0..16] == XorSeq(block, t);
    if decrypt {
      DecryptBlock(k, tmp, 0, tmp);
    } else {
      EncryptBlock(k, tmp, 0, tmp);
    }
    assert tmp[0..16] == tmp[..];
    XorInto(tmp, 0, tweak, out, off);
  }

  lemma XtsEmpty(k: Schedule, t: Block, data: seq<bv8>, decrypt: bool)
    requires k.Valid() && data == []
    ensures Xts(k, t, data, decrypt) == []
  {
  }

  // One turn of the loop: what is done and what remains keep adding up to the same.
  method XtsTurn(k: Schedule, tweak: array<bv8>, inp: array<bv8>, out: array<bv8>, off: nat, decrypt: bool,
                 ghost data: seq<bv8>, ghost total: seq<bv8>)
    requires k.Valid() && tweak.Length == 16 && tweak != out && tweak != inp
    requires |data| % 16 == 0 && off % 16 == 0 && off + 16 <= |data| <= inp.Length && |data| <= out.Length
    requires forall j :: off <= j < |data| ==> inp[j] == data[j]
    requires out[..off] + Xts(k, tweak[..], data[off..], decrypt) == total
    modifies out, tweak
    ensures forall j :: off + 16 <= j < |data| ==> inp[j] == data[j]
    ensures forall j :: |data| <= j < out.Length ==> out[j] == old(out[j])
    ensures out[..off + 16] + Xts(k, tweak[..], data[off + 16..], decrypt) == total
  {
    hide XtsBlock, MulX, Xts;
    ghost var done, t := out[..off], tweak[..];
    assert inp[off..off + 16] == data[off..off + 16];
    XtsStep(k, t, data, off, decrypt);
    XtsCryptBlock(k, tweak, inp, out, off, decrypt);
    assert out[..off + 16] == done + out[off..off + 16];
    MulXInPlace(tweak);
  }

  /** The code. The two buffers may be the same one: each block is read before it is written. */
  method XtsCrypt(k: XtsKeys, sector: nat, inp: array<bv8>, out: array<bv8>, len: nat, decrypt: bool)
    requires k.Valid() && len <= inp.Length && len <= out.Length && len + 16 < U32
    modifies out
    ensures out[..len / 16 * 16] == XtsSector(k, sector, old(inp[..len / 16 * 16]), decrypt)
    ensures out[len / 16 * 16..] == old(out[len / 16 * 16..])
  {
    hide XtsBlock, MulX, Encrypt, Xts;
    var tweak := new bv8[16];
    FillSectorBlock(sector, tweak);
    assert tweak[0..16] == SectorBlock(sector);
    EncryptBlock(k.tweak, tweak, 0, tweak);
    XtsBlocks(k.data, tweak, inp, out, len, decrypt);
  }

  // Which of the places a loop over the blocks comes to have a whole block left.
  lemma BlockFits(off: nat, len: nat)
    requires off % 16 == 0 && off <= len && len + 16 < U32
    ensures off <= len / 16 * 16 && (StepFits(off, 16, len) <==> off + 16 <= len / 16 * 16)
    ensures !StepFits(off, 16, len) ==> off == len / 16 * 16
  {
    Divided(off, 16);
    Divided(len, 16);
  }

  // The loop over the whole blocks, from a first tweak on.
  method XtsBlocks(k: Schedule, tweak: array<bv8>, inp: array<bv8>, out: array<bv8>, len: nat, decrypt: bool)
    requires k.Valid() && tweak.Length == 16 && tweak != out && tweak != inp
    requires len <= inp.Length && len <= out.Length && len + 16 < U32
    modifies out, tweak
    ensures out[..len / 16 * 16] == Xts(k, old(tweak[..]), old(inp[..len / 16 * 16]), decrypt)
    ensures out[len / 16 * 16..] == old(out[len / 16 * 16..])
  {
    hide Xts, Schedule.Valid, StepFits;
    ghost var whole := len / 16 * 16;
    ghost var data, total := inp[..whole], Xts(k, tweak[..], inp[..whole], decrypt);
    var off := 0;
    assert data[0..] == data;
    BlockFits(off, len);
    while StepFits(off, 16, len)
      invariant off % 16 == 0 && 0 <= off <= whole && (StepFits(off, 16, len) <==> off + 16 <= whole)
      invariant StepFits(off, 16, len) || off == whole
      invariant forall j :: off <= j < whole ==> inp[j] == data[j]
      invariant out[..off] + Xts(k, tweak[..], data[off..], decrypt) == total
      invariant forall j :: whole <= j < out.Length ==> out[j] == old(out[j])
      decreases whole - off
    {
      XtsTurn(k, tweak, inp, out, off, decrypt, data, total);
      off := off + 16;
      BlockFits(off, len);
    }
    XtsEmpty(k, tweak[..], data[off..], decrypt);
  }

  // ---- CBC ----

  datatype CbcKeys = CbcKeys(dec: Schedule, essiv: Schedule, mode: int) {
    ghost predicate Valid() {
      dec.Valid() && essiv.Valid()
    }
  }

  /** The data key, and in one mode its SHA-256 hash as a second key; otherwise that key stays what it was. */
  method CbcInit(sha256: seq<bv8> -> seq<bv8>, key: array<bv8>, keyLen: nat, mode: int, hashLen: nat, before: Schedule)
    returns (k: CbcKeys)
    requires keyLen <= key.Length && ExpandableKey(keyLen / 4) && before.Valid() && |sha256(key[..keyLen])| == 32
    ensures k.Valid() && k.mode == mode && k.dec == Expanded(key[..keyLen])
    ensures k.essiv == if mode == CIPHER_CBC_ESSIV && hashLen >= 32 then Expanded(sha256(key[..keyLen])) else before
  {
    hide KeyWord;
    var data := InitEnc(key, 0, keyLen);
    assert key[0..keyLen] == key[..keyLen];
    k := CbcKeys(data, before, mode);
    if mode == CIPHER_CBC_ESSIV && hashLen >= 32 {
      var hash := sha256(key[..keyLen]);
      var essivKey := new bv8[32](i requires 0 <= i < 32 => hash[i]);
      assert essivKey[0..32] == hash;
      var essiv := InitEnc(essivKey, 0, 32);
      k := CbcKeys(data, essiv, mode);
    }
  }

  function CbcIv(k: CbcKeys, sector: nat): Block
    requires k.Valid()
  {
    if k.mode == CIPHER_CBC_PLAIN then LittleEndian(sector, 4) + seq(12, _ => 0)
    else if k.mode == CIPHER_CBC_PLAIN64 then SectorBlock(sector)
    else if k.mode == CIPHER_CBC_ESSIV then Encrypt(k.essiv, SectorBlock(sector))
    else ZERO_BLOCK
  }

  function CbcEncrypt(k: Schedule, iv: Block, data: seq<bv8>): (r: seq<bv8>)
    requires k.Valid() && |data| % 16 == 0
    ensures |r| == |data|
    decreases |data|
  {
    if data == [] then []
    else
      var c := Encrypt(k, XorSeq(data[..16], iv));
      c + CbcEncrypt(k, c, data[16..])
  }

  function CbcDecrypt(k: Schedule, iv: Block, data: seq<bv8>): (r: seq<bv8>)
    requires k.Valid() && |data| % 16 == 0
    ensures |r| == |data|
    decreases |data|
  {
    if data == [] then []
    else XorSeq(Decrypt(k, data[..16]), iv) + CbcDecrypt(k, data[..16], data[16..])
  }

  /** Decrypting a sector undoes encrypting it. */
  lemma {:induction false} CbcInverse(k: Schedule, iv: Block, data: seq<bv8>)
    requires k.Valid() && |data| % 16 == 0
    ensures CbcDecrypt(k, iv, CbcEncrypt(k, iv, data)) == data
    decreases |data|
  {
    hide Encrypt, Decrypt, XorSeq;
    if data != [] {
      assert |data| >= 16;
      var c := Encrypt(k, XorSeq(data[..16], iv));
      var tail: seq<bv8> := CbcEncrypt(k, c, data[16..]);
      var all: seq<bv8> := c + tail;
      assert all[..16] == c && all[16..] == tail;
      DecryptUndoesEncrypt(k, XorSeq(data[..16], iv));
      XorSeqCancels(data[..16], iv);
      CbcInverse(k, c, data[16..]);
    }
  }

  // What the loop leaves when the two buffers are one: the next initialisation vector is taken from
  // the block after it has been overwritten with plaintext.
  function CbcDecryptOverlaid(k: Schedule, iv: Block, data: seq<bv8>): (r: seq<bv8>)
    requires k.Valid() && |data| % 16 == 0
    ensures |r| == |data|
    decreases |data|
  {
    if data == [] then []
    else
      var p := XorSeq(Decrypt(k, data[..16]), iv);
      p + CbcDecryptOverlaid(k, p, data[16..])
  }

  // Every block but the last is its own encryption in the chain.
  ghost predicate FixedButLast(k: Schedule, iv: Block, data: seq<bv8>)
    requires k.Valid() && |data| % 16 == 0
    decreases |data|
  {
    |data| <= 16 || (Encrypt(k, XorSeq(data[..16], iv)) == data[..16] && FixedButLast(k, data[..16], data[16..]))
  }

  /** Decryption in place gives the plaintext back exactly when every block but the last encrypts to
      itself; in particular always for one block. */
  lemma {:induction false} CbcOverlaidFails(k: Schedule, iv: Block, data: seq<bv8>)
    requires k.Valid() && |data| % 16 == 0
    ensures CbcDecryptOverlaid(k, iv, CbcEncrypt(k, iv, data)) == data <==> FixedButLast(k, iv, data)
    decreases |data|
  {
    hide Encrypt, Decrypt, XorSeq;
    if data != [] {
      assert |data| >= 16;
      var head: Block, rest := data[..16], data[16..];
      var c := Encrypt(k, XorSeq(head, iv));
      var tail: seq<bv8> := CbcEncrypt(k, c, rest);
      var all: seq<bv8> := c + tail;
      assert all[..16] == c && all[16..] == tail;
      DecryptUndoesEncrypt(k, XorSeq(head, iv));
      XorSeqCancels(head, iv);
      var again := CbcDecryptOverlaid(k, head, tail);
      assert CbcDecryptOverlaid(k, iv, all) == head + again;
      assert head + again == data <==> again == rest by {
        assert head + rest == data;
        assert (head + again)[16..] == again && data[16..] == rest;
      }
      if rest == [] {
      } else if c == head {
        CbcOverlaidFails(k, head, rest);
      } else {
        assert |rest| >= 16;
        WrongVectorShows(k, c, head, rest);
      }
    }
  }

  // Undoing the first block with another vector than it was made with does not give the block back.
  lemma WrongVectorShows(k: Schedule, iv: Block, wrong: Block, data: seq<bv8>)
    requires k.Valid() && |data| % 16 == 0 && |data| >= 16 && wrong != iv
    ensures CbcDecryptOverlaid(k, wrong, CbcEncrypt(k, iv, data))[..16] != data[..16]
  {
    hide Encrypt, Decrypt, XorSeq;
    var head: Block := data[..16];
    var masked := XorSeq(head, iv);
    var c := Encrypt(k, masked);
    var tail: seq<bv8> := CbcEncrypt(k, c, data[16..]);
    var all: seq<bv8> := c + tail;
    assert all[..16] == c && all[16..] == tail;
    DecryptUndoesEncrypt(k, masked);
    var p: Block := XorSeq(masked, wrong);
    var rest: seq<bv8> := CbcDecryptOverlaid(k, p, tail);
    assert CbcDecryptOverlaid(k, wrong, all) == p + rest;
    assert (p + rest)[..16] == p;
    if p == head {
      XorSeqInjective(head, iv, wrong);
      assert false;
    }
  }

  // Decryption in place gives this plaintext back.
  ghost predicate RightInPlace(k: Schedule, iv: Block, data: seq<bv8>)
    requires k.Valid() && |data| % 16 == 0
  {
    CbcDecryptOverlaid(k, iv, CbcEncrypt(k, iv, data)) == data
  }

  /** Under every key and for every plaintext of two blocks or more there is an initialisation vector
      under which decryption in place goes wrong: of any two, at most one can fix the first block. */
  lemma WrongInPlace(k: Schedule, data: seq<bv8>, iv: Block, other: Block) returns (bad: Block)
    requires k.Valid() && |data| % 16 == 0 && |data| >= 32 && iv != other
    ensures bad == iv || bad == other
    ensures !RightInPlace(k, bad, data)
  {
    hide Encrypt, Decrypt, XorSeq, CbcDecryptOverlaid, CbcEncrypt;
    var head: Block := data[..16];
    CbcOverlaidFails(k, iv, data);
    CbcOverlaidFails(k, other, data);
    if Encrypt(k, XorSeq(head, iv)) == head && Encrypt(k, XorSeq(head, other)) == head {
      DecryptUndoesEncrypt(k, XorSeq(head, iv));
      DecryptUndoesEncrypt(k, XorSeq(head, other));
      XorSeqDetermines(head, iv, other);
      assert false;
    }
    bad := if Encrypt(k, XorSeq(head, iv)) == head then other else iv;
  }

  lemma XorSeqDetermines(a: Block, t: Block, u: Block)
    requires XorSeq(a, t) == XorSeq(a, u)
    ensures t == u
  {
    XorSeqCancels(a, u);
    XorSeqInjective(a, t, u);
  }

  /** For data of a given length, decryption in place is right for all vectors and plaintexts exactly
      when there is less than two blocks of it; with two buffers it is always right. */
  lemma InPlaceExactly(k: Schedule, len: nat)
    requires k.Valid() && len % 16 == 0
    ensures (forall iv: Block, data: seq<bv8> :: |data| == len ==> RightInPlace(k, iv, data)) <==> len < 32
    ensures forall iv: Block, data: seq<bv8> :: |data| == len ==> CbcDecrypt(k, iv, CbcEncrypt(k, iv, data)) == data
  {
    hide Encrypt, Decrypt, XorSeq, CbcDecryptOverlaid, CbcEncrypt, CbcDecrypt;
    forall iv: Block, data: seq<bv8> | |data| == len ensures CbcDecrypt(k, iv, CbcEncrypt(k, iv, data)) == data {
      CbcInverse(k, iv, data);
    }
    if len < 32 {
      forall iv: Block, data: seq<bv8> | |data| == len ensures RightInPlace(k, iv, data) {
        CbcOverlaidFails(k, iv, data);
      }
    } else {
      var one: Block := ZERO_BLOCK[0 := 1];
      var data := Zeros(len);
      assert one[0] != ZERO_BLOCK[0];
      var bad := WrongInPlace(k, data, ZERO_BLOCK, one);
      assert !RightInPlace(k, bad, data);
    }
  }

  lemma XorSeqInjective(a: Block, t: Block, u: Block)
    requires XorSeq(XorSeq(a, t), u) == a
    ensures t == u
  {
    forall i | 0 <= i < 16 ensures t[i] == u[i] {
      assert XorSeq(XorSeq(a, t), u)[i] == Xor(Xor(a[i], t[i]), u[i]);
      XorCancelled(a[i], t[i], u[i]);
    }
  }

  lemma XorCancelled(a: bv8, t: bv8, u: bv8)
    requires Xor(Xor(a, t), u) == a
    ensures t == u
  {
  }

  method MakeCbcIv(k: CbcKeys, sector: nat, iv: array<bv8>)
    requires k.Valid() && iv.Length == 16
    modifies iv
    ensures iv[..] == CbcIv(k, sector)
  {
    hide Encrypt;
    for i := 0 to 16
      invariant forall j :: 0 <= j < i ==> iv[j] == 0
    {
      iv[i] := 0;
    }
    if k.mode == CIPHER_CBC_PLAIN {
      FillLittleEndian(sector, 4, iv);
      assert iv[..] == iv[..4] + iv[4..];
    } else if k.mode == CIPHER_CBC_PLAIN64 {
      FillSectorBlock(sector, iv);
    } else if k.mode == CIPHER_CBC_ESSIV {
      var tmp := new bv8[16];
      FillSectorBlock(sector, tmp);
      assert tmp[0..16] == tmp[..];
      EncryptBlock(k.essiv, tmp, 0, iv);
    }
  }

  // What remains to be produced, in either case.
  ghost function CbcRest(k: Schedule, iv: Block, data: seq<bv8>, overlaid: bool): seq<bv8>
    requires k.Valid() && |data| % 16 == 0
  {
    if overlaid then CbcDecryptOverlaid(k, iv, data) else CbcDecrypt(k, iv, data)
  }

  lemma CbcStep(k: Schedule, iv: Block, data: seq<bv8>, off: nat, overlaid: bool)
    requires k.Valid() && |data| % 16 == 0 && off % 16 == 0 && off + 16 <= |data|
    ensures
      var c: Block := data[off..off + 16];
      var p: Block := XorSeq(Decrypt(k, c), iv);
      CbcRest(k, iv, data[off..], overlaid) ==
      p + CbcRest(k, if overlaid then p else c, data[off + 16..], overlaid)
  {
    hide Decrypt, XorSeq;
    assert data[off..][..16] == data[off..off + 16] && data[off..][16..] == data[off + 16..];
  }

  // One block of the loop.
  method CbcDecryptBlock(k: Schedule, iv: array<bv8>, inp: array<bv8>, out: array<bv8>, off: nat)
    requires k.Valid() && iv.Length == 16 && iv != out && iv != inp
    requires off + 16 <= inp.Length && off + 16 <= out.Length
    modifies out, iv
    ensures out[..off] == old(out[..off]) && forall j :: off + 16 <= j < out.Length ==> out[j] == old(out[j])
    ensures out[off..off + 16] == XorSeq(Decrypt(k, old(inp[off..off + 16])), old(iv[..]))
    ensures iv[..] == if inp == out then out[off..off + 16] else old(inp[off..off + 16])
  {
    hide Encrypt, Decrypt, XorSeq;
    var tmp := new bv8[16];
    DecryptBlock(k, inp, off, tmp);
    assert tmp[0..16] == tmp[..];
    XorInto(tmp, 0, iv, out, off);
    Copy16(inp, off, iv);
  }

  // One turn of the loop: what is done and what remains keep adding up to the same.
  method CbcTurn(k: Schedule, iv: array<bv8>, inp: array<bv8>, out: array<bv8>, off: nat,
                 ghost data: seq<bv8>, ghost total: seq<bv8>)
    requires k.Valid() && iv.Length == 16 && iv != out && iv != inp
    requires |data| % 16 == 0 && off % 16 == 0 && off + 16 <= |data| <= inp.Length && |data| <= out.Length
    requires forall j :: off <= j < |data| ==> inp[j] == data[j]
    requires out[..off] + CbcRest(k, iv[..], data[off..], inp == out) == total
    modifies out, iv
    ensures forall j :: off + 16 <= j < |data| ==> inp[j] == data[j]
    ensures forall j :: |data| <= j < out.Length ==> out[j] == old(out[j])
    ensures out[..off + 16] + CbcRest(k, iv[..], data[off + 16..], inp == out) == total
  {
    hide Encrypt, Decrypt, XorSeq, CbcRest;
    ghost var done, v := out[..off], iv[..];
    assert inp[off..off + 16] == data[off..off + 16];
    CbcStep(k, v, data, off, inp == out);
    CbcDecryptBlock(k, iv, inp, out, off);
    assert out[..off + 16] == done + out[off..off + 16];
  }

  /** The code: right when the buffers differ, and in place what CbcOverlaidFails is about. */
  method CbcDecryptSector(k: CbcKeys, sector: nat, inp: array<bv8>, out: array<bv8>, len: nat)
    requires k.Valid() && len <= inp.Length && len <= out.Length && len + 16 < U32
    modifies out
    ensures out[..len / 16 * 16] == CbcRest(k.dec, CbcIv(k, sector), old(inp[..len / 16 * 16]), inp == out)
    ensures out[len / 16 * 16..] == old(out[len / 16 * 16..])
  {
    hide CbcRest, CbcIv;
    var iv := new bv8[16];
    MakeCbcIv(k, sector, iv);
    CbcBlocks(k.dec, iv, inp, out, len);
  }

  // The loop over the whole blocks, from a first initialisation vector on.
  method CbcBlocks(k: Schedule, iv: array<bv8>, inp: array<bv8>, out: array<bv8>, len: nat)
    requires k.Valid() && iv.Length == 16 && iv != out && iv != inp
    requires len <= inp.Length && len <= out.Length && len + 16 < U32
    modifies out, iv
    ensures out[..len / 16 * 16] == CbcRest(k, old(iv[..]), old(inp[..len / 16 * 16]), inp == out)
    ensures out[len / 16 * 16..] == old(out[len / 16 * 16..])
  {
    hide CbcRest, Schedule.Valid, StepFits;
    ghost var whole := len / 16 * 16;
    ghost var data, total := inp[..whole], CbcRest(k, iv[..], inp[..whole], inp == out);
    var off := 0;
    assert data[0..] == data;
    BlockFits(off, len);
    while StepFits(off, 16, len)
      invariant off % 16 == 0 && 0 <= off <= whole && (StepFits(off, 16, len) <==> off + 16 <= whole)
      invariant StepFits(off, 16, len) || off == whole
      invariant forall j :: off <= j < whole ==> inp[j] == data[j]
      invariant out[..off] + CbcRest(k, iv[..], data[off..], inp == out) == total
      invariant forall j :: whole <= j < out.Length ==> out[j] == old(out[j])
      decreases whole - off
    {
      CbcTurn(k, iv, inp, out, off, data, total);
      off := off + 16;
      BlockFits(off, len);
    }
    CbcRestEmpty(k, iv[..], inp == out);
    assert data[off..] == [];
  }

  lemma CbcRestEmpty(k: Schedule, iv: Block, overlaid: bool)
    requires k.Valid()
    ensures CbcRest(k, iv, [], overlaid) == []
  {
  }
}
