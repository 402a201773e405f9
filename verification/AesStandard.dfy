/** The block cipher as FIPS 197 writes it, byte by byte: rows and columns, a matrix over the field and
    a key expansion on bytes; and the proof that what the code computes from a key is that cipher. */
module AesStandard {
  import opened Bytes
  import opened AesTables
  import opened AesField
  import opened Aes

  // ---- The key expansion (section 5.2) ----

  // The power of x that round n adds to the first byte of a word.
  function Rcon(n: nat): bv8
    requires n >= 1
  {
    if n == 1 then 1 else Xtime(Rcon(n - 1))
  }

  // What byte j of word i is combined with: the word before, every nk words rotated, substituted and
  // with a constant added, and in long keys also substituted half way.
  function Temp(kb: seq<bv8>, nk: nat, i: nat, j: nat): bv8
    requires nk >= 1 && nk <= i && 4 * i <= |kb| && j < 4
  {
    if i % nk == 0 then
      DivAtLeast(i, nk);
      Xor(SBox(kb[4 * (i - 1) + (j + 1) % 4]), if j == 0 then Rcon(i / nk) else 0)
    else if nk > 6 && i % nk == 4 then SBox(kb[4 * (i - 1) + j])
    else kb[4 * (i - 1) + j]
  }

  lemma DivAtLeast(i: nat, n: nat)
    requires 1 <= n <= i
    ensures i / n >= 1
  {
    if i / n == 0 {
      Divided(i, n);
      assert false;
    }
  }

  ghost predicate ByteExpands(kb: seq<bv8>, nk: nat, i: nat, j: nat)
    requires nk >= 1 && nk <= i && 4 * i + 4 <= |kb| && j < 4
  {
    kb[4 * i + j] == Xor(kb[4 * (i - nk) + j], Temp(kb, nk, i, j))
  }

  // The bytes of the round keys that a key of nk words expands to.
  ghost predicate KeyExpansion(key: seq<bv8>, nk: nat, rounds: nat, kb: seq<bv8>) {
    && nk >= 1 && 4 * nk <= |key| && 4 * nk <= |kb| == 16 * (rounds + 1)
    && kb[..4 * nk] == key[..4 * nk]
    && forall i: nat, j: nat :: nk <= i < 4 * (rounds + 1) && j < 4 ==> ByteExpands(kb, nk, i, j)
  }

  function BytesOf(words: seq<bv32>): (r: seq<bv8>)
    ensures |r| == 4 * |words|
  {
    seq(4 * |words|, n requires 0 <= n < 4 * |words| => WordByte(words[n / 4], n % 4))
  }

  lemma ByteOfWord(words: seq<bv32>, i: nat, j: nat)
    requires i < |words| && j < 4
    ensures BytesOf(words)[4 * i + j] == WordByte(words[i], j)
  {
    hide WordByte;
    DivModUnique(4 * i + j, 4, i, j);
  }

  lemma WordOfBytes(b: seq<bv8>, j: nat)
    requires |b| == 4 && j < 4
    ensures WordByte(BytesToWord(b), j) == b[j]
  {
    hide WordByte, BytesToWord;
    assert b == [b[0], b[1], b[2], b[3]];
    WordOfFour(b[0], b[1], b[2], b[3]);
  }

  lemma WordOfFour(a: bv8, b: bv8, c: bv8, d: bv8)
    ensures
      var w := BytesToWord([a, b, c, d]);
      WordByte(w, 0) == a && WordByte(w, 1) == b && WordByte(w, 2) == c && WordByte(w, 3) == d
  {
  }

  lemma XorBytewise(v: bv32, w: bv32, j: nat)
    requires j < 4
    ensures WordByte(XorWord(v, w), j) == Xor(WordByte(v, j), WordByte(w, j))
  {
    match j {
      case 0 => XorOfTop(v, w);
      case 1 => XorOfSecond(v, w);
      case 2 => XorOfThird(v, w);
      case _ => XorOfLast(v, w);
    }
  }

  lemma XorOfTop(v: bv32, w: bv32)
    ensures ((v ^ w) >> 24) as bv8 == ((v >> 24) as bv8) ^ ((w >> 24) as bv8)
  {
  }

  lemma XorOfSecond(v: bv32, w: bv32)
    ensures (((v ^ w) >> 16) & 0xff) as bv8 == (((v >> 16) & 0xff) as bv8) ^ (((w >> 16) & 0xff) as bv8)
  {
  }

  lemma XorOfThird(v: bv32, w: bv32)
    ensures (((v ^ w) >> 8) & 0xff) as bv8 == (((v >> 8) & 0xff) as bv8) ^ (((w >> 8) & 0xff) as bv8)
  {
  }

  lemma XorOfLast(v: bv32, w: bv32)
    ensures ((v ^ w) & 0xff) as bv8 == ((v & 0xff) as bv8) ^ ((w & 0xff) as bv8)
  {
  }

  lemma RotBytewise(w: bv32, j: nat)
    requires j < 4
    ensures WordByte(RotWord(w), j) == WordByte(w, (j + 1) % 4)
  {
  }

  lemma SubBytewise(w: bv32, j: nat)
    requires j < 4
    ensures WordByte(SubWord(w), j) == SBox(WordByte(w, j))
  {
    hide SBox, WordByte, BytesToWord;
    WordOfBytes([SBox(WordByte(w, 0)), SBox(WordByte(w, 1)), SBox(WordByte(w, 2)), SBox(WordByte(w, 3))], j);
  }

  lemma FirstConstants()
    ensures Rcon(1) == 0x01 && Rcon(2) == 0x02 && Rcon(3) == 0x04 && Rcon(4) == 0x08 && Rcon(5) == 0x10
    ensures Rcon(6) == 0x20 && Rcon(7) == 0x40 && Rcon(8) == 0x80
  {
  }

  lemma LastConstants()
    ensures Rcon(9) == 0x1b && Rcon(10) == 0x36
  {
    FirstConstants();
    hide Rcon;
    NextConstant(9);
    NextConstant(10);
  }

  lemma NextConstant(n: nat)
    requires n >= 2
    ensures Rcon(n) == Xtime(Rcon(n - 1))
  {
    hide Xtime;
  }

  /** The constants of the table are the powers of x, in the first byte of their words. */
  lemma ConstantsArePowers(n: nat, j: nat)
    requires 1 <= n <= 10 && j < 4
    ensures WordByte(RoundConstant(n), j) == if j == 0 then Rcon(n) else 0
  {
    FirstConstants();
    LastConstants();
    hide Rcon, Xtime;
  }

  // A word of the code's schedule, byte by byte.
  lemma WordExpands(key: seq<bv8>, nk: nat, i: nat, j: nat)
    requires ExpandableKey(nk) && 4 * nk <= |key| && nk <= i < 4 * (RoundsFor(nk) + 1) && j < 4
    ensures i / nk >= 1
    ensures
      var t := KeyWord(key, nk, i - 1);
      WordByte(KeyWord(key, nk, i), j) ==
      Xor(WordByte(KeyWord(key, nk, i - nk), j),
          if i % nk == 0 then Xor(SBox(WordByte(t, (j + 1) % 4)), if j == 0 then Rcon(i / nk) else 0)
          else if nk > 6 && i % nk == 4 then SBox(WordByte(t, j))
          else WordByte(t, j))
  {
    hide WordByte, SubWord, RotWord, XorWord, RoundConstant, BytesToWord, SBox, Xor, Rcon;
    DivAtLeast(i, nk);
    ConstantsSuffice(nk, i);
    var t, w := KeyWord(key, nk, i - 1), KeyWord(key, nk, i - nk);
    if i % nk == 0 {
      XorBytewise(SubWord(RotWord(t)), RoundConstant(i / nk), j);
      SubBytewise(RotWord(t), j);
      RotBytewise(t, j);
      ConstantsArePowers(i / nk, j);
      XorBytewise(w, XorWord(SubWord(RotWord(t)), RoundConstant(i / nk)), j);
    } else if nk > 6 && i % nk == 4 {
      SubBytewise(t, j);
      XorBytewise(w, SubWord(t), j);
    } else {
      XorBytewise(w, t, j);
    }
  }

  lemma ScheduleByte(key: seq<bv8>, i: nat, j: nat)
    requires ExpandableKey(|key| / 4) && i < 4 * (RoundsFor(|key| / 4) + 1) && j < 4
    ensures |Expanded(key).words| == 4 * (RoundsFor(|key| / 4) + 1)
    ensures BytesOf(Expanded(key).words)[4 * i + j] == WordByte(KeyWord(key, |key| / 4, i), j)
  {
    hide WordByte, KeyWord, BytesOf;
    ByteOfWord(Expanded(key).words, i, j);
  }

  lemma ScheduleByteExpands(key: seq<bv8>, i: nat, j: nat)
    requires ExpandableKey(|key| / 4) && |key| / 4 <= i < 4 * (RoundsFor(|key| / 4) + 1) && j < 4
    ensures |Expanded(key).words| == 4 * (RoundsFor(|key| / 4) + 1)
    ensures ByteExpands(BytesOf(Expanded(key).words), |key| / 4, i, j)
  {
    hide WordByte, KeyWord, BytesOf, SBox, Xor, Rcon, RoundsFor, Expanded;
    var nk := |key| / 4;
    ScheduleByte(key, i, j);
    ScheduleByte(key, i - nk, j);
    ScheduleByte(key, i - 1, j);
    ScheduleByte(key, i - 1, (j + 1) % 4);
    WordExpands(key, nk, i, j);
  }

  lemma KeyKept(key: seq<bv8>, n: nat)
    requires ExpandableKey(|key| / 4) && n < 4 * (|key| / 4)
    ensures 4 * (|key| / 4) <= 4 * |Expanded(key).words|
    ensures BytesOf(Expanded(key).words)[n] == key[n]
  {
    hide WordByte, BytesOf, BytesToWord;
    var i, j := n / 4, n % 4;
    Divided(n, 4);
    ScheduleByte(key, i, j);
    WordOfBytes(key[4 * i..4 * i + 4], j);
  }

  /** The schedule of the code, read as bytes, is the key expansion of the standard. */
  lemma ScheduleIsStandard(key: seq<bv8>)
    requires ExpandableKey(|key| / 4)
    ensures KeyExpansion(key, |key| / 4, RoundsFor(|key| / 4), BytesOf(Expanded(key).words))
  {
    var nk := |key| / 4;
    var kb := BytesOf(Expanded(key).words);
    hide WordByte, KeyWord, BytesOf, ByteExpands;
    forall n | 0 <= n < 4 * nk ensures kb[n] == key[n] {
      KeyKept(key, n);
    }
    forall i: nat, j: nat | nk <= i < 4 * (RoundsFor(nk) + 1) && j < 4 ensures ByteExpands(kb, nk, i, j) {
      ScheduleByteExpands(key, i, j);
    }
  }

  /** The standard leaves no choice: a key has one expansion. */
  lemma {:induction false} OneExpansion(key: seq<bv8>, nk: nat, rounds: nat, a: seq<bv8>, b: seq<bv8>, n: nat)
    requires KeyExpansion(key, nk, rounds, a) && KeyExpansion(key, nk, rounds, b) && n <= 4 * (rounds + 1)
    ensures a[..4 * n] == b[..4 * n]
  {
    hide SBox, Xor, Rcon;
    if n > 0 {
      OneExpansion(key, nk, rounds, a, b, n - 1);
      hide KeyExpansion;
      var m := 4 * (n - 1);
      NextByteSame(key, nk, rounds, a, b, n - 1, 0);
      NextByteSame(key, nk, rounds, a, b, n - 1, 1);
      NextByteSame(key, nk, rounds, a, b, n - 1, 2);
      NextByteSame(key, nk, rounds, a, b, n - 1, 3);
      assert a[..m + 4] == a[..m] + [a[m], a[m + 1], a[m + 2], a[m + 3]];
      assert b[..m + 4] == b[..m] + [b[m], b[m + 1], b[m + 2], b[m + 3]];
    }
  }

  lemma NextByteSame(key: seq<bv8>, nk: nat, rounds: nat, a: seq<bv8>, b: seq<bv8>, i: nat, j: nat)
    requires KeyExpansion(key, nk, rounds, a) && KeyExpansion(key, nk, rounds, b) && i < 4 * (rounds + 1) && j < 4
    requires a[..4 * i] == b[..4 * i]
    ensures SameAt(a, b, 4 * i + j)
  {
    hide ByteExpands;
    if i < nk {
      KeptByBoth(key, nk, rounds, a, b, 4 * i + j);
    } else {
      SameByte(nk, a, b, i, j);
    }
  }

  predicate SameAt(a: seq<bv8>, b: seq<bv8>, k: nat) {
    k < |a| && k < |b| && a[k] == b[k]
  }

  lemma KeptByBoth(key: seq<bv8>, nk: nat, rounds: nat, a: seq<bv8>, b: seq<bv8>, k: nat)
    requires KeyExpansion(key, nk, rounds, a) && KeyExpansion(key, nk, rounds, b) && k < 4 * nk
    ensures SameAt(a, b, k)
  {
    hide ByteExpands;
    assert a[k] == a[..4 * nk][k] && b[k] == b[..4 * nk][k];
  }

  lemma SameByte(nk: nat, a: seq<bv8>, b: seq<bv8>, i: nat, j: nat)
    requires 1 <= nk <= i && 4 * i + 4 <= |a| == |b| && j < 4 && a[..4 * i] == b[..4 * i]
    requires ByteExpands(a, nk, i, j) && ByteExpands(b, nk, i, j)
    ensures SameAt(a, b, 4 * i + j)
  {
    hide SBox, Xor, Rcon;
    forall k | 0 <= k < 4 * i ensures a[k] == b[k] {
      assert a[k] == a[..4 * i][k] && b[k] == b[..4 * i][k];
    }
  }

  // ---- The rounds (section 5.1) ----

  // The matrix of MixColumns: the first row is 2 3 1 1, and each row turns on by one.
  function MatrixEntry(row: nat, k: nat): bv8
    requires row < 4 && k < 4
  {
    if k == row then 2 else if k == (row + 1) % 4 then 3 else 1
  }

  // What is in row r and column c after the rows have been shifted.
  function Shifted(s: Block, r: nat, c: nat): bv8
    requires r < 4 && c < 4
  {
    SBox(s[r + 4 * ((c + r) % 4)])
  }

  // Row r of the matrix times a column.
  function RowTimes(r: nat, a: bv8, b: bv8, c: bv8, d: bv8): bv8
    requires r < 4
  {
    Xor(Xor(Xor(GMul(MatrixEntry(r, 0), a), GMul(MatrixEntry(r, 1), b)), GMul(MatrixEntry(r, 2), c)),
        GMul(MatrixEntry(r, 3), d))
  }

  function Product(s: Block, r: nat, c: nat): bv8
    requires r < 4 && c < 4
  {
    RowTimes(r, Shifted(s, 0, c), Shifted(s, 1, c), Shifted(s, 2, c), Shifted(s, 3, c))
  }

  // Byte n of the state after a round.
  function NextByte(kb: seq<bv8>, rounds: nat, s: Block, round: nat, n: nat): bv8
    requires 1 <= round <= rounds && |kb| == 16 * (rounds + 1) && n < 16
  {
    var mixed := if round < rounds then Product(s, n % 4, n / 4) else Shifted(s, n % 4, n / 4);
    Xor(mixed, kb[16 * round + n])
  }

  function StandardState(kb: seq<bv8>, rounds: nat, b: Block, round: nat): Block
    requires round <= rounds && |kb| == 16 * (rounds + 1)
  {
    if round == 0 then XorSeq(b, kb[..16])
    else
      var s := StandardState(kb, rounds, b, round - 1);
      seq(16, n requires 0 <= n < 16 => NextByte(kb, rounds, s, round, n))
  }

  function StandardCipher(kb: seq<bv8>, rounds: nat, b: Block): Block
    requires |kb| == 16 * (rounds + 1)
  {
    StandardState(kb, rounds, b, rounds)
  }

  lemma SmallProducts(a: bv8)
    ensures GMul(1, a) == a && GMul(2, a) == Xtime(a) && GMul(3, a) == Xor(a, Xtime(a))
  {
    assert Xor(1, 2) == 3;
    hide Xtime, Xor, ProductBits;
    PowersOfX();
    PowersTimes(a);
    ProductLinear(1, 2, a, 8);
  }

  // A row of the matrix times a column is the sum that the code takes.
  lemma RowsOfMatrix(a: bv8, b: bv8, c: bv8, d: bv8)
    ensures RowTimes(0, a, b, c, d) == MixByte(a, b, c, d) && RowTimes(1, a, b, c, d) == MixByte(b, c, d, a)
    ensures RowTimes(2, a, b, c, d) == MixByte(c, d, a, b) && RowTimes(3, a, b, c, d) == MixByte(d, a, b, c)
  {
    SmallProducts(a);
    SmallProducts(b);
    SmallProducts(c);
    SmallProducts(d);
    hide GMul, Xor, Xtime;
    RowSums(a, b, c, d, Xtime(a), Xtime(b), Xtime(c), Xtime(d));
  }

  lemma RowSums(a: bv8, b: bv8, c: bv8, d: bv8, a2: bv8, b2: bv8, c2: bv8, d2: bv8)
    ensures Xor(Xor(Xor(a2, Xor(b, b2)), c), d) == Xor(Xor(Xor(Xor(a2, b2), b), c), d)
    ensures Xor(Xor(Xor(a, b2), Xor(c, c2)), d) == Xor(Xor(Xor(Xor(b2, c2), c), d), a)
    ensures Xor(Xor(Xor(a, b), c2), Xor(d, d2)) == Xor(Xor(Xor(Xor(c2, d2), d), a), b)
    ensures Xor(Xor(Xor(Xor(a, a2), b), c), d2) == Xor(Xor(Xor(Xor(d2, a2), a), b), c)
  {
    hide Xor;
    XorCommutes(b, b2);
    XorAssociative(a2, b2, b);
    XorCommutes(c, c2);
    XorAssociative(Xor(a, b2), c2, c);
    XorMoveFirstToLast(a, b2, c2, c, d);
    XorCommutes(d, d2);
    XorAssociative(Xor(Xor(a, b), c2), d2, d);
    XorMoveTwoToLast(a, b, c2, d2, d);
    XorCommutes(a, a2);
    XorMoveLastToFirst(a2, a, b, c, d2);
  }

  // Byte r + 4 * c of the state before the columns are mixed.
  lemma ShiftedAt(s: Block, r: nat, c: nat)
    requires r < 4 && c < 4
    ensures ShiftRows(SubBytes(s))[r + 4 * c] == Shifted(s, r, c)
  {
    hide SBox;
  }

  lemma MixColumnsAt(t: Block, i: nat)
    requires i < 16
    ensures MixColumns(t)[i] == MixedAt(t, i)
  {
    hide MixedAt;
  }

  lemma MixedIsProduct(s: Block, r: nat, c: nat)
    requires r < 4 && c < 4
    ensures MixColumns(ShiftRows(SubBytes(s)))[r + 4 * c] == Product(s, r, c)
  {
    hide SubBytes, ShiftRows, MixColumns, Shifted, MixedAt, MixByte, UnmixedAt, UnmixByte, RowTimes;
    var t := ShiftRows(SubBytes(s));
    MixColumnsAt(t, r + 4 * c);
    ShiftedAt(s, 0, c);
    ShiftedAt(s, 1, c);
    ShiftedAt(s, 2, c);
    ShiftedAt(s, 3, c);
    ColumnAt(t, c);
    RowsOfMatrix(t[4 * c], t[4 * c + 1], t[4 * c + 2], t[4 * c + 3]);
  }

  lemma KeyByteAt(words: seq<bv32>, round: nat, n: nat)
    requires 4 * round + 4 <= |words| && n < 16
    ensures RoundKey(words, 4 * round)[n] == BytesOf(words)[16 * round + n]
  {
    hide WordByte, BytesOf;
    Divided(n, 4);
    ByteOfWord(words, 4 * round + n / 4, n % 4);
  }

  lemma RoundIsStandard(k: Schedule, s: Block, round: nat, n: nat)
    requires k.Valid() && |k.words| == 4 * (k.rounds + 1) && 1 <= round <= k.rounds && n < 16
    ensures NextByte(BytesOf(k.words), k.rounds, s, round, n) ==
            if round < k.rounds then FullRound(k, s, round)[n] else FinalRound(k, s, round)[n]
  {
    hide SubBytes, ShiftRows, MixColumns, RoundKey, Product, Shifted, Xor, BytesOf;
    Divided(n, 4);
    KeyByteAt(k.words, round, n);
    ShiftedAt(s, n % 4, n / 4);
    MixedIsProduct(s, n % 4, n / 4);
  }

  lemma {:induction false} StateIsStandard(k: Schedule, b: Block, round: nat)
    requires k.Valid() && |k.words| == 4 * (k.rounds + 1) && round <= k.rounds
    ensures EncState(k, b, round) == StandardState(BytesOf(k.words), k.rounds, b, round)
  {
    hide RoundKey, FullRound, FinalRound, NextByte, BytesOf, Xor;
    var kb := BytesOf(k.words);
    if round == 0 {
      forall n | 0 <= n < 16 ensures RoundKey(k.words, 0)[n] == kb[..16][n] {
        KeyByteAt(k.words, 0, n);
      }
    } else {
      StateIsStandard(k, b, round - 1);
      var s := EncState(k, b, round - 1);
      forall n | 0 <= n < 16 ensures EncState(k, b, round)[n] == NextByte(kb, k.rounds, s, round, n) {
        RoundIsStandard(k, s, round, n);
      }
    }
  }

  /** For every key the code accepts and every block: encryption under the schedule of the code is the
      cipher of the standard under the expansion of the key, and decryption undoes that cipher. */
  lemma EncryptIsStandard(key: seq<bv8>, kb: seq<bv8>, b: Block)
    requires ExpandableKey(|key| / 4) && KeyExpansion(key, |key| / 4, RoundsFor(|key| / 4), kb)
    ensures Expanded(key).Valid() && Encrypt(Expanded(key), b) == StandardCipher(kb, RoundsFor(|key| / 4), b)
    ensures Decrypt(Expanded(key), StandardCipher(kb, RoundsFor(|key| / 4), b)) == b
  {
    hide KeyExpansion, BytesOf, StandardState;
    var k, nk := Expanded(key), |key| / 4;
    ScheduleIsStandard(key);
    SameExpansion(key, nk, RoundsFor(nk), kb, BytesOf(k.words));
    StateIsStandard(k, b, k.rounds);
    DecryptUndoesEncrypt(k, b);
  }

  lemma SameExpansion(key: seq<bv8>, nk: nat, rounds: nat, a: seq<bv8>, b: seq<bv8>)
    requires KeyExpansion(key, nk, rounds, a) && KeyExpansion(key, nk, rounds, b)
    ensures a == b && |a| == 16 * (rounds + 1)
  {
    OneExpansion(key, nk, rounds, a, b, 4 * (rounds + 1));
    assert a == a[..16 * (rounds + 1)] && b == b[..16 * (rounds + 1)];
  }
}
