/** The block cipher of FIPS 197: the round transformations on the sixteen-byte state, encryption,
    the direct inverse cipher, and the proof that the two undo each other for every array of round
    keys and every number of rounds. */
module Aes {
  import opened Bytes
  import opened AesTables
  import opened AesField

  type Block = s: seq<bv8> | |s| == 16 witness seq(16, _ => 0)

  // A key schedule: the round keys in 32-bit words and the number of rounds.
  datatype Schedule = Schedule(words: seq<bv32>, rounds: nat) {
    ghost predicate Valid() {
      4 * (rounds + 1) <= |words|
    }
  }

  // ---- Round transformations as functions (section 5.1 of FIPS 197) ----

  // Byte k of a word, the most significant first.
  function WordByte(w: bv32, k: nat): bv8
    requires k < 4
  {
    match k
    case 0 => (w >> 24) as bv8
    case 1 => ((w >> 16) & 0xff) as bv8
    case 2 => ((w >> 8) & 0xff) as bv8
    case _ => (w & 0xff) as bv8
  }

  // Byte i of the round key that starts at word off.
  function KeyByte(words: seq<bv32>, off: nat, i: nat): bv8
    requires off + 4 <= |words| && i < 16
  {
    WordByte(words[off + i / 4], i % 4)
  }

  function RoundKey(words: seq<bv32>, off: nat): Block
    requires off + 4 <= |words|
  {
    seq(16, i requires 0 <= i < 16 => KeyByte(words, off, i))
  }

  function AddRoundKey(s: Block, words: seq<bv32>, off: nat): Block
    requires off + 4 <= |words|
  {
    XorSeq(s, RoundKey(words, off))
  }

  function SubBytes(s: Block): Block {
    seq(16, i requires 0 <= i < 16 => SBox(s[i]))
  }

  function InvSubBytes(s: Block): Block {
    seq(16, i requires 0 <= i < 16 => RSBox(s[i]))
  }

  // The state is kept column by column: byte i is in row i % 4. Row r turns left r places, so the
  // byte that comes to i was that many columns further on.
  function TurnedFrom(i: nat): (j: nat)
    requires i < 16
    ensures j < 16
  {
    match i % 4
    case 0 => i
    case 1 => if i < 12 then i + 4 else i - 12
    case 2 => if i < 8 then i + 8 else i - 8
    case _ => if i < 4 then i + 12 else i - 4
  }

  function TurnedBackFrom(i: nat): (j: nat)
    requires i < 16
    ensures j < 16
  {
    match i % 4
    case 0 => i
    case 1 => if i < 4 then i + 12 else i - 4
    case 2 => if i < 8 then i + 8 else i - 8
    case _ => if i < 12 then i + 4 else i - 12
  }

  function ShiftRows(s: Block): Block {
    seq(16, i requires 0 <= i < 16 => s[TurnedFrom(i)])
  }

  function InvShiftRows(s: Block): Block {
    seq(16, i requires 0 <= i < 16 => s[TurnedBackFrom(i)])
  }

  // The byte k places below i in its column, wrapping round.
  function Below(i: nat, k: nat): (j: nat)
    requires i < 16 && k < 4
    ensures j < 16
  {
    if i % 4 + k < 4 then i + k else i + k - 4
  }

  function MixedAt(s: Block, i: nat): bv8
    requires i < 16
  {
    MixByte(s[i], s[Below(i, 1)], s[Below(i, 2)], s[Below(i, 3)])
  }

  function UnmixedAt(s: Block, i: nat): bv8
    requires i < 16
  {
    UnmixByte(s[i], s[Below(i, 1)], s[Below(i, 2)], s[Below(i, 3)])
  }

  function MixColumns(s: Block): Block {
    seq(16, i requires 0 <= i < 16 => MixedAt(s, i))
  }

  function InvMixColumns(s: Block): Block {
    seq(16, i requires 0 <= i < 16 => UnmixedAt(s, i))
  }

  // ---- Each undoes its inverse ----

  lemma SubBytesInverse(s: Block)
    ensures InvSubBytes(SubBytes(s)) == s && SubBytes(InvSubBytes(s)) == s
  {
    forall i | 0 <= i < 16
      ensures InvSubBytes(SubBytes(s))[i] == s[i] && SubBytes(InvSubBytes(s))[i] == s[i]
    {
      RSBoxUndoesSBox(s[i]);
      SBoxUndoesRSBox(s[i]);
    }
  }

  lemma ShiftRowsInverse(s: Block)
    ensures InvShiftRows(ShiftRows(s)) == s && ShiftRows(InvShiftRows(s)) == s
  {
    hide TurnedFrom, TurnedBackFrom;
    forall i | 0 <= i < 16
      ensures InvShiftRows(ShiftRows(s))[i] == s[i] && ShiftRows(InvShiftRows(s))[i] == s[i]
    {
      TurnsCancel(i);
    }
  }

  lemma TurnsCancel(i: nat)
    requires i < 16
    ensures TurnedFrom(TurnedBackFrom(i)) == i && TurnedBackFrom(TurnedFrom(i)) == i
  {
  }

  lemma MixColumnsInverse(s: Block)
    ensures InvMixColumns(MixColumns(s)) == s && MixColumns(InvMixColumns(s)) == s
  {
    hide MixByte, UnmixByte;
    forall i | 0 <= i < 16
      ensures InvMixColumns(MixColumns(s))[i] == s[i] && MixColumns(InvMixColumns(s))[i] == s[i]
    {
      ColumnWrapsRound(i);
      UnmixUndoesMix(s[i], s[Below(i, 1)], s[Below(i, 2)], s[Below(i, 3)]);
      MixUndoesUnmix(s[i], s[Below(i, 1)], s[Below(i, 2)], s[Below(i, 3)]);
    }
  }

  lemma ColumnWrapsRound(i: nat)
    requires i < 16
    ensures Below(Below(i, 1), 1) == Below(i, 2) && Below(Below(i, 1), 2) == Below(i, 3) && Below(Below(i, 1), 3) == i
    ensures Below(Below(i, 2), 1) == Below(i, 3) && Below(Below(i, 2), 2) == i && Below(Below(i, 2), 3) == Below(i, 1)
    ensures Below(Below(i, 3), 1) == i && Below(Below(i, 3), 2) == Below(i, 1) && Below(Below(i, 3), 3) == Below(i, 2)
  {
  }

  // ---- The cipher ----

  function FinalRound(k: Schedule, s: Block, round: nat): Block
    requires k.Valid() && round <= k.rounds
  {
    AddRoundKey(ShiftRows(SubBytes(s)), k.words, 4 * round)
  }

  function FullRound(k: Schedule, s: Block, round: nat): Block
    requires k.Valid() && round <= k.rounds
  {
    AddRoundKey(MixColumns(ShiftRows(SubBytes(s))), k.words, 4 * round)
  }

  // The state after the given number of rounds of encryption.
  function EncState(k: Schedule, b: Block, round: nat): Block
    requires k.Valid() && round <= k.rounds
  {
    if round == 0 then AddRoundKey(b, k.words, 0)
    else if round < k.rounds then FullRound(k, EncState(k, b, round - 1), round)
    else FinalRound(k, EncState(k, b, round - 1), round)
  }

  function Encrypt(k: Schedule, b: Block): Block
    requires k.Valid()
  {
    EncState(k, b, k.rounds)
  }

  function InvRound(k: Schedule, s: Block, round: nat): Block
    requires k.Valid() && round <= k.rounds
  {
    var t := AddRoundKey(InvSubBytes(InvShiftRows(s)), k.words, 4 * round);
    if round > 0 then InvMixColumns(t) else t
  }

  // The state of decryption once the rounds from the last down to the given one have been undone.
  function DecState(k: Schedule, b: Block, round: nat): Block
    requires k.Valid() && round <= k.rounds
    decreases k.rounds - round
  {
    if round == k.rounds then AddRoundKey(b, k.words, 4 * k.rounds)
    else InvRound(k, DecState(k, b, round + 1), round)
  }

  function Decrypt(k: Schedule, b: Block): Block
    requires k.Valid()
  {
    DecState(k, b, 0)
  }

  lemma AddRoundKeyTwice(s: Block, words: seq<bv32>, off: nat)
    requires off + 4 <= |words|
    ensures AddRoundKey(AddRoundKey(s, words, off), words, off) == s
  {
    XorSeqCancels(s, RoundKey(words, off));
  }

  // Decryption passes through the states of encryption in reverse: when the rounds above `round` are
  // undone, what is left is the state just before the key of that round was added and, unless it
  // is the last round, before its columns were mixed.
  ghost function HalfRound(k: Schedule, b: Block, round: nat): Block
    requires k.Valid() && round <= k.rounds
  {
    if round == 0 then b else ShiftRows(SubBytes(EncState(k, b, round - 1)))
  }

  lemma {:induction false} DecryptRetraces(k: Schedule, b: Block, round: nat)
    requires k.Valid() && round <= k.rounds
    ensures DecState(k, Encrypt(k, b), round) == HalfRound(k, b, round)
    decreases k.rounds - round
  {
    hide SubBytes, InvSubBytes, ShiftRows, InvShiftRows, MixColumns, InvMixColumns, AddRoundKey;
    if round == k.rounds {
      if round > 0 {
        AddRoundKeyTwice(HalfRound(k, b, round), k.words, 4 * round);
      } else {
        AddRoundKeyTwice(b, k.words, 0);
      }
    } else {
      DecryptRetraces(k, b, round + 1);
      ShiftRowsInverse(SubBytes(EncState(k, b, round)));
      SubBytesInverse(EncState(k, b, round));
      if round == 0 {
        AddRoundKeyTwice(b, k.words, 0);
      } else {
        AddRoundKeyTwice(MixColumns(HalfRound(k, b, round)), k.words, 4 * round);
        MixColumnsInverse(HalfRound(k, b, round));
      }
    }
  }

  /** Decryption undoes encryption, whatever the round keys and the number of rounds. */
  lemma DecryptUndoesEncrypt(k: Schedule, b: Block)
    requires k.Valid()
    ensures Decrypt(k, Encrypt(k, b)) == b
  {
    DecryptRetraces(k, b, 0);
  }

  lemma {:induction false} EncryptRetraces(k: Schedule, b: Block, round: nat)
    requires k.Valid() && round <= k.rounds
    ensures round < k.rounds ==> SubBytes(EncState(k, Decrypt(k, b), round)) == InvShiftRows(DecState(k, b, round + 1))
    ensures round == k.rounds ==> EncState(k, Decrypt(k, b), round) == b
  {
    hide SubBytes, InvSubBytes, ShiftRows, InvShiftRows, MixColumns, InvMixColumns, AddRoundKey;
    if round == 0 {
      if k.rounds == 0 {
        AddRoundKeyTwice(b, k.words, 0);
      } else {
        var s := InvSubBytes(InvShiftRows(DecState(k, b, 1)));
        AddRoundKeyTwice(s, k.words, 0);
        SubBytesInverse(InvShiftRows(DecState(k, b, 1)));
      }
    } else {
      EncryptRetraces(k, b, round - 1);
      ShiftRowsInverse(DecState(k, b, round));
      if round == k.rounds {
        AddRoundKeyTwice(b, k.words, 4 * round);
      } else {
        var s := InvSubBytes(InvShiftRows(DecState(k, b, round + 1)));
        MixColumnsInverse(AddRoundKey(s, k.words, 4 * round));
        AddRoundKeyTwice(s, k.words, 4 * round);
        SubBytesInverse(InvShiftRows(DecState(k, b, round + 1)));
      }
    }
  }

  /** Encryption undoes decryption: the two are inverse permutations of the blocks. */
  lemma EncryptUndoesDecrypt(k: Schedule, b: Block)
    requires k.Valid()
    ensures Encrypt(k, Decrypt(k, b)) == b
  {
    EncryptRetraces(k, b, k.rounds);
  }

  // ---- The code, on a state that is updated in place ----

  method AddRk(s: array<bv8>, words: seq<bv32>, off: nat)
    requires s.Length == 16 && off + 4 <= |words|
    modifies s
    ensures s[..] == AddRoundKey(old(s[..]), words, off)
  {
    hide Xor, WordByte, KeyByte;
    for c := 0 to 4
      invariant forall i :: 0 <= i < 4 * c ==> s[i] == Xor(old(s[i]), KeyByte(words, off, i))
      invariant forall i :: 4 * c <= i < 16 ==> s[i] == old(s[i])
    {
      AddColumn(s, words, off, c);
    }
  }

  method AddColumn(s: array<bv8>, words: seq<bv32>, off: nat, c: nat)
    requires s.Length == 16 && off + 4 <= |words| && c < 4
    modifies s
    ensures forall i :: 0 <= i < 16 ==>
      s[i] == if 4 * c <= i < 4 * c + 4 then Xor(old(s[i]), KeyByte(words, off, i)) else old(s[i])
  {
    hide Xor, WordByte, KeyByte;
    var w := words[off + c];
    KeyColumn(words, off, c);
    s[c * 4] := Xor(s[c * 4], WordByte(w, 0));
    s[c * 4 + 1] := Xor(s[c * 4 + 1], WordByte(w, 1));
    s[c * 4 + 2] := Xor(s[c * 4 + 2], WordByte(w, 2));
    s[c * 4 + 3] := Xor(s[c * 4 + 3], WordByte(w, 3));
  }

  lemma KeyColumn(words: seq<bv32>, off: nat, c: nat)
    requires off + 4 <= |words| && c < 4
    ensures KeyByte(words, off, 4 * c) == WordByte(words[off + c], 0)
    ensures KeyByte(words, off, 4 * c + 1) == WordByte(words[off + c], 1)
    ensures KeyByte(words, off, 4 * c + 2) == WordByte(words[off + c], 2)
    ensures KeyByte(words, off, 4 * c + 3) == WordByte(words[off + c], 3)
  {
    hide WordByte;
  }

  method SubBytesInPlace(s: array<bv8>)
    requires s.Length == 16
    modifies s
    ensures s[..] == SubBytes(old(s[..]))
  {
    hide SBox;
    for i := 0 to 16
      invariant forall j :: 0 <= j < i ==> s[j] == SBox(old(s[j]))
      invariant forall j :: i <= j < 16 ==> s[j] == old(s[j])
    {
      s[i] := SBox(s[i]);
    }
  }

  method InvSubBytesInPlace(s: array<bv8>)
    requires s.Length == 16
    modifies s
    ensures s[..] == InvSubBytes(old(s[..]))
  {
    hide RSBox;
    for i := 0 to 16
      invariant forall j :: 0 <= j < i ==> s[j] == RSBox(old(s[j]))
      invariant forall j :: i <= j < 16 ==> s[j] == old(s[j])
    {
      s[i] := RSBox(s[i]);
    }
  }

  method ShiftRowsInPlace(s: array<bv8>)
    requires s.Length == 16
    modifies s
    ensures s[..] == ShiftRows(old(s[..]))
  {
    hide ShiftRows, Turned4, Swapped;
    RowsTurn(s[..]);
    Turn4(s, 1, 5, 9, 13);
    Swap(s, 2, 10);
    Swap(s, 6, 14);
    Turn4(s, 15, 11, 7, 3);
  }

  method InvShiftRowsInPlace(s: array<bv8>)
    requires s.Length == 16
    modifies s
    ensures s[..] == InvShiftRows(old(s[..]))
  {
    hide InvShiftRows, Turned4, Swapped;
    RowsTurn(s[..]);
    Turn4(s, 13, 9, 5, 1);
    Swap(s, 2, 10);
    Swap(s, 6, 14);
    Turn4(s, 3, 7, 11, 15);
  }

  function Turned4(s: Block, a: nat, b: nat, c: nat, d: nat): Block
    requires a < 16 && b < 16 && c < 16 && d < 16
  {
    s[a := s[b]][b := s[c]][c := s[d]][d := s[a]]
  }

  function Swapped(s: Block, a: nat, b: nat): Block
    requires a < 16 && b < 16
  {
    s[a := s[b]][b := s[a]]
  }

  lemma RowsTurn(s: Block)
    ensures Turned4(Swapped(Swapped(Turned4(s, 1, 5, 9, 13), 2, 10), 6, 14), 15, 11, 7, 3) == ShiftRows(s)
    ensures Turned4(Swapped(Swapped(Turned4(s, 13, 9, 5, 1), 2, 10), 6, 14), 3, 7, 11, 15) == InvShiftRows(s)
  {
  }

  method Turn4(s: array<bv8>, a: nat, b: nat, c: nat, d: nat)
    requires s.Length == 16 && a < 16 && b < 16 && c < 16 && d < 16
    requires a != b && a != c && a != d && b != c && b != d && c != d
    modifies s
    ensures s[..] == Turned4(old(s[..]), a, b, c, d)
  {
    var t := s[a];
    s[a] := s[b];
    s[b] := s[c];
    s[c] := s[d];
    s[d] := t;
  }

  method Swap(s: array<bv8>, a: nat, b: nat)
    requires s.Length == 16 && a < 16 && b < 16
    modifies s
    ensures s[..] == Swapped(old(s[..]), a, b)
  {
    var t := s[a];
    s[a] := s[b];
    s[b] := t;
  }

  method MixColumnsInPlace(s: array<bv8>)
    requires s.Length == 16
    modifies s
    ensures s[..] == MixColumns(old(s[..]))
  {
    hide MixedAt;
    ghost var was: Block := s[..];
    for col := 0 to 4
      invariant forall i :: 0 <= i < 4 * col ==> s[i] == MixedAt(was, i)
      invariant forall i :: 4 * col <= i < 16 ==> s[i] == was[i]
    {
      MixColumnAt(s, col, was);
    }
  }

  method MixColumnAt(s: array<bv8>, col: nat, ghost was: Block)
    requires s.Length == 16 && col < 4 && forall i :: 4 * col <= i < 4 * col + 4 ==> s[i] == was[i]
    modifies s
    ensures forall i :: 0 <= i < 16 ==> s[i] == if 4 * col <= i < 4 * col + 4 then MixedAt(was, i) else old(s[i])
  {
    hide MixByte, MixedAt, UnmixedAt;
    ColumnAt(was, col);
    var r0, r1, r2, r3 := MixColumn(s[col * 4], s[col * 4 + 1], s[col * 4 + 2], s[col * 4 + 3]);
    s[col * 4], s[col * 4 + 1], s[col * 4 + 2], s[col * 4 + 3] := r0, r1, r2, r3;
  }

  method MixColumn(a: bv8, b: bv8, c: bv8, d: bv8) returns (r0: bv8, r1: bv8, r2: bv8, r3: bv8)
    ensures r0 == MixByte(a, b, c, d) && r1 == MixByte(b, c, d, a)
    ensures r2 == MixByte(c, d, a, b) && r3 == MixByte(d, a, b, c)
  {
    hide Xor, Xtime;
    RotatedForms(a, b, c, d);
    r0 := Xor(Xor(Xor(Xor(Xtime(a), Xtime(b)), b), c), d);
    r1 := Xor(Xor(Xor(Xor(a, Xtime(b)), Xtime(c)), c), d);
    r2 := Xor(Xor(Xor(Xor(a, b), Xtime(c)), Xtime(d)), d);
    r3 := Xor(Xor(Xor(Xor(Xtime(a), a), b), c), Xtime(d));
  }

  // What the four bytes of a column are mixed from.
  lemma ColumnAt(s: Block, col: nat)
    requires col < 4
    ensures
      var a, b, c, d := s[col * 4], s[col * 4 + 1], s[col * 4 + 2], s[col * 4 + 3];
      && MixedAt(s, col * 4) == MixByte(a, b, c, d) && MixedAt(s, col * 4 + 1) == MixByte(b, c, d, a)
      && MixedAt(s, col * 4 + 2) == MixByte(c, d, a, b) && MixedAt(s, col * 4 + 3) == MixByte(d, a, b, c)
      && UnmixedAt(s, col * 4) == UnmixByte(a, b, c, d) && UnmixedAt(s, col * 4 + 1) == UnmixByte(b, c, d, a)
      && UnmixedAt(s, col * 4 + 2) == UnmixByte(c, d, a, b) && UnmixedAt(s, col * 4 + 3) == UnmixByte(d, a, b, c)
  {
    hide MixByte, UnmixByte;
  }

  // The order in which the code writes the terms of the last three bytes of a column does not matter.
  lemma RotatedForms(a: bv8, b: bv8, c: bv8, d: bv8)
    ensures Xor(Xor(Xor(Xor(a, Xtime(b)), Xtime(c)), c), d) == MixByte(b, c, d, a)
    ensures Xor(Xor(Xor(Xor(a, b), Xtime(c)), Xtime(d)), d) == MixByte(c, d, a, b)
    ensures Xor(Xor(Xor(Xor(Xtime(a), a), b), c), Xtime(d)) == MixByte(d, a, b, c)
  {
    hide Xor, Xtime;
    var p, q, r := Xtime(b), Xtime(c), Xtime(d);
    XorMoveFirstToLast(a, p, q, c, d);
    XorMoveTwoToLast(a, b, q, r, d);
    XorMoveLastToFirst(Xtime(a), a, b, c, r);
  }

  lemma XorMoveFirstToLast(a: bv8, b: bv8, c: bv8, d: bv8, e: bv8)
    ensures Xor(Xor(Xor(Xor(a, b), c), d), e) == Xor(Xor(Xor(Xor(b, c), d), e), a)
  {
    hide Xor;
    XorAssociative(a, b, c);
    XorAssociative(a, Xor(b, c), d);
    XorAssociative(a, Xor(Xor(b, c), d), e);
    XorCommutes(a, Xor(Xor(Xor(b, c), d), e));
  }

  lemma XorMoveTwoToLast(a: bv8, b: bv8, c: bv8, d: bv8, e: bv8)
    ensures Xor(Xor(Xor(Xor(a, b), c), d), e) == Xor(Xor(Xor(Xor(c, d), e), a), b)
  {
    hide Xor;
    XorMoveFirstToLast(a, b, c, d, e);
    XorMoveFirstToLast(b, c, d, e, a);
  }

  lemma XorMoveLastToFirst(a: bv8, b: bv8, c: bv8, d: bv8, e: bv8)
    ensures Xor(Xor(Xor(Xor(a, b), c), d), e) == Xor(Xor(Xor(Xor(e, a), b), c), d)
  {
    hide Xor;
    XorMoveFirstToLast(e, a, b, c, d);
  }

  method InvMixColumnsInPlace(s: array<bv8>)
    requires s.Length == 16
    modifies s
    ensures s[..] == InvMixColumns(old(s[..]))
  {
    hide UnmixByte, MixedAt, UnmixedAt;
    ghost var was: Block := s[..];
    for col := 0 to 4
      invariant forall i :: 0 <= i < 4 * col ==> s[i] == UnmixedAt(was, i)
      invariant forall i :: 4 * col <= i < 16 ==> s[i] == was[i]
    {
      var a, b, c, d := s[col * 4], s[col * 4 + 1], s[col * 4 + 2], s[col * 4 + 3];
      ColumnAt(was, col);
      var r0 := UnmixLoop(a, b, c, d);
      var r1 := UnmixLoop(b, c, d, a);
      var r2 := UnmixLoop(c, d, a, b);
      var r3 := UnmixLoop(d, a, b, c);
      s[col * 4], s[col * 4 + 1], s[col * 4 + 2], s[col * 4 + 3] := r0, r1, r2, r3;
    }
  }

  method UnmixLoop(a: bv8, b: bv8, c: bv8, d: bv8) returns (r: bv8)
    ensures r == UnmixByte(a, b, c, d)
  {
    var e := GMulLoop(0x0e, a);
    var f := GMulLoop(0x0b, b);
    var g := GMulLoop(0x0d, c);
    var h := GMulLoop(0x09, d);
    r := Xor(Xor(Xor(e, f), g), h);
  }

  method EncryptBlock(k: Schedule, inp: array<bv8>, off: nat, out: array<bv8>)
    requires k.Valid() && off + 16 <= inp.Length && out.Length == 16
    modifies out
    ensures out[..] == Encrypt(k, old(inp[off..off + 16]))
  {
    hide SubBytes, ShiftRows, MixColumns, AddRoundKey;
    var state := new bv8[16];
    Copy16(inp, off, state);
    AddRk(state, k.words, 0);
    for round := 1 to k.rounds + 1
      invariant state[..] == EncState(k, old(inp[off..off + 16]), round - 1)
    {
      SubBytesInPlace(state);
      ShiftRowsInPlace(state);
      if round < k.rounds {
        MixColumnsInPlace(state);
      }
      AddRk(state, k.words, round * 4);
    }
    Copy16(state, 0, out);
  }

  method DecryptBlock(k: Schedule, inp: array<bv8>, off: nat, out: array<bv8>)
    requires k.Valid() && off + 16 <= inp.Length && out.Length == 16
    modifies out
    ensures out[..] == Decrypt(k, old(inp[off..off + 16]))
  {
    hide InvSubBytes, InvShiftRows, InvMixColumns, AddRoundKey;
    var state := new bv8[16];
    Copy16(inp, off, state);
    AddRk(state, k.words, k.rounds * 4);
    var round := k.rounds - 1;
    while round >= 0
      invariant -1 <= round < k.rounds
      invariant state[..] == DecState(k, old(inp[off..off + 16]), round + 1)
    {
      InvShiftRowsInPlace(state);
      InvSubBytesInPlace(state);
      AddRk(state, k.words, round * 4);
      if round > 0 {
        InvMixColumnsInPlace(state);
      }
      round := round - 1;
    }
    Copy16(state, 0, out);
  }

  method Copy16(from: array<bv8>, off: nat, to: array<bv8>)
    requires off + 16 <= from.Length && to.Length == 16 && from != to
    modifies to
    ensures to[..] == from[off..off + 16]
  {
    for i := 0 to 16
      invariant forall j :: 0 <= j < i ==> to[j] == from[off + j]
    {
      to[i] := from[off + i];
    }
  }

  // ---- Key expansion (section 5.2 of FIPS 197) ----

  function BytesToWord(b: seq<bv8>): bv32
    requires |b| == 4
  {
    ((b[0] as bv32) << 24) | ((b[1] as bv32) << 16) | ((b[2] as bv32) << 8) | (b[3] as bv32)
  }

  function SubWord(w: bv32): bv32 {
    BytesToWord([SBox(WordByte(w, 0)), SBox(WordByte(w, 1)), SBox(WordByte(w, 2)), SBox(WordByte(w, 3))])
  }

  function RotWord(w: bv32): bv32 {
    (w << 8) | (w >> 24)
  }

  function XorWord(a: bv32, b: bv32): bv32 {
    a ^ b
  }

  function RoundConstant(i: nat): bv32
    requires i <= 10
  {
    match i
    case 0 => 0x00000000 case 1 => 0x01000000 case 2 => 0x02000000 case 3 => 0x04000000
    case 4 => 0x08000000 case 5 => 0x10000000 case 6 => 0x20000000 case 7 => 0x40000000
    case 8 => 0x80000000 case 9 => 0x1b000000 case _ => 0x36000000
  }

  // The number of rounds for a key of nk words.
  function RoundsFor(nk: nat): nat {
    if nk == 4 then 10 else 14
  }

  // The key lengths, in words, for which the expansion stays inside its tables.
  predicate ExpandableKey(nk: nat) {
    nk == 4 || 6 <= nk <= 60
  }

  lemma ConstantsSuffice(nk: nat, i: nat)
    requires ExpandableKey(nk) && i < 4 * (RoundsFor(nk) + 1)
    ensures i / nk <= 10
  {
    DivBelow(i, nk, 11);
  }

  // Word i of the expanded key.
  function KeyWord(key: seq<bv8>, nk: nat, i: nat): bv32
    requires ExpandableKey(nk) && 4 * nk <= |key| && i < 4 * (RoundsFor(nk) + 1)
  {
    if i < nk then BytesToWord(key[4 * i..4 * i + 4])
    else
      var t := KeyWord(key, nk, i - 1);
      ConstantsSuffice(nk, i);
      var u := if i % nk == 0 then XorWord(SubWord(RotWord(t)), RoundConstant(i / nk))
               else if nk > 6 && i % nk == 4 then SubWord(t)
               else t;
      XorWord(KeyWord(key, nk, i - nk), u)
  }

  method InitEnc(key: array<bv8>, keyOff: nat, keyLen: nat) returns (k: Schedule)
    requires ExpandableKey(keyLen / 4) && keyOff + keyLen <= key.Length
    ensures k.Valid() && k == Expanded(key[keyOff..keyOff + keyLen])
  {
    hide KeyWord;
    ghost var bytes := key[keyOff..keyOff + keyLen];
    var nk := keyLen / 4;
    var rounds := if nk == 4 then 10 else 14;
    var tot := (rounds + 1) * 4;
    var rk := new bv32[60];
    CopyKey(key, keyOff, keyLen, nk, rk);
    for i := nk to tot
      invariant forall j :: 0 <= j < i ==> rk[j] == KeyWord(bytes, nk, j)
    {
      ExpandWord(bytes, nk, i, rk);
    }
    k := Schedule(rk[..tot], rounds);
  }

  // The first words are those of the key.
  method CopyKey(key: array<bv8>, keyOff: nat, keyLen: nat, nk: nat, rk: array<bv32>)
    requires nk == keyLen / 4 && ExpandableKey(nk) && keyOff + keyLen <= key.Length && rk.Length == 60
    modifies rk
    ensures forall j :: 0 <= j < nk ==> rk[j] == KeyWord(key[keyOff..keyOff + keyLen], nk, j)
  {
    hide BytesToWord;
    for i := 0 to nk
      invariant forall j :: 0 <= j < i ==> rk[j] == KeyWord(key[keyOff..keyOff + keyLen], nk, j)
    {
      SliceOfSlice(key[..], keyOff, keyOff + keyLen, 4 * i, 4 * i + 4);
      rk[i] := BytesToWord(key[..][keyOff + 4 * i..keyOff + 4 * i + 4]);
    }
  }

  // Each further word is made from the one before it and the one nk before it.
  method ExpandWord(ghost bytes: seq<bv8>, nk: nat, i: nat, rk: array<bv32>)
    requires ExpandableKey(nk) && 4 * nk <= |bytes| && nk <= i < 4 * (RoundsFor(nk) + 1) && rk.Length == 60
    requires forall j :: 0 <= j < i ==> rk[j] == KeyWord(bytes, nk, j)
    modifies rk
    ensures forall j :: 0 <= j <= i ==> rk[j] == KeyWord(bytes, nk, j)
  {
    hide SubWord, RotWord, XorWord, RoundConstant, BytesToWord;
    ConstantsSuffice(nk, i);
    var t := rk[i - 1];
    if i % nk == 0 {
      t := XorWord(SubWord(RotWord(t)), RoundConstant(i / nk));
    } else if nk > 6 && i % nk == 4 {
      t := SubWord(t);
    }
    rk[i] := XorWord(rk[i - nk], t);
  }

  // The schedule that a key expands to.
  ghost function Expanded(key: seq<bv8>): Schedule
    requires ExpandableKey(|key| / 4)
  {
    var nk := |key| / 4;
    Schedule(seq(4 * (RoundsFor(nk) + 1), i requires 0 <= i < 4 * (RoundsFor(nk) + 1) => KeyWord(key, nk, i)), RoundsFor(nk))
  }

  /** The standard asks for nk + 6 rounds. The code does that exactly for 128-bit and 256-bit keys:
      a 192-bit key is given two rounds too many. */
  lemma RoundsAreStandard(nk: nat)
    ensures RoundsFor(nk) == nk + 6 <==> nk == 4 || nk == 8
  {
  }
}
