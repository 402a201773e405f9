/** The base64 decoder of the header parser: characters outside the alphabet are skipped, and bits are
    collected in an accumulator that overflows harmlessly. The encoding is section 4 of RFC 4648. */
module Base64 {
  import opened Bytes

  function B64Val(c: char): (v: int)
    ensures -1 <= v < 64
  {
    if 'A' <= c <= 'Z' then c as int - 'A' as int
    else if 'a' <= c <= 'z' then c as int - 'a' as int + 26
    else if '0' <= c <= '9' then c as int - '0' as int + 52
    else if c == '+' then 62
    else if c == '/' then 63
    else -1
  }

  // The character for a six-bit value.
  function Symbol(v: nat): char
    requires v < 64
  {
    if v < 26 then ('A' as int + v) as char
    else if v < 52 then ('a' as int + v - 26) as char
    else if v < 62 then ('0' as int + v - 52) as char
    else if v == 62 then '+' else '/'
  }

  lemma SymbolValue(v: nat)
    requires v < 64
    ensures B64Val(Symbol(v)) == v
  {
  }

  // The characters of a text that are in the alphabet.
  function Alphabetic(text: string): string {
    if text == "" then ""
    else if B64Val(text[0]) < 0 then Alphabetic(text[1..])
    else [text[0]] + Alphabetic(text[1..])
  }

  function Sextets(text: string): (r: seq<bv8>)
    decreases |text|
  {
    if text == "" then []
    else
      var n := |text| - 1;
      var v := B64Val(text[n]);
      if v < 0 then Sextets(text[..n]) else Sextets(text[..n]) + [v as bv8]
  }

  // ---- Decoding as a function on six-bit values ----

  function TopSix(a: bv8, b: bv8): bv8 { (a << 2) | (b >> 4) }
  function MiddleFour(a: bv8, b: bv8): bv8 { (a << 4) | (b >> 2) }
  function LowTwo(a: bv8, b: bv8): bv8 { (a << 6) | b }

  // Byte j of the bits of the values written one after another.
  function OutByte(v: seq<bv8>, j: nat): bv8
    requires j < |v| * 6 / 8
  {
    var g := j / 3 * 4;
    match j % 3
    case 0 => TopSix(v[g], v[g + 1])
    case 1 => MiddleFour(v[g + 1], v[g + 2])
    case _ => LowTwo(v[g + 2], v[g + 3])
  }

  function Decoded(v: seq<bv8>): (r: seq<bv8>)
    ensures |r| == |v| * 6 / 8
  {
    seq(|v| * 6 / 8, j requires 0 <= j < |v| * 6 / 8 => OutByte(v, j))
  }

  // ---- Encoding ----

  function ByteOr0(b: seq<bv8>, i: nat): bv8 {
    if i < |b| then b[i] else 0
  }

  function FirstSextet(a: bv8): bv8 { a >> 2 }
  function SecondSextet(a: bv8, b: bv8): bv8 { ((a & 3) << 4) | (b >> 4) }
  function ThirdSextet(b: bv8, c: bv8): bv8 { ((b & 15) << 2) | (c >> 6) }
  function FourthSextet(c: bv8): bv8 { c & 63 }

  // Value i of the encoding: the bits of the bytes, six at a time, with zeros after the end.
  function EncSextet(b: seq<bv8>, i: nat): bv8 {
    var g := i / 4 * 3;
    match i % 4
    case 0 => FirstSextet(ByteOr0(b, g))
    case 1 => SecondSextet(ByteOr0(b, g), ByteOr0(b, g + 1))
    case 2 => ThirdSextet(ByteOr0(b, g + 1), ByteOr0(b, g + 2))
    case _ => FourthSextet(ByteOr0(b, g + 2))
  }

  lemma EncSextetSmall(b: seq<bv8>, i: nat)
    ensures EncSextet(b, i) < 64
  {
  }

  function EncCount(n: nat): nat {
    (8 * n + 5) / 6
  }

  // The first n characters of the encoding, without the padding at the end.
  function EncodedChars(b: seq<bv8>, n: nat): (r: string)
    ensures |r| == n
    decreases n
  {
    if n == 0 then ""
    else
      EncSextetSmall(b, n - 1);
      EncodedChars(b, n - 1) + [Symbol(EncSextet(b, n - 1) as nat)]
  }

  function PadChars(n: nat): string {
    if n % 3 == 0 then "" else if n % 3 == 1 then "==" else "="
  }

  function Encoded(b: seq<bv8>): string {
    EncodedChars(b, EncCount(|b|)) + PadChars(|b|)
  }

  // ---- Decoding undoes encoding ----

  lemma BytesRestored(a: bv8, b: bv8, c: bv8)
    ensures TopSix(FirstSextet(a), SecondSextet(a, b)) == a
    ensures MiddleFour(SecondSextet(a, b), ThirdSextet(b, c)) == b
    ensures LowTwo(ThirdSextet(b, c), FourthSextet(c)) == c
  {
  }

  function EncSextets(b: seq<bv8>, n: nat): (r: seq<bv8>)
    ensures |r| == n
  {
    seq(n, i requires 0 <= i < n => EncSextet(b, i))
  }

  lemma CountMatches(n: nat)
    ensures EncCount(n) * 6 / 8 == n
  {
    var q, r := n / 3, n % 3;
    DivModUnique(8 * n + 5, 6, 4 * q + (if r == 0 then 0 else r + 1), if r == 0 then 5 else if r == 1 then 1 else 3);
  }

  lemma DecodeUndoesEncode(b: seq<bv8>)
    ensures Decoded(EncSextets(b, EncCount(|b|))) == b
  {
    hide OutByte, EncSextet;
    var v := EncSextets(b, EncCount(|b|));
    CountMatches(|b|);
    forall j | 0 <= j < |b| ensures OutByte(v, j) == b[j] {
      ByteRestored(b, v, j / 3, j);
    }
  }

  lemma ByteRestored(b: seq<bv8>, v: seq<bv8>, q: nat, j: nat)
    requires v == EncSextets(b, EncCount(|b|)) && j < |b| && q == j / 3 && |v| * 6 / 8 == |b|
    ensures OutByte(v, j) == b[j]
  {
    hide TopSix, MiddleFour, LowTwo, FirstSextet, SecondSextet, ThirdSextet, FourthSextet, EncSextet;
    BytesRestored(ByteOr0(b, 3 * q), ByteOr0(b, 3 * q + 1), ByteOr0(b, 3 * q + 2));
    GroupOf(b, q);
    Divided(j, 3);
    var g := 4 * q;
    match j % 3 {
      case 0 => assert OutByte(v, j) == TopSix(EncSextet(b, g), EncSextet(b, g + 1));
      case 1 => assert OutByte(v, j) == MiddleFour(EncSextet(b, g + 1), EncSextet(b, g + 2));
      case _ => assert OutByte(v, j) == LowTwo(EncSextet(b, g + 2), EncSextet(b, g + 3));
    }
  }

  // The four values of group q.
  lemma GroupOf(b: seq<bv8>, q: nat)
    ensures EncSextet(b, 4 * q) == FirstSextet(ByteOr0(b, 3 * q))
    ensures EncSextet(b, 4 * q + 1) == SecondSextet(ByteOr0(b, 3 * q), ByteOr0(b, 3 * q + 1))
    ensures EncSextet(b, 4 * q + 2) == ThirdSextet(ByteOr0(b, 3 * q + 1), ByteOr0(b, 3 * q + 2))
    ensures EncSextet(b, 4 * q + 3) == FourthSextet(ByteOr0(b, 3 * q + 2))
  {
    hide FirstSextet, SecondSextet, ThirdSextet, FourthSextet, ByteOr0;
    DivModUnique(4 * q, 4, q, 0);
    DivModUnique(4 * q + 1, 4, q, 1);
    DivModUnique(4 * q + 2, 4, q, 2);
    DivModUnique(4 * q + 3, 4, q, 3);
  }

  lemma {:induction false} SextetsOfEncoded(b: seq<bv8>, n: nat)
    ensures Sextets(EncodedChars(b, n)) == EncSextets(b, n)
    decreases n
  {
    hide EncSextet, Symbol, B64Val, EncSextets;
    if n == 0 {
      NoSextets(b);
    } else {
      SextetsOfEncoded(b, n - 1);
      EncSextetSmall(b, n - 1);
      var v := EncSextet(b, n - 1);
      SymbolValue(v as nat);
      ByteBack(v);
      assert EncodedChars(b, n)[..n - 1] == EncodedChars(b, n - 1);
      OneMoreSextet(b, n);
    }
  }

  lemma NoSextets(b: seq<bv8>)
    ensures EncSextets(b, 0) == []
  {
  }

  lemma OneMoreSextet(b: seq<bv8>, n: nat)
    requires n > 0
    ensures EncSextets(b, n) == EncSextets(b, n - 1) + [EncSextet(b, n - 1)]
  {
    hide EncSextet;
  }

  // Characters outside the alphabet do not contribute.
  lemma {:induction false} SextetsOfAlphabetic(text: string)
    ensures Sextets(text) == Sextets(Alphabetic(text))
    decreases |text|
  {
    if text != "" {
      SextetsOfAlphabetic(text[1..]);
      SextetsJoin([text[0]], text[1..]);
      assert [text[0]] + text[1..] == text;
      SextetsJoin([text[0]], Alphabetic(text[1..]));
      assert Sextets([text[0]]) == if B64Val(text[0]) < 0 then [] else [B64Val(text[0]) as bv8] by {
        assert [text[0]][..0] == "";
      }
    }
  }

  lemma {:induction false} SextetsJoin(a: string, b: string)
    ensures Sextets(a + b) == Sextets(a) + Sextets(b)
    decreases |b|
  {
    hide B64Val;
    if b == "" {
      assert a + b == a;
    } else {
      var n := |b| - 1;
      SextetsJoin(a, b[..n]);
      assert (a + b)[..|a + b| - 1] == a + b[..n];
    }
  }

  /** Any text whose alphabetic characters are those of the encoding of a byte string decodes to that
      string: padding, line breaks and other characters may stand anywhere in it. */
  lemma DecodesAnyLayout(text: string, b: seq<bv8>)
    requires Alphabetic(text) == EncodedChars(b, EncCount(|b|))
    ensures Decoded(Sextets(text)) == b
  {
    hide Decoded, EncodedChars, EncSextets, Sextets;
    SextetsOfAlphabetic(text);
    SextetsOfEncoded(b, EncCount(|b|));
    DecodeUndoesEncode(b);
  }

  /** In particular the padded encoding does. */
  lemma DecodesPadded(b: seq<bv8>)
    ensures Decoded(Sextets(Encoded(b))) == b
  {
    hide EncodedChars, Decoded, EncSextets, Sextets, EncCount;
    var body := EncodedChars(b, EncCount(|b|));
    SextetsJoin(body, PadChars(|b|));
    assert Sextets(body) + [] == Sextets(body);
    PaddingIsSkipped();
    SextetsOfEncoded(b, EncCount(|b|));
    DecodeUndoesEncode(b);
  }

  lemma PaddingIsSkipped()
    ensures Sextets("") == [] && Sextets("=") == [] && Sextets("==") == []
  {
    assert "" + ['='] == "=" && "=" + ['='] == "==";
    SextetsSkip("", '=');
    SextetsSkip("=", '=');
  }

  lemma SextetsSkip(text: string, c: char)
    requires B64Val(c) < 0
    ensures Sextets(text + [c]) == Sextets(text)
  {
    assert (text + [c])[..|text|] == text;
  }

  // ---- The code ----

  // The accumulator's last two values are right, whatever has been shifted out above them.
  ghost predicate Holds(acc: bv32, v: seq<bv8>) {
    && (|v| >= 1 ==> acc & 0x3f == Wide(v[|v| - 1]))
    && (|v| >= 2 ==> (acc >> 6) & 0x3f == Wide(v[|v| - 2]))
  }

  function Wide(b: bv8): bv32 {
    b as bv32
  }

  function Pushed(acc: bv32, v: bv8): bv32 {
    (acc << 6) | Wide(v)
  }

  function Low8(acc: bv32): bv8 {
    (acc & 0xff) as bv8
  }

  // The byte above the lowest bits of the accumulator, of which 0, 2 or 4 wait.
  function ByteAbove(acc: bv32, bits: nat): bv8 {
    if bits == 0 then Low8(acc) else if bits == 2 then Low8(acc >> 2) else Low8(acc >> 4)
  }

  // The number of bits waiting after n values.
  function Waiting(n: nat): nat {
    match n % 4 case 0 => 0 case 1 => 6 case 2 => 4 case _ => 2
  }

  lemma PushKeeps(acc: bv32, last: bv8, v: bv8)
    requires v < 64 && last < 64 && acc & 0x3f == Wide(last)
    ensures Pushed(acc, v) & 0x3f == Wide(v) && (Pushed(acc, v) >> 6) & 0x3f == Wide(last)
    ensures Low8(Pushed(acc, v) >> 4) == TopSix(last, v)
    ensures Low8(Pushed(acc, v) >> 2) == MiddleFour(last, v)
    ensures Low8(Pushed(acc, v)) == LowTwo(last, v)
  {
  }

  lemma FirstPush(acc: bv32, v: bv8)
    requires v < 64
    ensures Pushed(acc, v) & 0x3f == Wide(v)
  {
  }

  lemma {:induction false} SextetsSmall(text: string)
    ensures forall i :: 0 <= i < |Sextets(text)| ==> Sextets(text)[i] < 64
    decreases |text|
  {
    if text != "" {
      SextetsSmall(text[..|text| - 1]);
    }
  }

  method Decode(src: string, dst: array<bv8>) returns (n: nat)
    requires |Sextets(src)| * 6 / 8 <= dst.Length
    modifies dst
    ensures n == |Decoded(Sextets(src))| && dst[..n] == Decoded(Sextets(src))
    ensures dst[n..] == old(dst[n..])
  {
    hide OutByte, B64Val;
    var acc: bv32, bits := 0, 0;
    n := 0;
    assert src[..0] == "";
    for i := 0 to |src|
      invariant Holds(acc, Sextets(src[..i]))
      invariant bits == Waiting(|Sextets(src[..i])|) && n == |Sextets(src[..i])| * 6 / 8
      invariant n <= dst.Length && dst[n..] == old(dst[n..])
      invariant forall j :: 0 <= j < n ==> dst[j] == OutByte(Sextets(src[..i]), j)
    {
      SextetsExtend(src, i);
      SextetsSmall(src[..i]);
      var value := B64Val(src[i]);
      if value >= 0 {
        SmallByte(value);
        acc, bits, n := PushInto(acc, bits, n, dst, value as bv8, Sextets(src[..i]));
      }
    }
    assert src[..|src|] == src;
  }

  // Adds one value to the accumulator and, once eight bits wait, takes a byte out.
  method PushInto(acc: bv32, bits: nat, n: nat, dst: array<bv8>, x: bv8, ghost v: seq<bv8>)
    returns (acc': bv32, bits': nat, n': nat)
    requires Holds(acc, v) && bits == Waiting(|v|) && n == |v| * 6 / 8 && (|v| + 1) * 6 / 8 <= dst.Length
    requires x < 64 && (forall i :: 0 <= i < |v| ==> v[i] < 64)
    requires forall j :: 0 <= j < n ==> dst[j] == OutByte(v, j)
    modifies dst
    ensures Holds(acc', v + [x]) && bits' == Waiting(|v + [x]|) && n' == |v + [x]| * 6 / 8
    ensures forall j :: 0 <= j < n' ==> dst[j] == OutByte(v + [x], j)
    ensures dst[n'..] == old(dst[n'..])
  {
    hide OutByte, Pushed, ByteAbove, Holds, Waiting;
    PushValue(acc, v, x);
    Completes(acc, v, x);
    OutBytesKeep(v, x);
    acc', bits', n' := Pushed(acc, x), bits + 6, n;
    if bits' >= 8 {
      bits' := bits' - 8;
      var b := ByteAbove(acc', bits');
      assert b == OutByte(v + [x], n');
      dst[n'] := b;
      n' := n' + 1;
    }
  }

  lemma SextetsExtend(src: string, i: nat)
    requires i < |src|
    ensures Sextets(src[..i + 1]) ==
            if B64Val(src[i]) < 0 then Sextets(src[..i]) else Sextets(src[..i]) + [B64Val(src[i]) as bv8]
    ensures |Sextets(src[..i + 1])| <= |Sextets(src)|
  {
    assert src[..i + 1][..i] == src[..i];
    SextetsJoin(src[..i + 1], src[i + 1..]);
    assert src[..i + 1] + src[i + 1..] == src;
  }

  // Earlier output does not change when a value is added.
  lemma OutBytesKeep(v: seq<bv8>, x: bv8)
    ensures forall j :: 0 <= j < |v| * 6 / 8 ==> OutByte(v + [x], j) == OutByte(v, j)
  {
    forall j | 0 <= j < |v| * 6 / 8 ensures OutByte(v + [x], j) == OutByte(v, j) {
      Divided(j, 3);
    }
  }

  // Adding a value keeps the accumulator right.
  lemma PushValue(acc: bv32, v: seq<bv8>, x: bv8)
    requires Holds(acc, v) && x < 64 && forall i :: 0 <= i < |v| ==> v[i] < 64
    ensures Holds(Pushed(acc, x), v + [x])
  {
    hide Pushed, Low8, Wide, TopSix, MiddleFour, LowTwo;
    if v == [] {
      FirstPush(acc, x);
    } else {
      PushKeeps(acc, v[|v| - 1], x);
    }
  }

  // A value completes a byte once two bits wait.
  lemma Completes(acc: bv32, v: seq<bv8>, x: bv8)
    requires Holds(acc, v) && x < 64 && forall i :: 0 <= i < |v| ==> v[i] < 64
    ensures
      var k := |v| + 1;
      if Waiting(|v|) + 6 < 8 then Waiting(k) == Waiting(|v|) + 6 && k * 6 / 8 == |v| * 6 / 8
      else
        && Waiting(k) + 8 == Waiting(|v|) + 6 && k * 6 / 8 == |v| * 6 / 8 + 1
        && OutByte(v + [x], |v| * 6 / 8) == ByteAbove(Pushed(acc, x), Waiting(k))
  {
    hide Pushed, Low8, Wide, TopSix, MiddleFour, LowTwo, OutByte;
    ByteCompleted(|v|);
    if v != [] {
      PushKeeps(acc, v[|v| - 1], x);
      ByteMade(v, x);
    }
  }

  // The byte a value completes is made from it and the value before.
  lemma ByteMade(v: seq<bv8>, x: bv8)
    requires v != []
    ensures
      var k, last := |v| + 1, v[|v| - 1];
      && (k % 4 != 1 ==> |v| * 6 / 8 < k * 6 / 8)
      && (k % 4 == 2 ==> OutByte(v + [x], |v| * 6 / 8) == TopSix(last, x))
      && (k % 4 == 3 ==> OutByte(v + [x], |v| * 6 / 8) == MiddleFour(last, x))
      && (k % 4 == 0 ==> OutByte(v + [x], |v| * 6 / 8) == LowTwo(last, x))
  {
    hide TopSix, MiddleFour, LowTwo;
    ByteCompleted(|v|);
  }

  // Which byte a value completes.
  lemma ByteCompleted(n: nat)
    ensures
      var q, k := n / 4, n + 1;
      && (k % 4 == 1 ==> k * 6 / 8 == n * 6 / 8 && Waiting(k) == Waiting(n) + 6)
      && (k % 4 != 1 ==> k * 6 / 8 == n * 6 / 8 + 1 && Waiting(k) + 8 == Waiting(n) + 6)
      && (k % 4 == 2 ==> n * 6 / 8 == 3 * q && n == 4 * q + 1)
      && (k % 4 == 3 ==> n * 6 / 8 == 3 * q + 1 && n == 4 * q + 2)
      && (k % 4 == 0 ==> n * 6 / 8 == 3 * q + 2 && n == 4 * q + 3)
  {
    var q, r := n / 4, n % 4;
    Divided(n, 4);
    match r {
      case 0 => DivModUnique(6 * n, 8, 3 * q, 0); DivModUnique(6 * n + 6, 8, 3 * q, 6); DivModUnique(n + 1, 4, q, 1);
      case 1 => DivModUnique(6 * n, 8, 3 * q, 6); DivModUnique(6 * n + 6, 8, 3 * q + 1, 4); DivModUnique(n + 1, 4, q, 2);
      case 2 => DivModUnique(6 * n, 8, 3 * q + 1, 4); DivModUnique(6 * n + 6, 8, 3 * q + 2, 2); DivModUnique(n + 1, 4, q, 3);
      case _ => DivModUnique(6 * n, 8, 3 * q + 2, 2); DivModUnique(6 * n + 6, 8, 3 * q + 3, 0); DivModUnique(n + 1, 4, q + 1, 0);
    }
  }

  lemma SmallByte(value: int)
    requires 0 <= value < 64
    ensures value as bv8 < 64
  {
  }
}
