/** The anti-forensic merge of LUKS key material: the key is recovered by diffusing and folding a row
    of stripes. The digest is a parameter; a digest shorter than the key replaces only its front. */
module AntiForensic {
  import opened Bytes

  type Diffuser = seq<bv8> -> seq<bv8>

  // Where stripe s begins.
  function Start(s: nat, keyBytes: nat): nat {
    s * keyBytes
  }

  lemma NextStart(s: nat, keyBytes: nat)
    ensures Start(s + 1, keyBytes) == Start(s, keyBytes) + keyBytes
  {
  }

  lemma StartZero(keyBytes: nat)
    ensures Start(0, keyBytes) == 0
  {
  }

  lemma StartsOrdered(s: nat, t: nat, keyBytes: nat)
    requires s <= t
    ensures Start(s, keyBytes) <= Start(t, keyBytes)
  {
    MulMonotone(keyBytes, s, t);
  }

  function Stripe(split: seq<bv8>, keyBytes: nat, s: nat): (r: seq<bv8>)
    requires Start(s + 1, keyBytes) <= |split|
    ensures |r| == keyBytes
  {
    NextStart(s, keyBytes);
    split[Start(s, keyBytes)..Start(s + 1, keyBytes)]
  }

  // The running value after it has been hashed with the stripe number.
  function Diffused(h: Diffuser, d: seq<bv8>, sector: nat): (r: seq<bv8>)
    ensures |r| == |d|
  {
    var digest := h(d + BigEndian(sector, 4));
    if |digest| <= |d| then digest + d[|digest|..] else digest[..|d|]
  }

  // The running value after the first n stripes.
  function Folded(h: Diffuser, split: seq<bv8>, keyBytes: nat, n: nat): (r: seq<bv8>)
    requires Start(n, keyBytes) <= |split|
    ensures |r| == keyBytes
    decreases n
  {
    if n == 0 then seq(keyBytes, _ => 0)
    else
      NextStart(n - 1, keyBytes);
      Diffused(h, XorSeq(Folded(h, split, keyBytes, n - 1), Stripe(split, keyBytes, n - 1)), n - 1)
  }

  function Merged(h: Diffuser, split: seq<bv8>, stripes: nat, keyBytes: nat): (r: seq<bv8>)
    requires stripes >= 1 && Start(stripes, keyBytes) <= |split|
    ensures |r| == keyBytes
  {
    NextStart(stripes - 1, keyBytes);
    XorSeq(Folded(h, split, keyBytes, stripes - 1), Stripe(split, keyBytes, stripes - 1))
  }

  // The split: arbitrary stripes, and a last one chosen so that the fold gives the key.
  function Split(h: Diffuser, key: seq<bv8>, random: seq<bv8>, stripes: nat): (r: seq<bv8>)
    requires stripes >= 1 && |random| == Start(stripes - 1, |key|)
    ensures |r| == Start(stripes, |key|)
  {
    NextStart(stripes - 1, |key|);
    random + XorSeq(Folded(h, random, |key|, stripes - 1), key)
  }

  lemma {:induction false} FoldedLocal(h: Diffuser, a: seq<bv8>, b: seq<bv8>, keyBytes: nat, n: nat)
    requires Start(n, keyBytes) <= |a|
    ensures Folded(h, a + b, keyBytes, n) == Folded(h, a, keyBytes, n)
    decreases n
  {
    hide Start, Diffused;
    if n > 0 {
      NextStart(n - 1, keyBytes);
      FoldedLocal(h, a, b, keyBytes, n - 1);
      assert Stripe(a + b, keyBytes, n - 1) == Stripe(a, keyBytes, n - 1);
    }
  }

  /** Merging the split of a key gives the key, whatever the random stripes and the digest ... */
  lemma MergeUndoesSplit(h: Diffuser, key: seq<bv8>, random: seq<bv8>, stripes: nat)
    requires stripes >= 1 && |random| == Start(stripes - 1, |key|)
    ensures Merged(h, Split(h, key, random, stripes), stripes, |key|) == key
  {
    hide Start, Diffused, Xor;
    var k := |key|;
    NextStart(stripes - 1, k);
    var d := Folded(h, random, k, stripes - 1);
    var last := XorSeq(d, key);
    FoldedLocal(h, random, last, k, stripes - 1);
    assert Stripe(random + last, k, stripes - 1) == last;
    XorSeqCancelsLeft(d, key);
  }

  /** ... and no other last stripe does: with the others fixed, merging is a bijection. */
  lemma LastStripeDetermined(h: Diffuser, random: seq<bv8>, last: seq<bv8>, stripes: nat)
    requires stripes >= 1 && |random| == Start(stripes - 1, |last|)
    ensures |random + last| == Start(stripes, |last|)
    ensures Split(h, Merged(h, random + last, stripes, |last|), random, stripes) == random + last
  {
    hide Start, Diffused, Xor;
    var k := |last|;
    NextStart(stripes - 1, k);
    FoldedLocal(h, random, last, k, stripes - 1);
    assert Stripe(random + last, k, stripes - 1) == last;
    XorSeqCancelsLeft(Folded(h, random, k, stripes - 1), last);
  }

  lemma XorSeqCancelsLeft(d: seq<bv8>, key: seq<bv8>)
    requires |d| == |key|
    ensures XorSeq(d, XorSeq(d, key)) == key
  {
    hide Xor;
    forall i | 0 <= i < |d| ensures XorSeq(d, XorSeq(d, key))[i] == key[i] {
      XorCommutes(d[i], key[i]);
      XorCommutes(d[i], Xor(key[i], d[i]));
      XorCancels(key[i], d[i]);
    }
  }

  // ---- The code ----

  method AfXor(d: array<bv8>, split: seq<bv8>, off: nat, len: nat)
    requires len <= d.Length && off + len <= |split|
    modifies d
    ensures d[..len] == XorSeq(old(d[..len]), split[off..off + len])
  {
    hide Xor;
    for i := 0 to len
      invariant forall j :: 0 <= j < i ==> d[j] == Xor(old(d[j]), split[off + j])
      invariant forall j :: i <= j < d.Length ==> d[j] == old(d[j])
    {
      d[i] := Xor(d[i], split[off + i]);
    }
  }

  // Hashes the running value into itself; the bytes after the key may be overwritten too.
  method AfHashSector(h: Diffuser, sector: nat, keyBytes: nat, d: array<bv8>)
    requires d.Length == 64 && keyBytes <= 64 && forall m: seq<bv8> :: |h(m)| <= 64
    modifies d
    ensures d[..keyBytes] == Diffused(h, old(d[..keyBytes]), sector)
  {
    var tmp := d[..keyBytes] + BigEndian(sector, 4);
    var digest := h(tmp);
    for i := 0 to |digest|
      invariant d[..i] == digest[..i] && d[i..] == old(d[i..])
    {
      d[i] := digest[i];
    }
    if |digest| <= keyBytes {
      assert d[..keyBytes] == digest + old(d[..keyBytes])[|digest|..];
    } else {
      assert d[..keyBytes] == digest[..keyBytes];
    }
  }

  // The stripes but the last, folded into the scratch buffer.
  method FoldStripes(h: Diffuser, split: seq<bv8>, stripes: nat, keyBytes: nat) returns (d: array<bv8>)
    requires stripes >= 1 && keyBytes <= 64 && Start(stripes, keyBytes) <= |split| && forall m: seq<bv8> :: |h(m)| <= 64
    ensures fresh(d) && d.Length == 64
    ensures Start(stripes - 1, keyBytes) + keyBytes == Start(stripes, keyBytes)
    ensures d[..keyBytes] == Folded(h, split, keyBytes, stripes - 1)
  {
    hide Start, Diffused, XorSeq;
    d := new bv8[64](_ => 0);
    StartsOrdered(0, stripes, keyBytes);
    StartZero(keyBytes);
    assert d[..keyBytes] == Folded(h, split, keyBytes, 0);
    NextStart(stripes - 1, keyBytes);
    for s := 0 to stripes - 1
      invariant Start(s, keyBytes) <= |split| && d.Length == 64
      invariant d[..keyBytes] == Folded(h, split, keyBytes, s)
    {
      StartsOrdered(s + 1, stripes, keyBytes);
      NextStart(s, keyBytes);
      AfXor(d, split, Start(s, keyBytes), keyBytes);
      AfHashSector(h, s, keyBytes, d);
    }
  }

  /** The merge of the first on-disk format, which folds the last stripe into the scratch buffer ... */
  method AfMerge(h: Diffuser, split: seq<bv8>, stripes: nat, keyBytes: nat, mk: array<bv8>)
    requires stripes >= 1 && keyBytes <= 64 && Start(stripes, keyBytes) <= |split| && keyBytes <= mk.Length
    requires forall m: seq<bv8> :: |h(m)| <= 64
    modifies mk
    ensures mk[..keyBytes] == Merged(h, split, stripes, keyBytes) && mk[keyBytes..] == old(mk[keyBytes..])
  {
    hide Start, Folded, XorSeq;
    assert mk[..0] == [];
    var d := FoldStripes(h, split, stripes, keyBytes);
    AfXor(d, split, Start(stripes - 1, keyBytes), keyBytes);
    for i := 0 to keyBytes
      invariant mk[..i] == d[..i] && mk[keyBytes..] == old(mk[keyBytes..])
      invariant d[..keyBytes] == Merged(h, split, stripes, keyBytes)
    {
      mk[i] := d[i];
    }
  }

  /** ... and of the second, which works on the stripes byte by byte and combines the last one on the
      way out: the same function. */
  method Af2Merge(h: Diffuser, split: seq<bv8>, stripes: nat, keyBytes: nat, mk: array<bv8>)
    requires stripes >= 1 && keyBytes <= 64 && Start(stripes, keyBytes) <= |split| && keyBytes <= mk.Length
    requires forall m: seq<bv8> :: |h(m)| <= 64
    modifies mk
    ensures mk[..keyBytes] == Merged(h, split, stripes, keyBytes) && mk[keyBytes..] == old(mk[keyBytes..])
  {
    hide Start, Folded, Xor;
    var d := Af2Fold(h, split, stripes, keyBytes);
    for i := 0 to keyBytes
      invariant d[..keyBytes] == Folded(h, split, keyBytes, stripes - 1)
      invariant forall j :: 0 <= j < i ==> mk[j] == Xor(d[j], split[Start(stripes - 1, keyBytes) + j])
      invariant mk[keyBytes..] == old(mk[keyBytes..])
    {
      mk[i] := Xor(d[i], split[Start(stripes - 1, keyBytes) + i]);
    }
  }

  // The stripes but the last. Hashing is the same text in both formats.
  method Af2Fold(h: Diffuser, split: seq<bv8>, stripes: nat, keyBytes: nat) returns (d: array<bv8>)
    requires stripes >= 1 && keyBytes <= 64 && Start(stripes, keyBytes) <= |split| && forall m: seq<bv8> :: |h(m)| <= 64
    ensures fresh(d) && d.Length == 64
    ensures Start(stripes - 1, keyBytes) + keyBytes == Start(stripes, keyBytes)
    ensures d[..keyBytes] == Folded(h, split, keyBytes, stripes - 1)
  {
    hide Start, Diffused, Xor;
    d := new bv8[64](_ => 0);
    StartsOrdered(0, stripes, keyBytes);
    StartZero(keyBytes);
    assert d[..keyBytes] == Folded(h, split, keyBytes, 0);
    NextStart(stripes - 1, keyBytes);
    for s := 0 to stripes - 1
      invariant Start(s, keyBytes) <= |split| && d.Length == 64
      invariant d[..keyBytes] == Folded(h, split, keyBytes, s)
    {
      StartsOrdered(s + 1, stripes, keyBytes);
      NextStart(s, keyBytes);
      ghost var was, at := d[..keyBytes], Start(s, keyBytes);
      for i := 0 to keyBytes
        invariant forall j :: 0 <= j < i ==> d[j] == Xor(was[j], split[at + j])
        invariant forall j :: i <= j < keyBytes ==> d[j] == was[j]
      {
        d[i] := Xor(d[i], split[Start(s, keyBytes) + i]);
      }
      assert d[..keyBytes] == XorSeq(was, split[at..at + keyBytes]);
      AfHashSector(h, s, keyBytes, d);
    }
  }
}
