/** Byte ranges of a volume, read through the decryption layer, a byte-granular disk or whole device
    blocks. */
module Ext4Io {
  import opened Bytes
  import opened LuksVol

  // The payload of an encrypted volume is the encryption of this plaintext, and nothing follows it.
  ghost predicate Encrypts(view: View, plain: seq<bv8>) {
    && view.Valid() && view.Holds(plain) && |plain| % view.sectorSize == 0
    && forall sector: nat :: |plain| / view.sectorSize <= sector ==> !view.SectorReadable(sector)
  }

  // A read of logical sectors succeeds exactly inside the plaintext, and gives the plaintext.
  lemma SectorsOfPlaintext(view: View, plain: seq<bv8>, lba: nat, count: nat)
    requires Encrypts(view, plain) && count > 0
    ensures view.RunReadable(lba, count) <==> (lba + count) * 512 <= |plain|
    ensures (lba + count) * 512 <= |plain| ==> view.Logical(lba, count) == plain[lba * 512..(lba + count) * 512]
  {
    hide View.Logical, View.Holds, View.SectorReadable;
    if (lba + count) * 512 <= |plain| {
      view.LogicalIsPlaintext(plain, lba, count);
    } else {
      var last := lba + count - 1;
      LastSectorOutside(last, view.Ratio(), |plain|, view.sectorSize);
      assert !view.SectorReadable(last / view.Ratio());
      assert !view.Reachable(last);
    }
  }

  lemma LastSectorOutside(lba: nat, ratio: nat, length: nat, size: nat)
    requires ratio > 0 && size == ratio * 512 && length % size == 0 && (lba + 1) * 512 > length
    ensures length / size <= lba / ratio
  {
    Divided(length, size);
    Divided(lba, ratio);
    var next := lba / ratio + 1;
    assert size * next == (ratio * (lba / ratio) + ratio) * 512;
    if length / size >= next {
      MulMonotone(size, next, length / size);
      assert false;
    }
  }

  // ---- Every plaintext can be encrypted ----

  // The first n payload sectors of a plaintext, encrypted.
  ghost function EncryptedSectors(cipher: SectorCipher, plain: seq<bv8>, size: nat, n: nat): (r: seq<bv8>)
    requires cipher.Valid() && size % 16 == 0 && PartsEnd(n, size) <= |plain|
    ensures |r| == PartsEnd(n, size)
    decreases n
  {
    hide SectorCipher.EncryptSector, SectorCipher.Valid;
    if n == 0 then []
    else
      PartsGrow(n - 1, size);
      EncryptedSectors(cipher, plain, size, n - 1) + cipher.EncryptSector(n - 1, PartOf(plain, size, n - 1))
  }

  lemma {:induction false} EncryptedSectorAt(cipher: SectorCipher, plain: seq<bv8>, size: nat, n: nat, i: nat)
    requires cipher.Valid() && size % 16 == 0 && PartsEnd(n, size) <= |plain| && i < n
    ensures PartsEnd(i + 1, size) <= PartsEnd(n, size)
    ensures PartOf(EncryptedSectors(cipher, plain, size, n), size, i) == cipher.EncryptSector(i, PartOf(plain, size, i))
    decreases n
  {
    PartsOrdered(i + 1, n, size);
    hide PartsEnd, PartOf, SectorCipher.EncryptSector, SectorCipher.Valid;
    PartsGrow(n - 1, size);
    var earlier := EncryptedSectors(cipher, plain, size, n - 1);
    var last := cipher.EncryptSector(n - 1, PartOf(plain, size, n - 1));
    assert EncryptedSectors(cipher, plain, size, n) == earlier + last;
    if i < n - 1 {
      EncryptedSectorAt(cipher, plain, size, n - 1, i);
      PartOfFront(earlier, last, size, i);
    } else {
      PartOfEnd(earlier, last, size, i);
    }
  }

  // A device whose payload, after a header, is the encryption of a plaintext.
  ghost function EncryptedDevice(cipher: SectorCipher, plain: seq<bv8>, size: nat, header: seq<bv8>): Device
    requires cipher.Valid() && size > 0 && size % 16 == 0 && |plain| % size == 0
  {
    Divided(|plain|, size);
    Device(header + EncryptedSectors(cipher, plain, size, |plain| / size), {})
  }

  lemma InSixteens(size: nat)
    requires size % 512 == 0
    ensures size % 16 == 0
  {
    Divided(size, 512);
    DivModUnique(size, 16, 32 * (size / 512), 0);
  }

  /** Every plaintext of whole payload sectors is what some device holds the encryption of. */
  lemma EveryPlaintextEncrypts(cipher: SectorCipher, plain: seq<bv8>, size: nat, header: seq<bv8>)
    requires cipher.Valid() && size % 512 == 0 && 512 <= size <= 4096 && |plain| % size == 0 && |header| % 512 == 0
    ensures size % 16 == 0
    ensures Encrypts(View(EncryptedDevice(cipher, plain, size, header), |header| / 512, size, cipher), plain)
  {
    InSixteens(size);
    var view := View(EncryptedDevice(cipher, plain, size, header), |header| / 512, size, cipher);
    hide SectorCipher.EncryptSector, SectorCipher.Valid, EncryptedDevice, View.HoldsAt, View.SectorReadable;
    forall sector: nat | (sector + 1) * size <= |plain| ensures view.HoldsAt(plain, sector) {
      SectorHeld(cipher, plain, size, header, sector);
    }
    forall sector: nat | |plain| / size <= sector ensures !view.SectorReadable(sector) {
      SectorBeyond(cipher, plain, size, header, sector);
    }
  }

  lemma SectorHeld(cipher: SectorCipher, plain: seq<bv8>, size: nat, header: seq<bv8>, sector: nat)
    requires cipher.Valid() && size % 512 == 0 && 512 <= size <= 4096 && |header| % 512 == 0
    requires |plain| % size == 0 && (sector + 1) * size <= |plain|
    ensures size % 16 == 0
    ensures
      var view := View(EncryptedDevice(cipher, plain, size, header), |header| / 512, size, cipher);
      view.HoldsAt(plain, sector)
  {
    InSixteens(size);
    var n := |plain| / size;
    Divided(|plain|, size);
    SectorInside(sector, size, n);
    assert PartsEnd(sector + 1, size) <= |plain| && PartsEnd(n, size) == |plain|;
    hide PartsEnd, SectorCipher.EncryptSector, SectorCipher.Valid, EncryptedSectors;
    var payload := EncryptedSectors(cipher, plain, size, n);
    EncryptedSectorAt(cipher, plain, size, n, sector);
    PayloadPlace(|header|, sector, size);
    SliceOfConcat(header, payload, PartsEnd(sector, size), PartsEnd(sector + 1, size));
  }

  lemma SectorBeyond(cipher: SectorCipher, plain: seq<bv8>, size: nat, header: seq<bv8>, sector: nat)
    requires cipher.Valid() && size % 512 == 0 && 512 <= size <= 4096 && |header| % 512 == 0
    requires |plain| % size == 0 && |plain| / size <= sector
    ensures size % 16 == 0
    ensures !View(EncryptedDevice(cipher, plain, size, header), |header| / 512, size, cipher).SectorReadable(sector)
  {
    InSixteens(size);
    var n := |plain| / size;
    Divided(|plain|, size);
    SectorInside(sector, size, n);
    assert PartsEnd(n, size) == |plain|;
    hide PartsEnd, SectorCipher.EncryptSector, SectorCipher.Valid, EncryptedSectors;
    PayloadPlace(|header|, sector, size);
  }

  lemma SectorInside(sector: nat, size: nat, n: nat)
    requires size > 0
    ensures PartsEnd(sector + 1, size) <= size * n <==> sector < n
  {
    if sector < n {
      MulMonotone(size, sector + 1, n);
    } else {
      MulMonotone(size, n, sector);
    }
  }

  // Where the device has a payload sector.
  lemma PayloadPlace(header: nat, sector: nat, size: nat)
    requires header % 512 == 0 && size % 512 == 0
    ensures PartsEnd(sector, size) == sector * size && PartsEnd(sector + 1, size) == (sector + 1) * size
    ensures (header / 512 + sector * (size / 512)) * 512 == header + PartsEnd(sector, size)
    ensures (header / 512 + sector * (size / 512) + size / 512) * 512 == header + PartsEnd(sector + 1, size)
    ensures PartsEnd(sector, size) <= PartsEnd(sector + 1, size)
  {
    Divided(size, 512);
    var r := size / 512;
    assert sector * (r * 512) == sector * r * 512;
    PartsGrow(sector, size);
  }

  lemma SliceOfConcat(a: seq<bv8>, b: seq<bv8>, i: nat, j: nat)
    requires i <= j <= |b|
    ensures (a + b)[|a| + i..|a| + j] == b[i..j]
  {
  }

  class ByteSource {
    const luks: LuksVolume?
    const hasDiskIo: bool
    const physBlockSize: nat
    // the contents of the device, when there is no decryption layer
    const device: seq<bv8>
    // what the file system sees
    ghost const image: seq<bv8>

    ghost predicate Valid() {
      if luks != null then
        luks.Valid() && Encrypts(luks.ViewOf(), image)
      else
        device == image && physBlockSize > 0 && |image| % physBlockSize == 0
    }

    // The buffers that reading uses itself.
    ghost function Scratch(): set<object> {
      if luks != null then {luks.decryptBuf} else {}
    }

    constructor Plain(device: seq<bv8>, hasDiskIo: bool, physBlockSize: nat)
      requires physBlockSize > 0 && |device| % physBlockSize == 0
      ensures Valid() && image == device && Scratch() == {}
    {
      this.luks, this.hasDiskIo, this.physBlockSize := null, hasDiskIo, physBlockSize;
      this.device, this.image := device, device;
    }

    constructor Encrypted(luks: LuksVolume, ghost plain: seq<bv8>)
      requires luks.Valid() && Encrypts(luks.ViewOf(), plain)
      ensures Valid() && image == plain && Scratch() == {luks.decryptBuf}
    {
      this.luks, this.hasDiskIo, this.physBlockSize := luks, false, 512;
      this.device, this.image := [], plain;
    }

    /** Whichever way is taken, a read succeeds exactly inside the image and gives the bytes there. */
    method ReadBytes(off: nat, count: nat, buf: array<bv8>) returns (ok: bool)
      requires Valid() && 1 <= count <= buf.Length && count + 1024 <= U32 && buf !in Scratch()
      modifies buf, Scratch()
      ensures ok == (off + count <= |image|)
      ensures ok ==> buf[..count] == image[off..off + count]
      ensures buf[count..] == old(buf[count..])
    {
      if luks != null {
        ok := ReadThroughLuks(off, count, buf);
      } else if hasDiskIo {
        ok := off + count <= |device|;
        if ok {
          CopySlice(device, off, count, buf);
        }
      } else {
        ok := ReadBlocks(off, count, buf);
      }
    }

    // The whole device blocks around the range, then the range out of them.
    method ReadBlocks(off: nat, count: nat, buf: array<bv8>) returns (ok: bool)
      requires physBlockSize > 0 && |device| % physBlockSize == 0 && 1 <= count <= buf.Length
      modifies buf
      ensures ok == (off + count <= |device|)
      ensures ok ==> buf[..count] == device[off..off + count]
      ensures buf[count..] == old(buf[count..])
    {
      var firstLba, lastLba := Quotient(off, physBlockSize), Quotient(off + count - 1, physBlockSize);
      SpanBlocks(off, count, physBlockSize, |device|);
      hide Quotient, PartsEnd;
      var lbaCount := lastLba - firstLba + 1;
      var from, end := PartsEnd(firstLba, physBlockSize), PartsEnd(firstLba + lbaCount, physBlockSize);
      assert firstLba + lbaCount == lastLba + 1;
      ok := end <= |device|;
      if ok {
        CopyWithin(device[from..end], device, from, off, count, buf);
      }
    }

    // The 512-byte sectors around the range, then the range out of them.
    method ReadThroughLuks(off: nat, count: nat, buf: array<bv8>) returns (ok: bool)
      requires Valid() && luks != null && 1 <= count <= buf.Length && count + 1024 <= U32 && buf !in Scratch()
      modifies buf, luks.decryptBuf
      ensures ok == (off + count <= |image|)
      ensures ok ==> buf[..count] == image[off..off + count]
      ensures buf[count..] == old(buf[count..])
    {
      hide View.Holds, View.RunReadable, View.Logical;
      var firstSec, lastSec := off / 512, (off + count - 1) / 512;
      SpanCovers(off, count, 512);
      var nsecs := lastSec - firstSec + 1;
      var tmp := new bv8[nsecs * 512];
      var r := luks.Read(firstSec, tmp, nsecs);
      SectorsOfPlaintext(luks.ViewOf(), image, firstSec, nsecs);
      PlaintextInSectors(luks.ViewOf(), image);
      SpanInside(off, count, 512, |image|);
      if r == 0 {
        assert tmp[..nsecs * 512] == tmp[..];
        CopyWithin(tmp[..], image, firstSec * 512, off, count, buf);
      }
      ok := r == 0;
    }
  }

  lemma PlaintextInSectors(view: View, plain: seq<bv8>)
    requires Encrypts(view, plain)
    ensures |plain| % 512 == 0
  {
    var q := view.Ratio() * (|plain| / view.sectorSize);
    Divided(|plain|, view.sectorSize);
    assert |plain| == 512 * q;
    DivModUnique(|plain|, 512, q, 0);
  }

  // Whole blocks around a byte range contain it.
  lemma SpanCovers(off: nat, count: nat, size: nat)
    requires size > 0 && count >= 1
    ensures
      var first, last := off / size, (off + count - 1) / size;
      && first <= last
      && first * size <= off && off + count <= (last + 1) * size
      && (last - first) * size < count + size
  {
    var first, last := off / size, (off + count - 1) / size;
    Divided(off, size);
    Divided(off + count - 1, size);
    if first > last {
      MulMonotone(size, last + 1, first);
      assert false;
    }
    assert (last + 1) * size == size * last + size;
    assert (last - first) * size == size * last - size * first;
  }

  // In a volume of whole blocks, they lie inside it exactly when the range does.
  lemma SpanInside(off: nat, count: nat, size: nat, length: nat)
    requires size > 0 && count >= 1 && length % size == 0
    ensures ((off + count - 1) / size + 1) * size <= length <==> off + count <= length
  {
    Divided(length, size);
    if off + count <= length {
      DivBelow(off + count - 1, size, length / size);
      MulMonotone(size, (off + count - 1) / size + 1, length / size);
    } else {
      SpanCovers(off, count, size);
    }
  }

  // Copies a range of the whole out of a part of it.
  method CopyWithin(part: seq<bv8>, ghost whole: seq<bv8>, from: nat, off: nat, count: nat, to: array<bv8>)
    requires from <= off && off + count <= from + |part| <= |whole| && count <= to.Length
    requires part == whole[from..from + |part|]
    modifies to
    ensures to[..count] == whole[off..off + count] && to[count..] == old(to[count..])
  {
    SliceOfSlice(whole, from, from + |part|, off - from, off - from + count);
    CopySlice(part, off - from, count, to);
  }

  // The same for the blocks that a read asks for.
  lemma SpanBlocks(off: nat, count: nat, size: nat, length: nat)
    requires size > 0 && count >= 1 && length % size == 0
    ensures
      var first, last := Quotient(off, size), Quotient(off + count - 1, size);
      && first <= last
      && PartsEnd(first, size) <= off && off + count <= PartsEnd(last + 1, size)
      && (PartsEnd(last + 1, size) <= length <==> off + count <= length)
  {
    SpanCovers(off, count, size);
    SpanInside(off, count, size, length);
  }

  method CopySlice(from: seq<bv8>, off: nat, count: nat, to: array<bv8>)
    requires off + count <= |from| && count <= to.Length
    modifies to
    ensures to[..count] == from[off..off + count] && to[count..] == old(to[count..])
  {
    for i := 0 to count
      invariant to[..i] == from[off..off + i] && to[count..] == old(to[count..])
    {
      to[i] := from[off + i];
    }
  }
}
