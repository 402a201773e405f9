/** The decrypted view of an encrypted volume: 512-byte logical sectors read through payload sectors
    of up to 4096 bytes. If the device holds the encryption of a plaintext, every read returns the
    right slice of it. */
module LuksVol {
  import opened Bytes
  import opened Aes
  import opened Cipher

  // The block device: its contents, and the 512-byte sectors on which a read fails.
  datatype Device = Device(bytes: seq<bv8>, faulty: set<nat>) {
    predicate Readable(lba: nat, count: nat) {
      (lba + count) * 512 <= |bytes| && forall s <- faulty :: !(lba <= s < lba + count)
    }

    method Read(lba: nat, buf: array<bv8>, count: nat) returns (status: int)
      requires count * 512 <= buf.Length
      modifies buf
      ensures status == if Readable(lba, count) then 0 else -1
      ensures status == 0 ==> buf[..count * 512] == bytes[lba * 512..(lba + count) * 512]
    {
      if !Readable(lba, count) {
        return -1;
      }
      for i := 0 to count * 512
        invariant forall j :: 0 <= j < i ==> buf[j] == bytes[lba * 512 + j]
      {
        buf[i] := bytes[lba * 512 + i];
      }
      status := 0;
    }
  }

  // What one sector of the payload is encrypted with.
  datatype SectorCipher = SectorCipher(mode: int, xts: XtsKeys, cbc: CbcKeys) {
    ghost predicate Valid() {
      xts.Valid() && cbc.Valid()
    }

    function EncryptSector(sector: nat, data: seq<bv8>): (r: seq<bv8>)
      requires Valid() && |data| % 16 == 0
      ensures |r| == |data|
    {
      if mode == CIPHER_XTS then XtsSector(xts, sector, data, false)
      else CbcEncrypt(cbc.dec, CbcIv(cbc, sector), data)
    }

    function DecryptSector(sector: nat, data: seq<bv8>): (r: seq<bv8>)
      requires Valid() && |data| % 16 == 0
      ensures |r| == |data|
    {
      if mode == CIPHER_XTS then XtsSector(xts, sector, data, true)
      else CbcDecrypt(cbc.dec, CbcIv(cbc, sector), data)
    }

    // Mode 1 is XTS, every other number is CBC.
    lemma ModeChooses(sector: nat, data: seq<bv8>)
      requires Valid() && |data| % 16 == 0
      ensures mode == 1 ==> DecryptSector(sector, data) == XtsSector(xts, sector, data, true)
      ensures mode != 1 ==> DecryptSector(sector, data) == CbcDecrypt(cbc.dec, CbcIv(cbc, sector), data)
    {
      hide XtsSector, CbcDecrypt, CbcIv;
    }

    lemma SectorInverse(sector: nat, data: seq<bv8>)
      requires Valid() && |data| % 16 == 0
      ensures DecryptSector(sector, EncryptSector(sector, data)) == data
    {
      if mode == CIPHER_XTS {
        XtsInverse(xts.data, FirstTweak(xts, sector), data, false);
      } else {
        CbcInverse(cbc.dec, CbcIv(cbc, sector), data);
      }
    }
  }

  // ---- The decrypted payload as a value ----

  datatype View = View(device: Device, payloadLba: nat, sectorSize: nat, cipher: SectorCipher) {
    ghost predicate Valid() {
      cipher.Valid() && sectorSize % 512 == 0 && 512 <= sectorSize <= 4096
    }

    // Device sectors in one payload sector.
    function Ratio(): (r: nat)
      requires Valid()
      ensures 1 <= r <= 8 && r * 512 == sectorSize
    {
      sectorSize / 512
    }

    // The first device sector of a payload sector.
    function DeviceLba(sector: nat): nat
      requires Valid()
    {
      payloadLba + sector * Ratio()
    }

    predicate SectorReadable(sector: nat)
      requires Valid()
    {
      device.Readable(DeviceLba(sector), Ratio())
    }

    function PayloadSector(sector: nat): (r: seq<bv8>)
      requires Valid() && SectorReadable(sector)
      ensures |r| == sectorSize
    {
      var at := DeviceLba(sector);
      cipher.DecryptSector(sector, device.bytes[at * 512..(at + Ratio()) * 512])
    }

    // Whether the payload sector that holds a logical sector can be read.
    predicate Reachable(lba: nat)
      requires Valid()
    {
      SectorReadable(lba / Ratio())
    }

    // The logical sectors from lba on, as the payload sectors that hold them give them.
    predicate RunReadable(lba: nat, count: nat)
      requires Valid()
    {
      forall i :: lba <= i < lba + count ==> Reachable(i)
    }

    function PayloadSectorOf(lba: nat): (r: seq<bv8>)
      requires Valid() && Reachable(lba)
      ensures |r| == sectorSize
    {
      PayloadSector(lba / Ratio())
    }

    function LogicalSector(lba: nat): (r: seq<bv8>)
      requires Valid() && Reachable(lba)
      ensures |r| == 512
    {
      PayloadSectorOf(lba)[lba % Ratio() * 512..(lba % Ratio() + 1) * 512]
    }

    function Logical(lba: nat, count: nat): (r: seq<bv8>)
      requires Valid() && RunReadable(lba, count)
      ensures |r| == count * 512
      decreases count
    {
      if count == 0 then []
      else
        assert Reachable(lba);
        LogicalSector(lba) + Logical(lba + 1, count - 1)
    }

    /** Reading two adjacent ranges gives the same bytes as reading them in one. */
    lemma {:induction false} AdjacentReads(lba: nat, m: nat, n: nat)
      requires Valid() && RunReadable(lba, m + n)
      ensures RunReadable(lba, m) && RunReadable(lba + m, n)
      ensures Logical(lba, m + n) == Logical(lba, m) + Logical(lba + m, n)
      decreases m
    {
      hide LogicalSector, Reachable;
      if m == 0 {
        assert Logical(lba, m) == [];
      } else {
        assert Reachable(lba);
        AdjacentReads(lba + 1, m - 1, n);
        assert lba + 1 + (m - 1) == lba + m && m - 1 + n == m + n - 1;
      }
    }

    lemma RunsJoin(lba: nat, m: nat, n: nat, done: seq<bv8>, more: seq<bv8>)
      requires Valid() && RunReadable(lba, m) && RunReadable(lba + m, n)
      requires done == Logical(lba, m) && more == Logical(lba + m, n)
      ensures RunReadable(lba, m + n) && done + more == Logical(lba, m + n)
    {
      hide Reachable, Logical;
      AdjacentReads(lba, m, n);
    }

    // Logical sectors inside one payload sector are a slice of it.
    lemma {:induction false} RunInside(lba: nat, count: nat)
      requires Valid() && Reachable(lba)
      requires count > 0 && lba % Ratio() + count <= Ratio()
      ensures RunReadable(lba, count)
      ensures Logical(lba, count) ==
              PayloadSectorOf(lba)[lba % Ratio() * 512..(lba % Ratio() + count) * 512]
      decreases count
    {
      hide PayloadSector, SectorReadable;
      forall i | lba <= i < lba + count ensures Reachable(i) {
        StaysInside(lba, i - lba, Ratio());
      }
      var p, off := PayloadSectorOf(lba), lba % Ratio();
      if count == 1 {
        assert Logical(lba + 1, 0) == [];
      } else {
        StaysInside(lba, 1, Ratio());
        RunInside(lba + 1, count - 1);
        assert p[off * 512..(off + 1) * 512] + p[(off + 1) * 512..(off + count) * 512] == p[off * 512..(off + count) * 512];
      }
    }

    // The device holds the encryption of the plaintext, payload sector by payload sector.
    ghost predicate Holds(plain: seq<bv8>)
      requires Valid()
    {
      forall sector: nat :: (sector + 1) * sectorSize <= |plain| ==> HoldsAt(plain, sector)
    }

    ghost predicate HoldsAt(plain: seq<bv8>, sector: nat)
      requires Valid() && (sector + 1) * sectorSize <= |plain|
    {
      SliceBounds(sector, sectorSize);
      SectorReadable(sector) &&
      device.bytes[DeviceLba(sector) * 512..(DeviceLba(sector) + Ratio()) * 512] ==
      cipher.EncryptSector(sector, plain[sector * sectorSize..(sector + 1) * sectorSize])
    }

    /** The whole read stack: if the device holds the encryption of a plaintext made of whole payload
        sectors, the logical sectors are the plaintext's. */
    lemma {:induction false} LogicalIsPlaintext(plain: seq<bv8>, lba: nat, count: nat)
      requires Valid() && Holds(plain) && |plain| % sectorSize == 0 && (lba + count) * 512 <= |plain|
      ensures RunReadable(lba, count)
      ensures Logical(lba, count) == plain[lba * 512..(lba + count) * 512]
      decreases count
    {
      hide PayloadSector, Reachable, LogicalSector;
      if count > 0 {
        LogicalIsPlaintext(plain, lba + 1, count - 1);
        SectorIsPlaintext(plain, lba);
        assert plain[lba * 512..(lba + 1) * 512] + plain[(lba + 1) * 512..(lba + count) * 512] ==
               plain[lba * 512..(lba + count) * 512];
        forall i | lba <= i < lba + count ensures Reachable(i) {
          if i > lba {
            assert lba + 1 <= i < lba + 1 + (count - 1);
          }
        }
      }
    }

    lemma SectorIsPlaintext(plain: seq<bv8>, lba: nat)
      requires Valid() && Holds(plain) && |plain| % sectorSize == 0 && (lba + 1) * 512 <= |plain|
      ensures Reachable(lba)
      ensures LogicalSector(lba) == plain[lba * 512..(lba + 1) * 512]
    {
      hide SectorReadable, PayloadSector, Holds;
      var sector, off := lba / Ratio(), lba % Ratio();
      WholeSectorInside(lba, Ratio(), |plain| / sectorSize, sectorSize);
      PayloadIsPlaintext(plain, sector);
      SliceBounds(sector, sectorSize);
      SliceOfSlice(plain, sector * sectorSize, (sector + 1) * sectorSize, off * 512, (off + 1) * 512);
    }

    lemma PayloadIsPlaintext(plain: seq<bv8>, sector: nat)
      requires Valid() && Holds(plain) && (sector + 1) * sectorSize <= |plain|
      ensures SectorReadable(sector)
      ensures 0 <= sector * sectorSize <= (sector + 1) * sectorSize
      ensures PayloadSector(sector) == plain[sector * sectorSize..(sector + 1) * sectorSize]
    {
      hide SectorReadable, SectorCipher.EncryptSector, SectorCipher.DecryptSector, SectorCipher.Valid;
      assert HoldsAt(plain, sector);
      SliceBounds(sector, sectorSize);
      cipher.SectorInverse(sector, plain[sector * sectorSize..(sector + 1) * sectorSize]);
    }
  }

  lemma SliceBounds(sector: nat, size: nat)
    ensures 0 <= sector * size <= (sector + 1) * size && (sector + 1) * size == sector * size + size
  {
  }

  // The payload sector of a logical sector inside the plaintext is inside it too.
  lemma WholeSectorInside(lba: nat, ratio: nat, sectors: nat, size: nat)
    requires ratio > 0 && size == ratio * 512 && (lba + 1) * 512 <= sectors * size
    ensures (lba / ratio + 1) * size <= sectors * size
    ensures lba / ratio * size + lba % ratio * 512 == lba * 512
  {
    assert lba == ratio * (lba / ratio) + lba % ratio;
    assert sectors * size == ratio * sectors * 512 by { assert sectors * (ratio * 512) == ratio * sectors * 512; }
    DivBelow(lba, ratio, sectors);
    MulMonotone(size, lba / ratio + 1, sectors);
    assert lba / ratio * size == ratio * (lba / ratio) * 512;
  }

  lemma StaysInside(lba: nat, i: nat, ratio: nat)
    requires ratio > 0 && lba % ratio + i < ratio
    ensures (lba + i) / ratio == lba / ratio && (lba + i) % ratio == lba % ratio + i
  {
    DivModUnique(lba + i, ratio, lba / ratio, lba % ratio + i);
  }

  // ---- The copy index ----

  // Where the code puts byte j of the block copied at logical sector i, in 32-bit arithmetic.
  function CopyOffset(i: nat, j: nat): nat {
    ((i + j / 512) * 512 + j % 512) % U32
  }

  /** The 32-bit index reaches every byte of the request exactly when the request is at most 4 GiB:
      beyond that it wraps round to the start of the buffer. */
  lemma CopyOffsetExact(count: nat)
    ensures (forall i: nat, j: nat :: i * 512 + j < count * 512 ==> CopyOffset(i, j) == i * 512 + j) <==>
            count * 512 <= U32
  {
    if count * 512 > U32 {
      assert CopyOffset(U32 / 512, 0) == 0;
    } else {
      forall i: nat, j: nat | i * 512 + j < count * 512 ensures CopyOffset(i, j) == i * 512 + j {
        assert j == 512 * (j / 512) + j % 512;
      }
    }
  }

  // ---- The volume ----

  class LuksVolume {
    const device: Device
    const payloadLba: nat
    const sectorSize: nat
    const cipher: SectorCipher
    const decryptBuf: array<bv8>

    ghost predicate Valid() {
      ViewOf().Valid() && decryptBuf.Length == 4096
    }

    ghost function ViewOf(): View {
      View(device, payloadLba, sectorSize, cipher)
    }

    constructor (device: Device, cipher: SectorCipher, payloadLba: nat, sectorSize: nat)
      requires cipher.Valid()
      requires sectorSize < 512 || (sectorSize % 512 == 0 && sectorSize <= 4096)
      ensures Valid() && fresh(decryptBuf)
      ensures ViewOf() == View(device, payloadLba, if sectorSize >= 512 then sectorSize else 512, cipher)
    {
      this.device, this.cipher, this.payloadLba := device, cipher, payloadLba;
      this.sectorSize := if sectorSize >= 512 then sectorSize else 512;
      this.decryptBuf := new bv8[4096];
    }

    // Reads and decrypts the payload sector that holds a logical sector.
    method ReadPayload(ghost lba: nat, sector: nat, secsPerPayload: nat) returns (status: int)
      requires Valid() && secsPerPayload == ViewOf().Ratio() && sector == lba / secsPerPayload
      modifies decryptBuf
      ensures status == if ViewOf().Reachable(lba) then 0 else -1
      ensures status == 0 ==> decryptBuf[..sectorSize] == ViewOf().PayloadSectorOf(lba)
    {
      hide XtsSector, CbcDecrypt, CbcIv;
      var deviceLba := payloadLba + sector * secsPerPayload;
      var encBuf := new bv8[4096];
      var devSecs := if secsPerPayload * 512 > 4096 then 8 else secsPerPayload;
      status := device.Read(deviceLba, encBuf, devSecs);
      if status != 0 {
        return -1;
      }
      assert encBuf[..sectorSize / 16 * 16] == encBuf[..devSecs * 512];
      if cipher.mode == CIPHER_XTS {
        XtsCrypt(cipher.xts, sector, encBuf, decryptBuf, sectorSize, true);
      } else {
        CbcDecryptSector(cipher.cbc, sector, encBuf, decryptBuf, sectorSize);
      }
    }

    /** Reads count logical sectors from lba on. It succeeds exactly when every payload sector the
        range touches can be read, and then the buffer holds them. */
    method Read(lba: nat, buf: array<bv8>, count: nat) returns (status: int)
      requires Valid() && buf != decryptBuf
      requires count * 512 <= buf.Length && count * 512 <= U32
      modifies buf, decryptBuf
      ensures status == if ViewOf().RunReadable(lba, count) then 0 else -1
      ensures status == 0 ==> buf[..count * 512] == ViewOf().Logical(lba, count)
      ensures buf[count * 512..] == old(buf[count * 512..])
    {
      ghost var view := ViewOf();
      hide View.Reachable, View.Logical, View.Valid;
      var secsPerPayload := sectorSize / 512;
      secsPerPayload := if secsPerPayload == 0 then 1 else secsPerPayload;
      var i, at := 0, lba;
      while i < count
        invariant 0 <= i <= count && at == lba + i
        invariant view.RunReadable(lba, i)
        invariant buf[..i * 512] == view.Logical(lba, i)
        invariant buf[count * 512..] == old(buf[count * 512..])
      {
        var copy;
        status, copy := ReadSome(at, buf, i, count, secsPerPayload);
        if status != 0 {
          return -1;
        }
        view.RunsJoin(lba, i, copy, buf[..i * 512], buf[i * 512..(i + copy) * 512]);
        assert buf[..(i + copy) * 512] == buf[..i * 512] + buf[i * 512..(i + copy) * 512];
        i := i + copy;
        at := at + copy;
      }
      status := 0;
    }

    // One turn of the loop: as many of the remaining sectors as the payload sector at hand holds.
    method ReadSome(at: nat, buf: array<bv8>, i: nat, count: nat, secsPerPayload: nat)
      returns (status: int, copy: nat)
      requires Valid() && buf != decryptBuf && secsPerPayload == ViewOf().Ratio()
      requires i < count && count * 512 <= buf.Length && count * 512 <= U32
      modifies buf, decryptBuf
      ensures status == if ViewOf().Reachable(at) then 0 else -1
      ensures 1 <= copy <= count - i
      ensures buf[..i * 512] == old(buf[..i * 512])
      ensures status == 0 ==>
        ViewOf().RunReadable(at, copy) && buf[i * 512..(i + copy) * 512] == ViewOf().Logical(at, copy)
      ensures buf[count * 512..] == old(buf[count * 512..])
    {
      hide View.Reachable, View.Logical, View.PayloadSectorOf, View.RunReadable;
      var sector, secOff := at / secsPerPayload, at % secsPerPayload;
      copy := count - i;
      var avail := secsPerPayload - secOff;
      if copy > avail {
        copy := avail;
      }
      status := ReadPayload(at, sector, secsPerPayload);
      if status != 0 {
        return -1, copy;
      }
      ViewOf().RunInside(at, copy);
      assert decryptBuf[..][0..sectorSize] == decryptBuf[..sectorSize];
      SliceOfSlice(decryptBuf[..], 0, sectorSize, secOff * 512, (secOff + copy) * 512);
      CopySectors(buf, i, secOff, copy, count);
    }

    // Copies logical sectors of the decrypted payload sector to their place in the caller's buffer.
    method CopySectors(buf: array<bv8>, i: nat, secOff: nat, copy: nat, ghost count: nat)
      requires decryptBuf.Length == 4096 && buf != decryptBuf && (secOff + copy) * 512 <= 4096
      requires i + copy <= count && count * 512 <= buf.Length && count * 512 <= U32
      modifies buf
      ensures buf[..i * 512] == old(buf[..i * 512])
      ensures buf[i * 512..(i + copy) * 512] == decryptBuf[secOff * 512..(secOff + copy) * 512]
      ensures buf[count * 512..] == old(buf[count * 512..])
    {
      for j := 0 to copy * 512
        invariant forall m :: 0 <= m < i * 512 || count * 512 <= m < buf.Length ==> buf[m] == old(buf[m])
        invariant forall m :: i * 512 <= m < i * 512 + j ==> buf[m] == decryptBuf[secOff * 512 + m - i * 512]
      {
        assert CopyOffset(i, j) == i * 512 + j by {
          CopyOffsetExact(count);
        }
        buf[CopyOffset(i, j)] := decryptBuf[secOff * 512 + j];
      }
    }
  }
}
