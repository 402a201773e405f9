/** Reading files of an ext4 volume by path: the loops over extents, directory records, path
    components and blocks, each proved against the volume as a value. */
module Ext4Vol {
  import opened Bytes
  import opened LuksVol
  import opened Ext4Io
  import opened Ext4

  class Ext4Volume {
    const source: ByteSource
    const blockSize: nat
    const inodesPerGroup: nat
    const inodeSize: nat
    const bgdtOff: nat
    const descSize: nat

    ghost predicate Valid() {
      source.Valid() && FsOf().Valid()
    }

    ghost function FsOf(): Fs {
      Fs(source.image, blockSize, inodesPerGroup, inodeSize, bgdtOff, descSize)
    }

    // A buffer that is not one the source reads through.
    ghost predicate Buffer(buf: array<bv8>, size: nat) {
      buf.Length == size && buf !in source.Scratch()
    }

    constructor (source: ByteSource, sb: seq<bv8>)
      requires source.Valid() && HasSuperblock(sb) && SuperblockSane(sb)
      ensures Valid() && this.source == source && FsOf() == Mounted(source.image, sb)
    {
      hide R16, R32, BlockSizeOf, Slot;
      var blockSize := BlockSizeOf(R32(sb, 24));
      this.source, this.blockSize := source, blockSize;
      this.inodesPerGroup := R32(sb, 40);
      this.inodeSize := if R16(sb, 88) < 128 then 128 else R16(sb, 88);
      this.bgdtOff := Slot(0, (R32(sb, 20) + 1) % U32, blockSize);
      this.descSize :=
        if BitSet(R32(sb, 96), EXT4_FEATURE_INCOMPAT_64BIT) && R16(sb, 254) >= 64 then 64 else 32;
    }

    method BlockRead(block: nat, buf: array<bv8>) returns (ok: bool)
      requires Valid() && Buffer(buf, blockSize)
      modifies buf, source.Scratch()
      ensures ok == FsOf().BlockReadable(block)
      ensures ok ==> buf[..] == FsOf().Block(block)
    {
      ok := source.ReadBytes(Slot(0, block, blockSize) % U64, blockSize, buf);
      assert buf[..blockSize] == buf[..];
    }

    method InodeRead(ino: nat, buf: array<bv8>) returns (ok: bool)
      requires Valid() && Buffer(buf, inodeSize)
      modifies buf, source.Scratch()
      ensures ok == FsOf().InodeReadable(ino)
      ensures ok ==> buf[..] == FsOf().Inode(ino)
    {
      hide R16, R32, Quotient;
      if ino == 0 {
        return false;
      }
      var group, local: nat := Quotient(ino - 1, inodesPerGroup), (ino - 1) % inodesPerGroup;
      var bgd := new bv8[64];
      ok := source.ReadBytes(Slot(bgdtOff, group, descSize), descSize, bgd);
      if !ok {
        return;
      }
      var lo := R32(bgd[..descSize], 8);
      var hi := if descSize >= 64 then R32(bgd[..descSize], 40) else 0;
      var off := Slot(Slot(0, lo + hi * U32, blockSize), local, inodeSize) % U64;
      ok := source.ReadBytes(off, inodeSize, buf);
      assert buf[..inodeSize] == buf[..];
    }

    method ExtentLookup(root: seq<bv8>, l: nat, scratch: array<bv8>) returns (phys: nat)
      requires Valid() && FsOf().TreeFits(root) && Buffer(scratch, blockSize)
      modifies scratch, source.Scratch()
      ensures phys == FsOf().ExtentPhys(root, l)
    {
      hide R16, R32, LeafScan, KeysUpTo, Fs.Block, Fs.BlockReadable;
      var eh := root;
      if R16(eh, 0) != EXT4_EXTENT_HEADER_MAGIC {
        return 0;
      }
      if Depth(eh) > 0 {
        var best := SearchIndex(eh, l);
        if best == 0 {
          return 0;
        }
        var leaf := IndexChild(eh, best - 1);
        assert FsOf().ChildFits(leaf);
        var ok := BlockRead(leaf, scratch);
        if !ok {
          return 0;
        }
        eh := scratch[..];
        if R16(eh, 0) != EXT4_EXTENT_HEADER_MAGIC {
          return 0;
        }
      }
      phys := SearchLeaf(eh, l);
    }

    method SearchIndex(node: seq<bv8>, l: nat) returns (n: nat)
      requires NodeFits(node)
      ensures n == KeysUpTo(node, l, 0)
    {
      hide IndexKey, Entries, NodeFits;
      n := 0;
      for i := 0 to Entries(node)
        invariant n == i && KeysUpTo(node, l, 0) == KeysUpTo(node, l, i)
      {
        if IndexKey(node, i) > l {
          break;
        }
        n := i + 1;
      }
    }

    method SearchLeaf(node: seq<bv8>, l: nat) returns (phys: nat)
      requires NodeFits(node)
      ensures phys == LeafScan(node, l, 0)
    {
      hide LeafEntry, Entries, NodeFits;
      for i := 0 to Entries(node)
        invariant LeafScan(node, l, 0) == LeafScan(node, l, i)
      {
        var e := LeafEntry(node, i);
        if l >= e.block && l < (e.block + e.len) % U32 {
          return e.start + (l - e.block);
        }
      }
      phys := 0;
    }

    /** Reads a logical block of a file; a hole reads as zeros. */
    method ReadLblock(inode: seq<bv8>, l: nat, out: array<bv8>, scratch: array<bv8>) returns (ok: bool)
      requires Valid() && FsOf().InodeFits(inode)
      requires Buffer(out, blockSize) && Buffer(scratch, blockSize) && out != scratch
      modifies out, scratch, source.Scratch()
      ensures ok == FsOf().LblockReadable(inode, l)
      ensures ok ==> out[..] == FsOf().Lblock(inode, l)
    {
      hide R16, R32, Fs.TreeFits, Fs.ExtentPhys, Fs.Block, Fs.BlockReadable;
      var flags := R32(inode, 32);
      var phys := 0;
      if BitSet(flags, EXT4_EXTENTS_FL) {
        phys := ExtentLookup(inode[40..100], l, scratch);
      } else if l < 12 {
        phys := R32(inode, 40 + 4 * l);
      }
      if phys == 0 {
        for i := 0 to blockSize
          invariant out[..i] == Zeros(i)
        {
          out[i] := 0;
        }
        assert out[..blockSize] == out[..];
        return true;
      }
      ok := BlockRead(phys, out);
    }

    /** Looks a name up in a directory: the first live record of that name in the whole of it. */
    method DirLookup(dir: nat, name: seq<bv8>, inodeBuf: array<bv8>, dirBuf: array<bv8>, scratch: array<bv8>)
      returns (ino: nat)
      requires Valid() && FsOf().DirReady(dir) && |name| <= 255
      requires Buffer(inodeBuf, inodeSize) && Buffer(dirBuf, blockSize) && Buffer(scratch, blockSize)
      requires inodeBuf != dirBuf && inodeBuf != scratch && dirBuf != scratch
      modifies inodeBuf, dirBuf, scratch, source.Scratch()
      ensures ino == FsOf().Lookup(dir, name)
    {
      hide R16, R32, Fs.InodeReadable, Fs.Inode, Fs.InodeFits, Fs.LblockReadable, Fs.Lblock, Quotient, Slot, Records,
        RecordsFit, Fs.Limit;
      ghost var fs := FsOf();
      var ok := InodeRead(dir, inodeBuf);
      if !ok {
        return 0;
      }
      ghost var inode := inodeBuf[..];
      var size := R32(inodeBuf[..], 4);
      var nblk := Quotient((size + blockSize - 1) % U32, blockSize);
      assert nblk == fs.BlocksOf(fs.DirSize(inode));
      var blk := 0;
      while blk < nblk
        invariant 0 <= blk <= nblk && inodeBuf[..] == inode
        invariant Find(fs.DirRecords(inode, blk), name) == fs.Lookup(dir, name)
      {
        ok := ReadLblock(inodeBuf[..], blk, dirBuf, scratch);
        if !ok {
          break;
        }
        var limit := if blk + 1 == nblk && size % blockSize != 0 then size % blockSize else blockSize;
        LimitIs(fs, size, blk);
        assert fs.DirBlockFits(inode, blk);
        ino := ScanBlock(dirBuf[..], limit, name);
        FindInFirst(Records(dirBuf[..], limit, 0), fs.DirRecords(inode, blk + 1), name);
        if ino != 0 {
          return;
        }
        blk := blk + 1;
      }
      ino := 0;
    }

    /** Follows a path from the root, whatever the buffers held before. */
    method PathLookup(path: seq<bv8>, inodeBuf: array<bv8>, dirBuf: array<bv8>, scratch: array<bv8>)
      returns (ino: nat)
      requires Valid() && FsOf().WalkFits(EXT4_ROOT_INO, Components(path))
      requires Buffer(inodeBuf, inodeSize) && Buffer(dirBuf, blockSize) && Buffer(scratch, blockSize)
      requires inodeBuf != dirBuf && inodeBuf != scratch && dirBuf != scratch
      modifies inodeBuf, dirBuf, scratch, source.Scratch()
      ensures ino == FsOf().PathInode(path)
    {
      hide Fs.DirReady, Fs.Lookup, Components;
      ghost var fs := FsOf();
      ino := EXT4_ROOT_INO;
      var p := SkipSlashes(path, 0);
      assert path[0..] == path;
      if p == |path| {
        NoComponents(path[p..]);
        return;
      }
      while p < |path|
        invariant 0 <= p <= |path| && (p < |path| ==> path[p] != SLASH)
        invariant fs.WalkFits(ino, Components(path[p..]))
        invariant fs.Walk(ino, Components(path[p..])) == fs.PathInode(path)
        decreases |path| - p
      {
        var end := SkipName(path, p);
        var name := path[p..end];
        FirstComponent(path, p, end);
        p := SkipSlashes(path, end);
        ino := DirLookup(ino, name, inodeBuf, dirBuf, scratch);
        if ino == 0 {
          return;
        }
      }
      NoComponents(path[p..]);
    }

    /** Loads a whole file, with a zero byte after it. It succeeds exactly for a path that leads to a
        file that can be loaded, and every byte is then the one that the file has there. */
    method ReadFile(path: seq<bv8>) returns (buf: array?<bv8>, size: nat)
      requires Valid() && FsOf().PathFits(path)
      modifies source.Scratch()
      ensures buf != null <==> FsOf().Loadable(FsOf().PathInode(path))
      ensures buf != null ==> fresh(buf) && buf.Length == size + 1 && buf[size] == 0
      ensures buf != null ==> FsOf().IsContent(FsOf().PathInode(path), buf[..size])
    {
      hide R16, R32, Fs.Inode, Fs.InodeFits, Fs.WalkFits, Fs.PathInode, Fs.InodeReadable, Fs.FileReadable;
      var inodeBuf, first, second := new bv8[inodeSize], new bv8[blockSize], new bv8[blockSize];
      var ino := PathLookup(path, inodeBuf, first, second);
      if ino == 0 {
        NoInodeZero(FsOf());
        return null, 0;
      }
      var ok := InodeRead(ino, inodeBuf);
      if !ok {
        return null, 0;
      }
      size := R32(inodeBuf[..], 4) + R32(inodeBuf[..], 108) * U32;
      if size == 0 || size > MAX_FILE_SIZE {
        return null, size;
      }
      buf := new bv8[size + 1];
      buf[size] := 0;
      ok := FillFile(inodeBuf[..], size, buf, second, first);
      if !ok {
        buf := null;
      }
    }

    // Reads the blocks of a file to their places.
    method FillFile(inode: seq<bv8>, size: nat, buf: array<bv8>, blkBuf: array<bv8>, scratch: array<bv8>)
      returns (ok: bool)
      requires Valid() && Buffer(buf, size + 1) && Buffer(blkBuf, blockSize) && Buffer(scratch, blockSize)
      requires buf != blkBuf && buf != scratch && blkBuf != scratch
      requires FsOf().InodeFits(inode) && FsOf().FileSize(inode) == size
      modifies buf, blkBuf, scratch, source.Scratch()
      ensures ok == FsOf().FileReadable(inode)
      ensures ok ==> forall k :: 0 <= k < size ==> FsOf().ByteAt(inode, k, buf[k])
      ensures buf[size] == old(buf[size])
    {
      ghost var fs := FsOf();
      NoneFilled(fs, inode, size, buf[..]);
      hide R16, R32, Fs.InodeFits, Fs.LblockReadable, Fs.Lblock, Fs.ByteAt, Fs.FileSize, Quotient, Slot,
        FilledTo, ByteSource.Valid;
      var nblk := Quotient(size + blockSize - 1, blockSize);
      var blk := 0;
      while blk < nblk
        invariant 0 <= blk <= nblk && buf[size] == old(buf[size])
        invariant forall l: nat :: l < blk ==> fs.LblockReadable(inode, l)
        invariant FilledTo(fs, inode, size, buf[..], blk)
      {
        ok := ReadLblock(inode, blk, blkBuf, scratch);
        if !ok {
          return;
        }
        PlaceBlock(blkBuf, inode, blk, size, buf);
        blk := blk + 1;
      }
      AllFilled(fs, inode, size, buf[..]);
      assert forall k :: 0 <= k < size ==> fs.ByteAt(inode, k, buf[..][k]);
      ok := true;
    }

    // Copies a block of a file, or what of it belongs to the file, to its place.
    method PlaceBlock(blkBuf: array<bv8>, ghost inode: seq<bv8>, blk: nat, size: nat, buf: array<bv8>)
      requires Valid() && blkBuf.Length == blockSize && buf.Length == size + 1 && buf != blkBuf
      requires FsOf().InodeFits(inode) && FsOf().LblockReadable(inode, blk) && blkBuf[..] == FsOf().Lblock(inode, blk)
      requires blk < FsOf().BlocksOf(size) && FilledTo(FsOf(), inode, size, buf[..], blk)
      modifies buf
      ensures buf[size] == old(buf[size]) && FilledTo(FsOf(), inode, size, buf[..], blk + 1)
    {
      hide Fs.InodeFits, Fs.LblockReadable, Fs.Lblock, Fs.ByteAt;
      PlaceOf(size, blockSize, blk);
      hide Slot, Quotient;
      var dst := Slot(0, blk, blockSize);
      var len := size - dst;
      if len > blockSize {
        len := blockSize;
      }
      CopyAt(blkBuf, len, buf, dst);
      BytesOfBlock(FsOf(), inode, blk, len, buf[dst..dst + len]);
      assert forall k :: dst <= k < dst + len ==> buf[k] == buf[dst..dst + len][k - dst];
    }
  }

  lemma NoInodeZero(fs: Fs)
    requires fs.Valid()
    ensures !fs.InodeReadable(0)
  {
  }

  // A block of a file starts inside it, and the next starts a block further.
  lemma PlaceOf(size: nat, bs: nat, blk: nat)
    requires bs > 0 && blk < Quotient(size + bs - 1, bs)
    ensures Slot(0, blk, bs) < size && Slot(0, blk + 1, bs) == Slot(0, blk, bs) + bs
  {
    BlocksCounted(size, bs);
    BlockBounds(size, bs, blk);
    assert (blk + 1) * bs == blk * bs + bs;
  }

  // The bytes that lie in the first n blocks of a file are right.
  ghost predicate FilledTo(fs: Fs, inode: seq<bv8>, size: nat, bytes: seq<bv8>, n: nat)
    requires fs.Valid() && fs.InodeFits(inode) && |bytes| > size
  {
    forall k :: 0 <= k < size && k < Slot(0, n, fs.blockSize) ==> fs.ByteAt(inode, k, bytes[k])
  }

  lemma NoneFilled(fs: Fs, inode: seq<bv8>, size: nat, bytes: seq<bv8>)
    requires fs.Valid() && fs.InodeFits(inode) && |bytes| > size
    ensures FilledTo(fs, inode, size, bytes, 0)
  {
    assert Slot(0, 0, fs.blockSize) == 0;
  }

  lemma AllFilled(fs: Fs, inode: seq<bv8>, size: nat, bytes: seq<bv8>)
    requires fs.Valid() && fs.InodeFits(inode) && |bytes| > size
    requires FilledTo(fs, inode, size, bytes, Quotient(size + fs.blockSize - 1, fs.blockSize))
    ensures forall k :: 0 <= k < size ==> fs.ByteAt(inode, k, bytes[k])
  {
    AllPlaced(size, fs.blockSize);
    hide Slot, Quotient, Fs.ByteAt, Fs.InodeFits;
  }

  lemma AllPlaced(size: nat, bs: nat)
    requires bs > 0
    ensures Slot(0, Quotient(size + bs - 1, bs), bs) >= size
  {
    BlocksCounted(size, bs);
    hide Quotient;
    BlockBounds(size, bs, size / bs);
  }

  // The bytes of a block are the bytes of the file from the block's place on.
  lemma BytesOfBlock(fs: Fs, inode: seq<bv8>, blk: nat, len: nat, bytes: seq<bv8>)
    requires fs.Valid() && fs.InodeFits(inode) && fs.LblockReadable(inode, blk)
    requires len <= fs.blockSize && bytes == fs.Lblock(inode, blk)[..len]
    ensures forall i :: 0 <= i < len ==> fs.ByteAt(inode, Slot(0, blk, fs.blockSize) + i, bytes[i])
  {
    hide Fs.InodeFits, Fs.LblockReadable, Fs.Lblock;
    forall i | 0 <= i < len ensures fs.ByteAt(inode, Slot(0, blk, fs.blockSize) + i, bytes[i]) {
      DivModUnique(Slot(0, blk, fs.blockSize) + i, fs.blockSize, blk, i);
    }
  }

  method CopyAt(from: array<bv8>, len: nat, to: array<bv8>, dst: nat)
    requires len <= from.Length && dst + len <= to.Length && from != to
    modifies to
    ensures to[dst..dst + len] == from[..len]
    ensures forall k :: 0 <= k < to.Length && !(dst <= k < dst + len) ==> to[k] == old(to[k])
  {
    for i := 0 to len
      invariant to[dst..dst + i] == from[..i]
      invariant forall k :: 0 <= k < to.Length && !(dst <= k < dst + len) ==> to[k] == old(to[k])
    {
      to[dst + i] := from[i];
    }
  }

  // ---- The whole stack ----

  // The superblock, if the volume is long enough to hold it.
  ghost predicate HasExt4(image: seq<bv8>) {
    |image| >= 1536 && HasSuperblock(image[1024..1536])
  }

  ghost function FsIn(image: seq<bv8>): (fs: Fs)
    requires HasExt4(image) && SuperblockSane(image[1024..1536])
    ensures fs.Valid() && fs.image == image
  {
    Mounted(image, image[1024..1536])
  }

  method MountLuks(luks: LuksVolume, ghost plain: seq<bv8>) returns (vol: Ext4Volume?)
    requires luks.Valid() && Encrypts(luks.ViewOf(), plain)
    requires HasExt4(plain) ==> SuperblockSane(plain[1024..1536])
    modifies luks.decryptBuf
    ensures vol != null <==> HasExt4(plain)
    ensures vol != null ==> vol.Valid() && vol.FsOf() == FsIn(plain) && vol.source.Scratch() == {luks.decryptBuf}
  {
    hide View.Holds, View.Logical, View.RunReadable, R16, R32, SuperblockSane, Mounted;
    var sbBuf := new bv8[512 * 3];
    var r := luks.Read(0, sbBuf, 3);
    SectorsOfPlaintext(luks.ViewOf(), plain, 0, 3);
    if r != 0 {
      return null;
    }
    assert sbBuf[..] == plain[..1536];
    var sb := sbBuf[1024..];
    assert sb == plain[1024..1536];
    if R16(sb, 56) != EXT4_SUPER_MAGIC {
      return null;
    }
    var source := new ByteSource.Encrypted(luks, plain);
    vol := new Ext4Volume(source, sb);
  }

  /** All the layers at once: if the payload of an encrypted volume is the encryption of a plaintext
      that is an ext4 image, loading a file by its path gives the content that the file has in the
      plaintext, and fails exactly if there is no such file. */
  method ReadFileFromLuks(luks: LuksVolume, ghost plain: seq<bv8>, path: seq<bv8>)
    returns (buf: array?<bv8>, size: nat)
    requires luks.Valid() && Encrypts(luks.ViewOf(), plain)
    requires HasExt4(plain) ==> SuperblockSane(plain[1024..1536]) && FsIn(plain).PathFits(path)
    modifies luks.decryptBuf
    ensures buf != null <==> HasExt4(plain) && FsIn(plain).Loadable(FsIn(plain).PathInode(path))
    ensures buf != null ==> buf.Length == size + 1 && buf[size] == 0
    ensures buf != null ==> FsIn(plain).IsContent(FsIn(plain).PathInode(path), buf[..size])
    ensures buf != null ==> FlatContent(FsIn(plain), FsIn(plain).PathInode(path), buf[..size])
  {
    var vol := MountLuks(luks, plain);
    if vol == null {
      return null, 0;
    }
    buf, size := vol.ReadFile(path);
    if buf != null {
      LoadedIsFlat(FsIn(plain), FsIn(plain).PathInode(path), buf[..size]);
    }
  }

  // The content of a file with a well-formed extent tree is that of its flat map.
  ghost predicate FlatContent(fs: Fs, ino: nat, content: seq<bv8>)
    requires fs.Valid() && fs.InodeReadable(ino)
  {
    var inode := fs.Inode(ino);
    fs.UsesExtents(inode) && fs.TreeOk(inode[40..100]) ==>
      forall k :: 0 <= k < |content| ==> fs.FlatByte(inode, k, content[k])
  }

  lemma LoadedIsFlat(fs: Fs, ino: nat, content: seq<bv8>)
    requires fs.Valid() && (fs.InodeReadable(ino) ==> fs.InodeFits(fs.Inode(ino)))
    requires fs.Loadable(ino) && fs.IsContent(ino, content)
    ensures FlatContent(fs, ino, content)
  {
    hide Fs.TreeOk, Fs.UsesExtents, Fs.FlatByte, Fs.IsContent, Fs.InodeFits, Fs.Inode;
    var inode := fs.Inode(ino);
    if fs.UsesExtents(inode) && fs.TreeOk(inode[40..100]) {
      fs.ContentIsFlat(ino, content);
    }
  }

  // How the code computes the used part of a block.
  lemma LimitIs(fs: Fs, size: nat, blk: nat)
    requires fs.Valid() && blk < fs.BlocksOf(size)
    ensures fs.Limit(size, blk) ==
            if blk + 1 == fs.BlocksOf(size) && size % fs.blockSize != 0 then size % fs.blockSize else fs.blockSize
  {
    BlocksCounted(size, fs.blockSize);
    hide Quotient;
    BlockBounds(size, fs.blockSize, blk);
  }

  // The number of blocks is rounded up.
  lemma BlocksCounted(size: nat, bs: nat)
    requires bs > 0
    ensures Quotient(size + bs - 1, bs) == size / bs + if size % bs == 0 then 0 else 1
  {
    Divided(size, bs);
    RoundedUp(size / bs, size % bs, bs);
  }

  lemma RoundedUp(q: nat, r: nat, bs: nat)
    requires r < bs
    ensures Quotient(bs * q + r + bs - 1, bs) == q + if r == 0 then 0 else 1
  {
    if r == 0 {
      DivModUnique(bs * q + bs - 1, bs, q, bs - 1);
    } else {
      assert bs * (q + 1) == bs * q + bs;
      DivModUnique(bs * q + r + bs - 1, bs, q + 1, r - 1);
    }
  }

  // A block is full, or it is the last and holds the remainder.
  lemma BlockBounds(size: nat, bs: nat, blk: nat)
    requires bs > 0 && blk <= size / bs
    ensures blk < size / bs ==> Slot(0, blk + 1, bs) <= size
    ensures blk == size / bs ==> Slot(0, blk, bs) + size % bs == size < Slot(0, blk + 1, bs)
  {
    Divided(size, bs);
    assert (blk + 1) * bs == bs * blk + bs;
    if blk < size / bs {
      MulMonotone(bs, blk + 1, size / bs);
    }
  }

  // Scans the records of one directory block.
  method ScanBlock(block: seq<bv8>, limit: nat, name: seq<bv8>) returns (ino: nat)
    requires limit <= |block| && RecordsFit(block, limit, 0) && |name| <= 255
    ensures ino == Find(Records(block, limit, 0), name)
  {
    hide R16, R32, Records, RecordsFit, Find;
    var pos := 0;
    while pos + 8 <= limit
      invariant RecordsFit(block, limit, pos)
      invariant Find(Records(block, limit, pos), name) == Find(Records(block, limit, 0), name)
      decreases limit - pos
    {
      RecordStep(block, limit, pos, name);
      var ino2, reclen, nl := R32(block, pos), R16(block, pos + 4), block[pos + 6] as nat;
      if reclen == 0 {
        return 0;
      }
      if ino2 != 0 && nl == |name| % 256 {
        var same := SameName(block, pos, name);
        if same {
          return ino2;
        }
      }
      pos := pos + reclen;
    }
    RecordStep(block, limit, pos, name);
    ino := 0;
  }

  // One step of the scan: the record at hand, then the records after it.
  lemma RecordStep(block: seq<bv8>, limit: nat, pos: nat, name: seq<bv8>)
    requires limit <= |block| && RecordsFit(block, limit, pos)
    ensures pos + 8 > limit || R16(block, pos + 4) == 0 ==> Find(Records(block, limit, pos), name) == 0
    ensures pos + 8 <= limit && R16(block, pos + 4) != 0 ==>
      var len := block[pos + 6] as nat;
      && pos + 8 + len <= |block|
      && RecordsFit(block, limit, pos + R16(block, pos + 4))
      && Find(Records(block, limit, pos), name) ==
         if R32(block, pos) != 0 && len == |name| && block[pos + 8..pos + 8 + len] == name then R32(block, pos)
         else Find(Records(block, limit, pos + R16(block, pos + 4)), name)
  {
    hide R16, R32;
    if pos + 8 <= limit && R16(block, pos + 4) != 0 {
      var rest := Records(block, limit, pos + R16(block, pos + 4));
      assert Records(block, limit, pos) == [RecordAt(block, pos)] + rest;
      assert ([RecordAt(block, pos)] + rest)[1..] == rest;
    }
  }

  method SameName(block: seq<bv8>, pos: nat, name: seq<bv8>) returns (same: bool)
    requires pos + 8 + |name| <= |block|
    ensures same == (block[pos + 8..pos + 8 + |name|] == name)
  {
    for i := 0 to |name|
      invariant block[pos + 8..pos + 8 + i] == name[..i]
    {
      if block[pos + 8 + i] != name[i] {
        assert block[pos + 8..pos + 8 + |name|][i] == block[pos + 8 + i];
        return false;
      }
    }
    assert name[..|name|] == name;
    same := true;
  }

  // ---- The path ----

  method SkipSlashes(path: seq<bv8>, from: nat) returns (p: nat)
    requires from <= |path|
    ensures from <= p <= |path| && (p < |path| ==> path[p] != SLASH)
    ensures Components(path[p..]) == Components(path[from..])
  {
    p := from;
    while p < |path| && path[p] == SLASH
      invariant from <= p <= |path|
      invariant Components(path[p..]) == Components(path[from..])
    {
      assert path[p..][1..] == path[p + 1..];
      p := p + 1;
    }
  }

  method SkipName(path: seq<bv8>, from: nat) returns (p: nat)
    requires from < |path| && path[from] != SLASH
    ensures from < p <= |path| && (p < |path| ==> path[p] == SLASH)
    ensures forall i :: from <= i < p ==> path[i] != SLASH
  {
    p := from;
    while p < |path| && path[p] != SLASH
      invariant from <= p <= |path|
      invariant forall i :: from <= i < p ==> path[i] != SLASH
    {
      p := p + 1;
    }
  }

  lemma FirstComponent(path: seq<bv8>, from: nat, end: nat)
    requires from < end <= |path| && (end < |path| ==> path[end] == SLASH)
    requires forall i :: from <= i < end ==> path[i] != SLASH
    ensures Components(path[from..]) == [path[from..end]] + Components(path[end..])
  {
    var name, rest := path[from..end], path[end..];
    assert path[from..] == name + rest;
    NameFirst(name, rest);
  }

  lemma NoComponents(path: seq<bv8>)
    requires path == []
    ensures Components(path) == []
  {
  }
}
