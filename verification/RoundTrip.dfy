/** The whole stack there and back: an ext4 image of any geometry that has a file written into it, encrypted
    into the payload of a device, gives the file back when it is loaded by its path. */
module RoundTrip {
  import opened Bytes
  import opened LuksVol
  import opened Ext4Io
  import opened Ext4
  import opened Ext4Layout
  import opened Ext4Image
  import opened Ext4Vol

  // ---- Geometries ----

  // 1024, doubled so many times.
  function Doubled(log: nat): (r: nat)
    ensures r >= 1024
  {
    if log == 0 then 1024 else 2 * Doubled(log - 1)
  }

  // The block size as a logarithm, the first data block, the inodes of a group, the inode size and its field
  // in the superblock, descriptors of 64 bytes or 32, the block of each group's inode table, the group and
  // the place in it of the file's inode, and the blocks where the root directory and the data begin.
  datatype Geometry = Geometry(log: nat, first: nat, perGroup: nat, inodeSize: nat, field: nat, wide: bool,
                               tables: seq<nat>, group: nat, local: nat, rootBlock: nat, dataBlock: nat) {
    predicate Valid() {
      && log <= 6 && first + 1 < U32 && 2 <= perGroup < U32 && 128 <= inodeSize < 0x1_0000
      && (if field < 128 then inodeSize == 128 else inodeSize == field)
      && (forall g :: 0 <= g < |tables| ==> tables[g] < (if wide then U32 * U32 else U32))
      && 1 <= |tables| && group < |tables| && local < perGroup && (group > 0 || local > 1)
      && InodeNumber() < U32 && 0 < rootBlock < 0x1_0000 * U32 && 0 < dataBlock && dataBlock + 0x2_0000 < 0x1_0000 * U32
    }

    function BlockSize(): (r: nat)
      ensures r >= 1024
    {
      Doubled(log)
    }

    function DescSize(): nat {
      if wide then 64 else 32
    }

    // Inodes are numbered from 1 on, group after group.
    function NumberOf(g: nat, before: nat): nat {
      g * perGroup + before + 1
    }

    function InodeNumber(): nat {
      NumberOf(group, local)
    }

    // Where the inode with so many before it in a group's table is.
    function InodePlace(g: nat, before: nat): nat
      requires g < |tables|
    {
      tables[g] * BlockSize() + before * inodeSize
    }
  }

  lemma BlockSizes(log: nat)
    requires log <= 6
    ensures BlockSizeOf(log) == Doubled(log) && 1024 <= Doubled(log) <= 0x1_0000
  {
    assert Doubled(3) == 8192;
  }

  // ---- What is written ----

  function SuperFront(g: Geometry): (r: seq<bv8>)
    ensures |r| == 58
  {
    Zeros(20) + LittleEndian(g.first, 4) + LittleEndian(g.log, 4) + Zeros(12) + LittleEndian(g.perGroup, 4) + Zeros(12) +
    LittleEndian(0xEF53, 2)
  }

  function SuperBack(g: Geometry): (r: seq<bv8>)
    ensures |r| == 198
  {
    Zeros(30) + LittleEndian(g.field, 2) + Zeros(6) + LittleEndian(if g.wide then 0x80 else 0, 4) + Zeros(154) +
    LittleEndian(g.DescSize(), 2)
  }

  function Superblock(g: Geometry): (r: seq<bv8>)
    ensures |r| == 512
  {
    SuperFront(g) + SuperBack(g) + Zeros(256)
  }

  // A group descriptor: all of it that is read is the block of the inode table.
  function Descriptor(table: nat, wide: bool): (r: seq<bv8>)
    ensures |r| == if wide then 64 else 32
  {
    if wide then Zeros(8) + LittleEndian(table % U32, 4) + Zeros(28) + LittleEndian(table / U32, 4) + Zeros(20)
    else Zeros(8) + LittleEndian(table, 4) + Zeros(20)
  }

  function Descriptors(g: Geometry): (r: seq<seq<bv8>>)
    ensures |r| == |g.tables| && EvenPieces(r, g.DescSize())
  {
    seq(|g.tables|, i requires 0 <= i < |g.tables| => Descriptor(g.tables[i], g.wide))
  }

  function BlocksNeeded(length: nat, size: nat): nat
    requires size > 0
  {
    Quotient(length + size - 1, size)
  }

  // Consecutive blocks as extents of at most 32768 blocks.
  function Extents(block: nat, n: nat, start: nat): (r: seq<Extent>)
    ensures |r| <= n
    decreases n
  {
    if n == 0 then []
    else if n <= 32768 then [Extent(block, n, start)]
    else [Extent(block, 32768, start)] + Extents(block + 32768, n - 32768, start + 32768)
  }

  function RootExtents(g: Geometry): seq<Extent> {
    [Extent(0, 1, g.rootBlock)]
  }

  function FileExtents(g: Geometry, content: seq<bv8>): seq<Extent> {
    Extents(0, BlocksNeeded(|content|, g.BlockSize()), g.dataBlock)
  }

  // The file's record, and a deleted one to the end of the block.
  function RootRecords(g: Geometry, name: seq<bv8>): seq<Slotted>
    requires |name| <= 255
  {
    [Slotted(Record(g.InodeNumber(), name), 1, 504 - |name|), Slotted(Record(0, []), 0, g.BlockSize() - 520)]
  }

  function Data(content: seq<bv8>, size: nat): (r: seq<bv8>)
    requires size > 0
    ensures |r| == PartsEnd(BlocksNeeded(|content|, size), size) && content <= r
  {
    PartsCounted(|content| + size - 1, size);
    content + Zeros(PartsEnd(BlocksNeeded(|content|, size), size) - |content|)
  }

  // An image that has the parts of the file system in their places, and anything elsewhere.
  ghost predicate Laid(g: Geometry, image: seq<bv8>, name: seq<bv8>, content: seq<bv8>) {
    && g.Valid() && |name| <= 255 && |image| < U64 && 0 < |content| <= 0x800_0000
    && AllStorable(RootRecords(g, name)) && |Extents(0, BlocksNeeded(|content|, g.BlockSize()), g.dataBlock)| <= 4
    && Lies(image, 1024, Superblock(g))
    && DescriptorsLie(g, image)
    && Lies(image, g.InodePlace(0, 1), InodeBytes(g.BlockSize(), RootExtents(g), g.inodeSize))
    && Lies(image, g.InodePlace(g.group, g.local), InodeBytes(|content|, FileExtents(g, content), g.inodeSize))
    && Lies(image, PartsEnd(g.rootBlock, g.BlockSize()), Written(RootRecords(g, name)))
    && Lies(image, PartsEnd(g.dataBlock, g.BlockSize()), Data(content, g.BlockSize()))
  }

  // ---- The superblock ----

  lemma SuperblockSlices(g: Geometry)
    ensures
      var sb := Superblock(g);
      && sb[20..24] == LittleEndian(g.first, 4) && sb[24..28] == LittleEndian(g.log, 4)
      && sb[40..44] == LittleEndian(g.perGroup, 4) && sb[56..58] == LittleEndian(0xEF53, 2)
      && sb[88..90] == LittleEndian(g.field, 2) && sb[96..100] == LittleEndian(if g.wide then 0x80 else 0, 4)
      && sb[254..256] == LittleEndian(g.DescSize(), 2)
  {
    hide LittleEndian, Geometry.DescSize;
    var sb, front, back := Superblock(g), SuperFront(g), SuperBack(g);
    assert sb[20..24] == front[20..24] && sb[24..28] == front[24..28] && sb[40..44] == front[40..44];
    assert sb[56..58] == front[56..58];
    assert sb[88..90] == back[30..32] && sb[96..100] == back[38..42] && sb[254..256] == back[196..198];
  }

  lemma SuperblockFields(g: Geometry)
    requires g.Valid()
    ensures
      var sb := Superblock(g);
      && R32(sb, 20) == g.first && R32(sb, 24) == g.log && R32(sb, 40) == g.perGroup && R16(sb, 56) == 0xEF53
      && R16(sb, 88) == g.field && R32(sb, 96) == (if g.wide then 0x80 else 0) && R16(sb, 254) == g.DescSize()
  {
    SuperblockSlices(g);
    hide R16, R32, LittleEndian, Superblock;
    var sb := Superblock(g);
    Read32(sb, 20, g.first);
    Read32(sb, 24, g.log);
    Read32(sb, 40, g.perGroup);
    Read16(sb, 56, 0xEF53);
    Read16(sb, 88, g.field);
    Read32(sb, 96, if g.wide then 0x80 else 0);
    Read16(sb, 254, g.DescSize());
  }

  function MountedFs(g: Geometry, image: seq<bv8>): Fs {
    Fs(image, g.BlockSize(), g.perGroup, g.inodeSize, PartsEnd(g.first + 1, g.BlockSize()), g.DescSize())
  }

  lemma SlotIsPart(n: nat, size: nat)
    ensures Slot(0, n, size) == PartsEnd(n, size)
  {
  }

  lemma WideIsSet(wide: bool)
    ensures BitSet(if wide then 0x80 else 0, EXT4_FEATURE_INCOMPAT_64BIT) == wide
  {
  }

  lemma SuperblockAccepted(g: Geometry)
    requires g.Valid()
    ensures HasSuperblock(Superblock(g)) && SuperblockSane(Superblock(g))
  {
    SuperblockFields(g);
    hide R16, R32, Superblock;
  }

  lemma GeometryMounted(g: Geometry, image: seq<bv8>)
    requires g.Valid() && HasSuperblock(Superblock(g)) && SuperblockSane(Superblock(g))
    ensures Mounted(image, Superblock(g)) == MountedFs(g, image)
  {
    hide R16, R32, Superblock, BlockSizeOf, Doubled, Slot, PartsEnd, BitSet, HasSuperblock, SuperblockSane,
      Geometry.InodeNumber;
    SuperblockFields(g);
    BlockSizes(g.log);
    SlotIsPart(g.first + 1, g.BlockSize());
    WideIsSet(g.wide);
  }

  /** Mounting finds the geometry that was written, of every block size, and with narrow and wide descriptors. */
  lemma MountedIs(g: Geometry, image: seq<bv8>)
    requires g.Valid() && Lies(image, 1024, Superblock(g))
    ensures HasExt4(image) && SuperblockSane(image[1024..1536])
    ensures FsIn(image) == MountedFs(g, image) && MountedFs(g, image).Valid()
  {
    assert image[1024..1536] == Superblock(g);
    hide Superblock, Mounted, HasSuperblock, SuperblockSane, Geometry.Valid;
    SuperblockAccepted(g);
    GeometryMounted(g, image);
  }

  // ---- Inodes ----

  lemma DescriptorFields(table: nat, wide: bool)
    requires table < if wide then U32 * U32 else U32
    ensures
      var d := Descriptor(table, wide);
      R32(d, 8) + (if wide then R32(d, 40) else 0) * U32 == table
  {
    hide R16, R32, LittleEndian;
    var d := Descriptor(table, wide);
    if wide {
      Divided(table, U32);
      DivBelow(table, U32, U32);
      assert d[8..12] == LittleEndian(table % U32, 4) && d[40..44] == LittleEndian(table / U32, 4);
      Read32(d, 8, table % U32);
      Read32(d, 40, table / U32);
    } else {
      assert d[8..12] == LittleEndian(table, 4);
      Read32(d, 8, table);
    }
  }

  // The reader divides an inode number into group and place as the writer put them together.
  lemma NumberSplits(g: Geometry, group: nat, local: nat)
    requires g.Valid() && local < g.perGroup
    ensures
      var ino := g.NumberOf(group, local);
      ino > 0 && Quotient(ino - 1, g.perGroup) == group && (ino - 1) % g.perGroup == local
  {
    DivModUnique(group * g.perGroup + local, g.perGroup, group, local);
  }

  ghost predicate DescriptorsLie(g: Geometry, image: seq<bv8>) {
    Lies(image, PartsEnd(g.first + 1, g.BlockSize()), Joined(Descriptors(g)))
  }

  lemma DescriptorLies(g: Geometry, image: seq<bv8>, group: nat)
    requires DescriptorsLie(g, image) && group < |g.tables|
    ensures Lies(image, PartsEnd(g.first + 1, g.BlockSize()) + PartsEnd(group, g.DescSize()), Descriptor(g.tables[group], g.wide))
  {
    hide PartsEnd, Joined, Lies, Descriptor, Doubled;
    PieceLies(image, PartsEnd(g.first + 1, g.BlockSize()), Descriptors(g), g.DescSize(), group);
  }

  // The descriptor of an inode's group is read, and names the table.
  predicate InTable(fs: Fs, ino: nat, table: nat, local: nat) {
    && fs.Valid() && ino != 0 && fs.Inside(fs.DescAt(ino), fs.descSize)
    && fs.TableOf(fs.Range(fs.DescAt(ino), fs.descSize)) == table && fs.PlaceInGroup(ino) == local
  }

  predicate HasInode(fs: Fs, ino: nat, inode: seq<bv8>) {
    fs.Valid() && fs.InodeReadable(ino) && fs.Inode(ino) == inode
  }

  lemma DescriptorFound(g: Geometry, image: seq<bv8>, group: nat, local: nat)
    requires g.Valid() && group < |g.tables| && local < g.perGroup && DescriptorsLie(g, image)
    ensures InTable(MountedFs(g, image), g.NumberOf(group, local), g.tables[group], local)
  {
    hide R16, R32, Descriptors, Joined, Doubled, Quotient, PartsEnd, Descriptor, Slot, Geometry.InodeNumber, BlockSizeOf,
      Geometry.NumberOf;
    GeometryValid(g, image);
    DescriptorFields(g.tables[group], g.wide);
    DescriptorLies(g, image, group);
    NumberSplits(g, group, local);
    var fs := MountedFs(g, image);
    SlotIs(fs.bgdtOff, group, fs.descSize);
  }

  lemma SlotIs(base: nat, n: nat, size: nat)
    ensures Slot(base, n, size) == base + PartsEnd(n, size)
  {
  }

  /** Where the writer puts an inode, in whatever group, the reader finds it. */
  lemma InodeFound(g: Geometry, image: seq<bv8>, group: nat, local: nat, inode: seq<bv8>)
    requires g.Valid() && |image| < U64 && group < |g.tables| && local < g.perGroup && |inode| == g.inodeSize
    requires DescriptorsLie(g, image) && Lies(image, g.InodePlace(group, local), inode)
    ensures HasInode(MountedFs(g, image), g.NumberOf(group, local), inode)
  {
    hide Doubled, Slot, Geometry.InodePlace, Geometry.Valid, Geometry.NumberOf, DescriptorsLie, Fs.DescAt, Fs.TableOf,
      Fs.PlaceInGroup, Fs.Valid, R16, R32, PartsEnd;
    DescriptorFound(g, image, group, local);
    InodePlaceIs(g, group, local);
    SmallOffset(g.InodePlace(group, local));
  }

  lemma InodePlaceIs(g: Geometry, group: nat, local: nat)
    requires group < |g.tables|
    ensures Slot(Slot(0, g.tables[group], g.BlockSize()), local, g.inodeSize) == g.InodePlace(group, local)
  {
  }

  // ---- Blocks ----

  lemma BlockFound(g: Geometry, image: seq<bv8>, block: nat, bytes: seq<bv8>)
    requires |image| < U64 && Lies(image, PartsEnd(block, g.BlockSize()), bytes) && |bytes| == g.BlockSize()
    ensures MountedFs(g, image).BlockReadable(block) && MountedFs(g, image).Block(block) == bytes
  {
    hide PartsEnd, Slot, Doubled;
    SlotIsPart(block, g.BlockSize());
    SmallOffset(PartsEnd(block, g.BlockSize()));
  }

  lemma PartsAdd(m: nat, n: nat, size: nat)
    ensures PartsEnd(m + n, size) == PartsEnd(m, size) + PartsEnd(n, size)
  {
  }

  // ---- The root directory ----

  lemma RecordsFill(g: Geometry, name: seq<bv8>)
    requires g.Valid() && |name| <= 255
    ensures AllStorable(RootRecords(g, name)) && |Written(RootRecords(g, name))| == g.BlockSize()
  {
    BlockSizes(g.log);
    hide Doubled, BlockSizeOf, Geometry.InodePlace, Slotted.Bytes;
    var rs := RootRecords(g, name);
    assert rs[0].Storable() && rs[1].Storable();
    assert rs[1..][1..] == [] && Written([]) == [];
    assert rs[1..][0] == rs[1];
    assert Written(rs[1..]) == rs[1].Bytes() + Written(rs[1..][1..]);
    assert Written(rs) == rs[0].Bytes() + Written(rs[1..]);
  }

  lemma OneExtentSorted(e: Extent)
    requires Storable(e) && e.block + e.len <= EXT_MAX_BLOCKS
    ensures SortedExtents([e], 0, EXT_MAX_BLOCKS)
  {
  }

  // The root directory is the second inode of the first group.
  lemma RootNumber(g: Geometry)
    ensures g.NumberOf(0, 1) == 2
  {
  }

  lemma RootInode(g: Geometry, image: seq<bv8>, name: seq<bv8>, content: seq<bv8>)
    requires Laid(g, image, name, content)
    ensures HoldsInode(MountedFs(g, image), EXT4_ROOT_INO, g.BlockSize(), RootExtents(g))
  {
    hide Laid, InodeBytes, Fs.Inode, Fs.InodeReadable, SortedExtents, Lies, Joined, Descriptors, Doubled, PartsEnd,
      Geometry.InodePlace, Geometry.InodeNumber, BlockSizeOf, RootRecords, AllStorable, Written, Superblock, Data, Extents,
      BlocksNeeded;
    LaidParts(g, image, name, content);
    GeometryValid(g, image);
    RootNumber(g);
    OneExtentSorted(Extent(0, 1, g.rootBlock));
    InodeFound(g, image, 0, 1, InodeBytes(g.BlockSize(), RootExtents(g), g.inodeSize));
  }

  // What it means to be laid, part by part.
  lemma LaidParts(g: Geometry, image: seq<bv8>, name: seq<bv8>, content: seq<bv8>)
    requires Laid(g, image, name, content)
    ensures g.Valid() && |name| <= 255 && |image| < U64 && 0 < |content| <= 0x800_0000
    ensures AllStorable(RootRecords(g, name)) && |FileExtents(g, content)| <= 4
    ensures Lies(image, 1024, Superblock(g)) && DescriptorsLie(g, image)
    ensures Lies(image, g.InodePlace(0, 1), InodeBytes(g.BlockSize(), RootExtents(g), g.inodeSize))
    ensures Lies(image, g.InodePlace(g.group, g.local), InodeBytes(|content|, FileExtents(g, content), g.inodeSize))
    ensures Lies(image, PartsEnd(g.rootBlock, g.BlockSize()), Written(RootRecords(g, name)))
    ensures Lies(image, PartsEnd(g.dataBlock, g.BlockSize()), Data(content, g.BlockSize()))
  {
    hide Lies, Superblock, Joined, InodeBytes, Written, Data, PartsEnd, Geometry.InodePlace, Descriptors, AllStorable, Extents,
      Geometry.InodeNumber;
  }

  lemma RootRecordsHeld(g: Geometry, image: seq<bv8>, name: seq<bv8>, content: seq<bv8>)
    requires Laid(g, image, name, content)
    ensures HoldsDirBlock(MountedFs(g, image), RootExtents(g), RootRecords(g, name), 0)
  {
    LaidParts(g, image, name, content);
    RecordsFill(g, name);
    hide Laid, Fs.Block, Fs.BlockReadable, Written, RootRecords, AllStorable, Lies, Joined, Descriptors, Doubled, PartsEnd,
      Geometry.InodePlace, Geometry.InodeNumber, InodeBytes;
    BlockFound(g, image, g.rootBlock, Written(RootRecords(g, name)));
    var e := Extent(0, 1, g.rootBlock);
    assert e in RootExtents(g) && PartAt(MountedFs(g, image), e, 0, Written(RootRecords(g, name)));
  }

  lemma OneBlockDir(fs: Fs, ino: nat, es: seq<Extent>, rs: seq<Slotted>)
    requires fs.Valid() && HoldsInode(fs, ino, fs.blockSize, es) && HoldsDirBlock(fs, es, rs, 0)
    ensures HoldsDir(fs, ino, es, [rs])
  {
    assert PartsEnd(1, fs.blockSize) == fs.blockSize;
    hide HoldsInode, HoldsDirBlock, PartsEnd;
  }

  lemma NameFound(g: Geometry, name: seq<bv8>)
    requires |name| <= 255 && g.BlockSize() >= 520
    ensures Find(RecordsFrom([RootRecords(g, name)], 0), name) == g.InodeNumber()
  {
    hide Geometry.InodeNumber;
    var blocks: DirBlocks := [RootRecords(g, name)];
    assert RecordsFrom(blocks, 0) == RecordsOf(RootRecords(g, name)) + RecordsFrom(blocks, 1);
    assert RecordsFrom(blocks, 0)[0] == Record(g.InodeNumber(), name);
    NumberPositive(g);
  }

  lemma NumberPositive(g: Geometry)
    ensures g.InodeNumber() > 0
  {
  }

  lemma PathHeld(g: Geometry, image: seq<bv8>, name: seq<bv8>, content: seq<bv8>)
    requires Laid(g, image, name, content) && IsName(name)
    ensures HoldsPath(MountedFs(g, image), EXT4_ROOT_INO, [name], [Directory(RootExtents(g), [RootRecords(g, name)])],
                      g.InodeNumber())
  {
    var fs := MountedFs(g, image);
    RootInode(g, image, name, content);
    RootRecordsHeld(g, image, name, content);
    NameFound(g, name);
    NumberPositive(g);
    hide Laid, HoldsDir, RecordsFrom, Find, RootRecords, IsName, Geometry.InodeNumber, HoldsInode, HoldsDirBlock, Doubled;
    assert fs.Valid();
    OneBlockDir(fs, EXT4_ROOT_INO, RootExtents(g), RootRecords(g, name));
    OneStep(fs, name, Directory(RootExtents(g), [RootRecords(g, name)]), EXT4_ROOT_INO, g.InodeNumber());
  }

  lemma OneStep(fs: Fs, name: seq<bv8>, dir: Directory, ino: nat, target: nat)
    requires IsName(name) && |name| <= 255 && HoldsDir(fs, ino, dir.es, dir.blocks)
    requires Find(RecordsFrom(dir.blocks, 0), name) == target != 0
    ensures HoldsPath(fs, ino, [name], [dir], target)
  {
    hide HoldsDir, RecordsFrom, Find, IsName;
    assert [name][1..] == [] && [dir][1..] == [];
    assert HoldsPath(fs, target, [], [], target);
  }

  // ---- The file ----

  // Extents that cover just the given blocks, each lying as far from the start as it is from the first.
  ghost predicate Consecutive(es: seq<Extent>, block: nat, n: nat, start: nat) {
    && (forall l: nat :: block <= l < block + n ==> PlacedBy(es, l, block, start))
    && forall e: Extent, l: nat :: e in es && e.Covers(l) ==> block <= l < block + n
  }

  ghost predicate PlacedBy(es: seq<Extent>, l: nat, block: nat, start: nat) {
    exists e: Extent :: e in es && PlacedAt(e, l, block, start)
  }

  predicate PlacedAt(e: Extent, l: nat, block: nat, start: nat) {
    e.Covers(l) && e.PhysOf(l) == start + (l - block)
  }

  lemma {:induction false} ExtentsConsecutive(block: nat, n: nat, start: nat)
    ensures Consecutive(Extents(block, n, start), block, n, start)
    decreases n
  {
    var es := Extents(block, n, start);
    if n > 32768 {
      var rest, first := Extents(block + 32768, n - 32768, start + 32768), Extent(block, 32768, start);
      ExtentsConsecutive(block + 32768, n - 32768, start + 32768);
      ExtentsUnfold(block, n, start);
      hide Extents;
      forall l: nat | block <= l < block + n ensures PlacedBy(es, l, block, start) {
        if l < block + 32768 {
          assert first in es && PlacedAt(first, l, block, start);
        } else {
          assert PlacedBy(rest, l, block + 32768, start + 32768);
          var e: Extent :| e in rest && PlacedAt(e, l, block + 32768, start + 32768);
          assert e in es && PlacedAt(e, l, block, start);
        }
      }
    } else if n > 0 {
      var only := Extent(block, n, start);
      forall l: nat | block <= l < block + n ensures PlacedBy(es, l, block, start) {
        assert only in es && PlacedAt(only, l, block, start);
      }
    }
  }

  lemma ExtentsUnfold(block: nat, n: nat, start: nat)
    requires n > 32768
    ensures Extents(block, n, start) ==
            [Extent(block, 32768, start)] + Extents(block + 32768, n - 32768, start + 32768)
  {
  }

  lemma {:induction false} ExtentsSorted(block: nat, n: nat, start: nat)
    requires block + n <= 0x2_0000 && start + n < 0x1_0000 * U32
    ensures |Extents(block, n, start)| <= n / 32768 + 1
    ensures SortedExtents(Extents(block, n, start), block, EXT_MAX_BLOCKS)
    decreases n
  {
    if n > 32768 {
      var es, rest := Extents(block, n, start), Extents(block + 32768, n - 32768, start + 32768);
      ExtentsSorted(block + 32768, n - 32768, start + 32768);
      ExtentsUnfold(block, n, start);
      hide Extents;
      forall i | 0 <= i < |es| ensures Storable(es[i]) && ExtentWithin(es[i], block, EXT_MAX_BLOCKS) {
        if i > 0 {
          assert es[i] == rest[i - 1];
          assert ExtentWithin(rest[i - 1], block + 32768, EXT_MAX_BLOCKS);
        }
      }
      forall i, j | 0 <= i < j < |es| ensures es[i].block + es[i].len <= es[j].block {
        assert es[j] == rest[j - 1];
        assert ExtentWithin(rest[j - 1], block + 32768, EXT_MAX_BLOCKS);
        if i > 0 {
          assert es[i] == rest[i - 1];
        }
      }
    }
  }

  // At most 128 MiB are at most 131072 blocks.
  lemma FewBlocks(length: nat, size: nat)
    requires length <= 0x800_0000 && size >= 1024
    ensures BlocksNeeded(length, size) <= 0x2_0000
  {
    PartsCounted(length + size - 1, size);
    var n := BlocksNeeded(length, size);
    hide Quotient;
    if n > 0x2_0000 {
      PartsOrdered(0x2_0001, n, size);
      PartsAtLeast(size);
      assert false;
    }
  }

  lemma PartsAtLeast(size: nat)
    requires size >= 1024
    ensures PartsEnd(0x2_0001, size) >= 0x800_0000 + size
  {
    MulMonotone(0x2_0000, 1024, size);
  }

  lemma FileInode(g: Geometry, image: seq<bv8>, name: seq<bv8>, content: seq<bv8>)
    requires Laid(g, image, name, content)
    ensures HoldsInode(MountedFs(g, image), g.InodeNumber(), |content|, FileExtents(g, content))
  {
    hide Laid, InodeBytes, Fs.Inode, Fs.InodeReadable, SortedExtents, Lies, Joined, Descriptors, Doubled, PartsEnd,
      Geometry.InodePlace, BlockSizeOf, RootRecords, AllStorable, Written, Superblock, Data, Extents, BlocksNeeded;
    LaidParts(g, image, name, content);
    GeometryValid(g, image);
    FewBlocks(|content|, g.BlockSize());
    ExtentsSorted(0, BlocksNeeded(|content|, g.BlockSize()), g.dataBlock);
    InodeFound(g, image, g.group, g.local, InodeBytes(|content|, FileExtents(g, content), g.inodeSize));
  }

  lemma GeometryValid(g: Geometry, image: seq<bv8>)
    requires g.Valid()
    ensures MountedFs(g, image).Valid() && g.dataBlock > 0
  {
    hide Doubled, BlockSizeOf, Geometry.InodeNumber;
    BlockSizes(g.log);
  }

  // A block of the data lies in its block of the image.
  lemma DataBlockLies(g: Geometry, image: seq<bv8>, data: seq<bv8>, n: nat, l: nat)
    requires Lies(image, PartsEnd(g.dataBlock, g.BlockSize()), data) && |data| == PartsEnd(n, g.BlockSize()) && l < n
    ensures PartsEnd(l + 1, g.BlockSize()) <= |data|
    ensures Lies(image, PartsEnd(g.dataBlock + l, g.BlockSize()), PartOf(data, g.BlockSize(), l))
  {
    hide Lies, PartsEnd, Doubled;
    var size := g.BlockSize();
    PartsOrdered(l + 1, n, size);
    PartsGrow(l, size);
    PartsAdd(g.dataBlock, l, size);
    LiesInside(image, PartsEnd(g.dataBlock, size), data, PartsEnd(l, size), PartsEnd(l + 1, size));
  }

  // A block of the data is what is wanted of it, and zeros.
  lemma PartOfData(content: seq<bv8>, size: nat, l: nat)
    requires size > 0 && PartsEnd(l + 1, size) <= |Data(content, size)| && PartsEnd(l, size) <= |content|
    ensures PartIn(content, size, l) <= PartOf(Data(content, size), size, l)
  {
    PartsGrow(l, size);
    hide PartsEnd, BlocksNeeded;
  }

  lemma PartHeld(g: Geometry, image: seq<bv8>, name: seq<bv8>, content: seq<bv8>, l: nat)
    requires Laid(g, image, name, content)
    ensures MountedFs(g, image).Valid() && HoldsPart(MountedFs(g, image), FileExtents(g, content), content, l)
  {
    hide Laid, InodeBytes, Lies, Joined, Descriptors, Doubled, PartsEnd, Data, Geometry.InodePlace, Geometry.InodeNumber, BlocksNeeded,
      Fs.Block, Fs.BlockReadable, Superblock, Written, PartIn, PartOf, BlockSizeOf, Extents, Geometry.Valid, Fs.Valid,
      RootRecords, AllStorable;
    LaidParts(g, image, name, content);
    GeometryValid(g, image);
    var fs, size := MountedFs(g, image), g.BlockSize();
    var n, es := BlocksNeeded(|content|, size), FileExtents(g, content);
    ExtentsConsecutive(0, n, g.dataBlock);
    if PartsEnd(l, size) <= |content| {
      if l < n {
        DataBlockLies(g, image, Data(content, size), n, l);
        BlockFound(g, image, g.dataBlock + l, PartOf(Data(content, size), size, l));
        PartOfData(content, size, l);
        assert PlacedBy(es, l, 0, g.dataBlock);
        var e: Extent :| e in es && PlacedAt(e, l, 0, g.dataBlock);
        assert e in es && PartAt(fs, e, l, PartIn(content, size, l));
      } else {
        NothingBeyond(content, size, l);
      }
    }
  }

  lemma NothingBeyond(content: seq<bv8>, size: nat, l: nat)
    requires size > 0 && BlocksNeeded(|content|, size) <= l && PartsEnd(l, size) <= |content|
    ensures PartIn(content, size, l) == []
  {
    PartsOrdered(BlocksNeeded(|content|, size), l, size);
    assert content <= Data(content, size);
    hide PartsEnd, Data, BlocksNeeded;
  }

  lemma FileHeld(g: Geometry, image: seq<bv8>, name: seq<bv8>, content: seq<bv8>)
    requires Laid(g, image, name, content)
    ensures HoldsFile(MountedFs(g, image), g.InodeNumber(), FileExtents(g, content), content)
  {
    FileInode(g, image, name, content);
    LaidParts(g, image, name, content);
    hide HoldsInode, HoldsPart, Laid, Lies, Superblock, Joined, Descriptors, InodeBytes, Written, Data, Geometry.InodePlace,
      Geometry.InodeNumber, Extents, BlocksNeeded, PartsEnd, Doubled;
    var fs := MountedFs(g, image);
    GeometryValid(g, image);
    forall l: nat ensures HoldsPart(fs, FileExtents(g, content), content, l) {
      PartHeld(g, image, name, content, l);
    }
  }

  // ---- Loading it ----

  /** In every image that has the parts in their places, whatever its geometry and whatever lies elsewhere,
      the path leads to the file, which can be loaded and has its content. */
  lemma LaidFileFound(g: Geometry, image: seq<bv8>, name: seq<bv8>, content: seq<bv8>, slashes: seq<nat>)
    requires Laid(g, image, name, content) && IsName(name) && |slashes| == 2
    ensures
      var path := Spelled([name], slashes);
      && HasExt4(image) && SuperblockSane(image[1024..1536]) && FsIn(image).PathFits(path)
      && FsIn(image).Loadable(FsIn(image).PathInode(path))
      && FsIn(image).IsContent(FsIn(image).PathInode(path), content)
  {
    hide Laid, HoldsPath, HoldsFile, Spelled, Fs.PathFits, Fs.PathInode, Fs.Loadable, Fs.IsContent, HasExt4, SuperblockSane,
      Lies, Superblock, Joined, Descriptors, InodeBytes, Written, Data, Geometry.InodePlace, Geometry.InodeNumber, Extents,
      BlocksNeeded, PartsEnd, Doubled, RootRecords, AllStorable, Geometry.Valid;
    LaidParts(g, image, name, content);
    MountedIs(g, image);
    PathHeld(g, image, name, content);
    FileHeld(g, image, name, content);
    HeldFileFound(MountedFs(g, image), [name], slashes, [Directory(RootExtents(g), [RootRecords(g, name)])],
                  g.InodeNumber(), FileExtents(g, content), content);
  }

  // Loading the file from a volume that holds the encryption of the image.
  method LoadLaid(luks: LuksVolume, ghost plain: seq<bv8>, ghost g: Geometry, name: seq<bv8>, ghost content: seq<bv8>,
                  slashes: seq<nat>)
    returns (buf: array?<bv8>, size: nat)
    requires Laid(g, plain, name, content) && IsName(name) && |slashes| == 2
    requires luks.Valid() && Encrypts(luks.ViewOf(), plain)
    modifies luks.decryptBuf
    ensures buf != null && size == |content| && buf.Length == size + 1 && buf[..size] == content && buf[size] == 0
  {
    hide Laid, View.Holds, View.Logical, Encrypts, Spelled, IsName, Fs.PathFits, Fs.PathInode, Fs.Loadable,
      Fs.IsContent, HasExt4, SuperblockSane, FlatContent, LuksVolume.Valid;
    LaidFileFound(g, plain, name, content, slashes);
    buf, size := ReadFileFromLuks(luks, plain, Spelled([name], slashes));
    SameContent(FsIn(plain), Spelled([name], slashes), buf[..size], content);
  }

  lemma SameContent(fs: Fs, path: seq<bv8>, a: seq<bv8>, b: seq<bv8>)
    requires fs.Valid() && fs.PathFits(path) && fs.Loadable(fs.PathInode(path))
    requires fs.IsContent(fs.PathInode(path), a) && fs.IsContent(fs.PathInode(path), b)
    ensures a == b
  {
    hide Fs.PathInode, Fs.IsContent, Fs.InodeReadable, Fs.InodeFits, Fs.FileReadable, Fs.WalkFits, Fs.Inode;
    OneContent(fs, fs.PathInode(path), a, b);
  }

  /** There and back: any content under any name, laid into an ext4 image of any geometry and encrypted in
      either mode into the payload of a device behind any header, comes back when the file is loaded by its
      path. */
  method FileComesBack(luks: LuksVolume, ghost cipher: SectorCipher, ghost header: seq<bv8>, ghost plain: seq<bv8>,
                       ghost g: Geometry, name: seq<bv8>, ghost content: seq<bv8>, slashes: seq<nat>)
    returns (buf: array?<bv8>, size: nat)
    requires Laid(g, plain, name, content) && IsName(name) && |slashes| == 2
    requires luks.Valid() && cipher.Valid() && |header| % 512 == 0 && luks.sectorSize % 16 == 0
    requires |plain| % luks.sectorSize == 0
    requires luks.ViewOf() == View(EncryptedDevice(cipher, plain, luks.sectorSize, header), |header| / 512,
                                   luks.sectorSize, cipher)
    modifies luks.decryptBuf
    ensures buf != null && size == |content| && buf.Length == size + 1 && buf[..size] == content && buf[size] == 0
  {
    hide Laid, EncryptedDevice, Encrypts, IsName, SectorCipher.Valid;
    EveryPlaintextEncrypts(cipher, plain, luks.sectorSize, header);
    buf, size := LoadLaid(luks, plain, g, name, content, slashes);
  }

  // ---- Writing an image ----

  datatype Piece = Piece(at: nat, bytes: seq<bv8>)

  predicate AllInside(pieces: seq<Piece>, n: nat) {
    forall i :: 0 <= i < |pieces| ==> pieces[i].at + |pieces[i].bytes| <= n
  }

  predicate Disjoint(p: Piece, q: Piece) {
    p.at + |p.bytes| <= q.at || q.at + |q.bytes| <= p.at
  }

  predicate AllApart(pieces: seq<Piece>) {
    forall i, j :: 0 <= i < j < |pieces| ==> Disjoint(pieces[i], pieces[j])
  }

  // So many zeros with the pieces put over them.
  function Assembled(n: nat, pieces: seq<Piece>): (r: seq<bv8>)
    requires AllInside(pieces, n)
    ensures |r| == n
  {
    if pieces == [] then Zeros(n)
    else
      var k := |pieces| - 1;
      var under, p := Assembled(n, pieces[..k]), pieces[k];
      under[..p.at] + p.bytes + under[p.at + |p.bytes|..]
  }

  lemma {:induction false} AssembledLies(n: nat, pieces: seq<Piece>, i: nat)
    requires AllInside(pieces, n) && AllApart(pieces) && i < |pieces|
    ensures Lies(Assembled(n, pieces), pieces[i].at, pieces[i].bytes)
    decreases |pieces|
  {
    var k := |pieces| - 1;
    var under, p := Assembled(n, pieces[..k]), pieces[k];
    if i < k {
      AssembledLies(n, pieces[..k], i);
      assert Disjoint(pieces[i], p);
      LiesBeside(under, pieces[i], p);
    }
  }

  lemma LiesBeside(under: seq<bv8>, q: Piece, p: Piece)
    requires Lies(under, q.at, q.bytes) && p.at + |p.bytes| <= |under| && Disjoint(q, p)
    ensures Lies(under[..p.at] + p.bytes + under[p.at + |p.bytes|..], q.at, q.bytes)
  {
    var all := under[..p.at] + p.bytes + under[p.at + |p.bytes|..];
    forall k | 0 <= k < |q.bytes| ensures all[q.at + k] == q.bytes[k] {
      assert under[q.at..q.at + |q.bytes|][k] == q.bytes[k];
    }
  }

  function Pieces(g: Geometry, name: seq<bv8>, content: seq<bv8>): (r: seq<Piece>)
    requires g.Valid() && |name| <= 255 && AllStorable(RootRecords(g, name)) && |FileExtents(g, content)| <= 4
    ensures |r| == 6
  {
    [Piece(1024, Superblock(g)),
     Piece(PartsEnd(g.first + 1, g.BlockSize()), Joined(Descriptors(g))),
     Piece(g.InodePlace(0, 1), InodeBytes(g.BlockSize(), RootExtents(g), g.inodeSize)),
     Piece(g.InodePlace(g.group, g.local), InodeBytes(|content|, FileExtents(g, content), g.inodeSize)),
     Piece(PartsEnd(g.rootBlock, g.BlockSize()), Written(RootRecords(g, name))),
     Piece(PartsEnd(g.dataBlock, g.BlockSize()), Data(content, g.BlockSize()))]
  }

  /** Every geometry that keeps its parts apart can be written. */
  lemma ImageLaid(g: Geometry, name: seq<bv8>, content: seq<bv8>, n: nat)
    requires g.Valid() && |name| <= 255 && AllStorable(RootRecords(g, name)) && |FileExtents(g, content)| <= 4
    requires 0 < |content| <= 0x800_0000 && n < U64
    requires AllInside(Pieces(g, name, content), n) && AllApart(Pieces(g, name, content))
    ensures Laid(g, Assembled(n, Pieces(g, name, content)), name, content)
  {
    hide Lies, Superblock, Joined, InodeBytes, Written, Data, PartsEnd, Geometry.InodePlace, Descriptors, AllStorable, Extents,
      Geometry.InodeNumber, Assembled, AllInside, AllApart, Geometry.Valid;
    var ps := Pieces(g, name, content);
    AssembledLies(n, ps, 0);
    AssembledLies(n, ps, 1);
    AssembledLies(n, ps, 2);
    AssembledLies(n, ps, 3);
    AssembledLies(n, ps, 4);
    AssembledLies(n, ps, 5);
  }

  // A small geometry of a given block size: everything in a row, one group of 16 inodes.
  function SmallGeometry(log: nat, wide: bool): Geometry {
    var first: nat := if log == 0 then 1 else 0;
    Geometry(log, first, 16, 128, 0, wide, [first + 2], 0, 11, first + 4, first + 5)
  }

  lemma SmallIsValid(log: nat, wide: bool, name: seq<bv8>, content: seq<bv8>)
    requires log <= 6 && |name| <= 255 && |content| <= 0x800_0000
    ensures
      var g := SmallGeometry(log, wide);
      g.Valid() && AllStorable(RootRecords(g, name)) && |FileExtents(g, content)| <= 4
  {
    var g := SmallGeometry(log, wide);
    RecordsFill(g, name);
    FewBlocks(|content|, g.BlockSize());
    FewExtents(0, BlocksNeeded(|content|, g.BlockSize()), g.dataBlock);
  }

  lemma {:induction false} FewExtents(block: nat, n: nat, start: nat)
    ensures 32768 * |Extents(block, n, start)| < n + 32768
    decreases n
  {
    if n > 32768 {
      FewExtents(block + 32768, n - 32768, start + 32768);
    }
  }

  // Where the parts of the small geometry are.
  lemma SmallPlaces(log: nat, wide: bool)
    requires log <= 6
    ensures
      var g, first := SmallGeometry(log, wide), if log == 0 then 1 else 0;
      var size := g.BlockSize();
      && PartsEnd(g.first + 1, size) == first * size + size && (first + 1) * size >= 2048
      && g.InodePlace(0, 1) == first * size + 2 * size + 128
      && g.InodePlace(g.group, g.local) == first * size + 2 * size + 1408
      && PartsEnd(g.rootBlock, size) == first * size + 4 * size
      && PartsEnd(g.dataBlock, size) == first * size + 5 * size
  {
    BlockSizes(log);
    if log > 0 {
      assert Doubled(log) == 2 * Doubled(log - 1);
    }
    hide Doubled, BlockSizeOf;
  }

  lemma SmallLengths(log: nat, wide: bool, name: seq<bv8>, content: seq<bv8>)
    requires log <= 6 && |name| <= 255
    requires
      var g := SmallGeometry(log, wide);
      g.Valid() && AllStorable(RootRecords(g, name)) && |FileExtents(g, content)| <= 4
    ensures
      var g := SmallGeometry(log, wide);
      var ps, size := Pieces(g, name, content), g.BlockSize();
      && |ps[0].bytes| == 512 && |ps[1].bytes| <= 64 && |ps[2].bytes| == 128 && |ps[3].bytes| == 128
      && |ps[4].bytes| == size && |ps[5].bytes| == PartsEnd(BlocksNeeded(|content|, size), size)
  {
    hide Doubled, BlockSizeOf, PartsEnd, Superblock, InodeBytes, Written, BlocksNeeded, Extents, Data, Joined,
      Geometry.Valid, Geometry.InodePlace, AllStorable, RootRecords, Geometry.InodeNumber;
    var g := SmallGeometry(log, wide);
    RecordsFill(g, name);
    JoinedLength(Descriptors(g), g.DescSize());
    OnePart(g.DescSize());
  }

  lemma OnePart(size: nat)
    ensures PartsEnd(1, size) == size
  {
  }

  // The parts of the small geometry follow one another.
  lemma SmallFits(log: nat, wide: bool, name: seq<bv8>, content: seq<bv8>)
    requires log <= 6 && |name| <= 255
    requires
      var g := SmallGeometry(log, wide);
      g.Valid() && AllStorable(RootRecords(g, name)) && |FileExtents(g, content)| <= 4
    ensures
      var g := SmallGeometry(log, wide);
      var ps, size := Pieces(g, name, content), g.BlockSize();
      AllInside(ps, PartsEnd(g.dataBlock + BlocksNeeded(|content|, size), size)) && AllApart(ps)
  {
    hide Doubled, BlockSizeOf, PartsEnd, Superblock, InodeBytes, Written, BlocksNeeded, Extents, Data, Joined, Descriptors,
      Geometry.Valid, Geometry.InodePlace, AllStorable, RootRecords, Geometry.InodeNumber;
    var g := SmallGeometry(log, wide);
    SmallPlaces(log, wide);
    SmallLengths(log, wide, name, content);
    PartsAdd(g.dataBlock, BlocksNeeded(|content|, g.BlockSize()), g.BlockSize());
    PiecesInOrder(Pieces(g, name, content), PartsEnd(g.dataBlock + BlocksNeeded(|content|, g.BlockSize()), g.BlockSize()));
  }

  lemma PiecesInOrder(ps: seq<Piece>, n: nat)
    requires |ps| == 6 && ps[5].at + |ps[5].bytes| <= n
    requires ps[0].at + |ps[0].bytes| <= ps[1].at && ps[1].at + |ps[1].bytes| <= ps[2].at
    requires ps[2].at + |ps[2].bytes| <= ps[3].at && ps[3].at + |ps[3].bytes| <= ps[4].at
    requires ps[4].at + |ps[4].bytes| <= ps[5].at
    ensures AllInside(ps, n) && AllApart(ps)
  {
  }

  /** So there are images of every block size, with narrow and with wide descriptors, that hold any content
      under any name. */
  lemma SomeImage(log: nat, wide: bool, name: seq<bv8>, content: seq<bv8>) returns (g: Geometry, image: seq<bv8>)
    requires log <= 6 && |name| <= 255 && 0 < |content| <= 0x800_0000
    ensures g.log == log && g.wide == wide && Laid(g, image, name, content) && |image| % g.BlockSize() == 0
  {
    hide Doubled, BlockSizeOf, PartsEnd, BlocksNeeded, Extents, Laid, Assembled, AllInside, AllApart, Pieces,
      Geometry.Valid, AllStorable, RootRecords;
    g := SmallGeometry(log, wide);
    var size, blocks := g.BlockSize(), BlocksNeeded(|content|, g.BlockSize());
    BlockSizes(log);
    SmallIsValid(log, wide, name, content);
    SmallFits(log, wide, name, content);
    FewBlocks(|content|, size);
    SmallEnough(g.dataBlock + blocks, size);
    var n := PartsEnd(g.dataBlock + blocks, size);
    image := Assembled(n, Pieces(g, name, content));
    ImageLaid(g, name, content, n);
    DivModUnique(n, size, g.dataBlock + blocks, 0);
  }

  lemma SmallEnough(n: nat, size: nat)
    requires n <= 0x10_0000 && size <= 0x1_0000
    ensures PartsEnd(n, size) < U64 && PartsEnd(n, size) == size * n
  {
    MulMonotone(size, n, 0x10_0000);
    MulMonotone(0x10_0000, size, 0x1_0000);
  }
}
