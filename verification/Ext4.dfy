/** An ext4 volume as a value: inodes, extent trees, file contents, directories and paths, each a
    function of the bytes of the image. */
module Ext4 {
  import opened Bytes

  const EXT4_SUPER_MAGIC: nat := 0xEF53
  const EXT4_ROOT_INO: nat := 2
  const EXT4_EXTENTS_FL: nat := 0x0008_0000
  const EXT4_EXTENT_HEADER_MAGIC: nat := 0xF30A
  const EXT4_FEATURE_INCOMPAT_64BIT: nat := 0x80
  // ext4's own bound on logical block numbers
  const EXT_MAX_BLOCKS: nat := 0xFFFF_FFFF
  const MAX_FILE_SIZE: nat := 128 * 1024 * 1024
  const SLASH: bv8 := 47

  function R16(b: seq<bv8>, off: nat): (r: nat)
    requires off + 2 <= |b|
    ensures r < 0x1_0000
  {
    b[off] as nat + 0x100 * b[off + 1] as nat
  }

  function R32(b: seq<bv8>, off: nat): (r: nat)
    requires off + 4 <= |b|
    ensures r < U32
  {
    R16(b, off) + 0x1_0000 * R16(b, off + 2)
  }

  // The offset of one of several equal slots from a base on.
  function Slot(base: nat, index: nat, size: nat): nat {
    base + index * size
  }

  predicate BitSet(flags: nat, bit: nat)
    requires bit > 0
  {
    flags / bit % 2 == 1
  }

  // ---- Extents ----

  datatype Extent = Extent(block: nat, len: nat, start: nat) {
    predicate Covers(l: nat) {
      block <= l < block + len
    }

    function PhysOf(l: nat): nat
      requires Covers(l)
    {
      start + (l - block)
    }
  }

  // A node of an extent tree: a header and entries of 12 bytes each.
  predicate NodeFits(node: seq<bv8>) {
    |node| >= 12 && 12 + 12 * R16(node, 2) <= |node|
  }

  predicate IsNode(node: seq<bv8>) {
    NodeFits(node) && R16(node, 0) == EXT4_EXTENT_HEADER_MAGIC
  }

  function Entries(node: seq<bv8>): (r: nat)
    requires NodeFits(node)
    ensures 12 + 12 * r <= |node|
  {
    R16(node, 2)
  }

  function Depth(node: seq<bv8>): nat
    requires NodeFits(node)
  {
    R16(node, 6)
  }

  function IndexKey(node: seq<bv8>, i: nat): nat
    requires NodeFits(node) && i < Entries(node)
  {
    R32(node, 12 + 12 * i)
  }

  function IndexChild(node: seq<bv8>, i: nat): nat
    requires NodeFits(node) && i < Entries(node)
  {
    R32(node, 12 + 12 * i + 4) + R16(node, 12 + 12 * i + 8) * U32
  }

  function LeafEntry(node: seq<bv8>, i: nat): (e: Extent)
    requires NodeFits(node) && i < Entries(node)
    ensures e.block < U32 && e.len < 0x1_0000
  {
    Extent(R32(node, 12 + 12 * i), R16(node, 12 + 12 * i + 4),
           R32(node, 12 + 12 * i + 8) + R16(node, 12 + 12 * i + 6) * U32)
  }

  // What the code takes an entry to cover: the end of the extent is a 32-bit number.
  predicate SeemsToCover(e: Extent, l: nat) {
    e.block <= l < (e.block + e.len) % U32
  }

  /** The wrapped end makes a difference exactly for extents that reach block 2^32. */
  lemma EndWraps(e: Extent)
    requires e.block < U32 && e.len < 0x1_0000
    ensures (forall l: nat :: SeemsToCover(e, l) == e.Covers(l)) <==> e.block + e.len < U32
  {
    if e.block + e.len >= U32 {
      assert e.Covers(e.block) && !SeemsToCover(e, e.block);
    }
  }

  // The first entry from i on that seems to cover the block gives its place, and 0 is a hole.
  function LeafScan(node: seq<bv8>, l: nat, i: nat): nat
    requires NodeFits(node) && i <= Entries(node)
    decreases Entries(node) - i
  {
    if i == Entries(node) then 0
    else if SeemsToCover(LeafEntry(node, i), l) then LeafEntry(node, i).start + (l - LeafEntry(node, i).block)
    else LeafScan(node, l, i + 1)
  }

  // The number of entries before the first key above the block, those before i being below it.
  function KeysUpTo(node: seq<bv8>, l: nat, i: nat): (r: nat)
    requires NodeFits(node) && i <= Entries(node)
    ensures i <= r <= Entries(node)
    decreases Entries(node) - i
  {
    if i == Entries(node) || IndexKey(node, i) > l then i else KeysUpTo(node, l, i + 1)
  }

  // The extents of a leaf, in order.
  function LeafExtents(node: seq<bv8>): (r: seq<Extent>)
    requires NodeFits(node)
    ensures |r| == Entries(node) && forall i :: 0 <= i < |r| ==> r[i] == LeafEntry(node, i)
  {
    seq(Entries(node), i requires 0 <= i < Entries(node) => LeafEntry(node, i))
  }

  // A leaf whose extents are sorted, do not overlap and lie between two block numbers.
  ghost predicate LeafOk(node: seq<bv8>, from: nat, end: nat) {
    && IsNode(node) && Depth(node) == 0 && end <= EXT_MAX_BLOCKS
    && (forall i :: 0 <= i < Entries(node) ==> ExtentWithin(LeafEntry(node, i), from, end))
    && (forall i, j :: 0 <= i < j < Entries(node) ==>
          LeafEntry(node, i).block + LeafEntry(node, i).len <= LeafEntry(node, j).block)
  }

  predicate ExtentWithin(e: Extent, from: nat, end: nat) {
    from <= e.block && e.block + e.len <= end
  }

  /** In a sorted leaf the scan finds the place of the block by the one extent that covers it. */
  lemma {:induction false} LeafScanFinds(node: seq<bv8>, l: nat, i: nat, from: nat, end: nat)
    requires LeafOk(node, from, end) && i <= Entries(node)
    ensures forall j :: i <= j < Entries(node) && LeafEntry(node, j).Covers(l) ==>
      LeafScan(node, l, i) == LeafEntry(node, j).PhysOf(l)
    ensures (forall j :: i <= j < Entries(node) ==> !LeafEntry(node, j).Covers(l)) ==> LeafScan(node, l, i) == 0
    decreases Entries(node) - i
  {
    hide LeafEntry, Entries, NodeFits, Depth;
    if i < Entries(node) {
      LeafScanFinds(node, l, i + 1, from, end);
      assert ExtentWithin(LeafEntry(node, i), from, end);
      assert SeemsToCover(LeafEntry(node, i), l) == LeafEntry(node, i).Covers(l);
    }
  }

  // ---- The volume ----

  datatype Fs = Fs(image: seq<bv8>, blockSize: nat, inodesPerGroup: nat, inodeSize: nat, bgdtOff: nat, descSize: nat) {
    predicate Valid() {
      && 1024 <= blockSize <= 0x1_0000 && inodesPerGroup >= 1
      && 128 <= inodeSize < 0x1_0000 && (descSize == 32 || descSize == 64)
    }

    // A range of the image, when it lies inside.
    predicate Inside(off: nat, count: nat) {
      off + count <= |image|
    }

    function Range(off: nat, count: nat): (r: seq<bv8>)
      requires Inside(off, count)
      ensures |r| == count
    {
      image[off..off + count]
    }

    // Where a block begins, in 64-bit arithmetic.
    function BlockAt(block: nat): nat {
      Slot(0, block, blockSize) % U64
    }

    predicate BlockReadable(block: nat) {
      Inside(BlockAt(block), blockSize)
    }

    function Block(block: nat): (r: seq<bv8>)
      requires BlockReadable(block)
      ensures |r| == blockSize
    {
      Range(BlockAt(block), blockSize)
    }

    // ---- Inodes ----

    function DescAt(ino: nat): nat
      requires Valid() && ino != 0
    {
      Slot(bgdtOff, Quotient(ino - 1, inodesPerGroup), descSize)
    }

    function TableOf(desc: seq<bv8>): nat
      requires Valid() && |desc| == descSize
    {
      R32(desc, 8) + (if descSize >= 64 then R32(desc, 40) else 0) * U32
    }

    function InodeAt(ino: nat): nat
      requires Valid() && ino != 0 && Inside(DescAt(ino), descSize)
    {
      Slot(Slot(0, TableOf(Range(DescAt(ino), descSize)), blockSize), PlaceInGroup(ino), inodeSize) % U64
    }

    // How many inodes of its group come before.
    function PlaceInGroup(ino: nat): nat
      requires Valid() && ino != 0
    {
      (ino - 1) % inodesPerGroup
    }

    predicate InodeReadable(ino: nat)
      requires Valid()
    {
      ino != 0 && Inside(DescAt(ino), descSize) && Inside(InodeAt(ino), inodeSize)
    }

    function Inode(ino: nat): (r: seq<bv8>)
      requires Valid() && InodeReadable(ino)
      ensures |r| == inodeSize
    {
      Range(InodeAt(ino), inodeSize)
    }

    // ---- Extent trees ----

    // Where the code finds a logical block: 0 for a hole.
    function ExtentPhys(root: seq<bv8>, l: nat): nat
      requires TreeFits(root)
    {
      if R16(root, 0) != EXT4_EXTENT_HEADER_MAGIC then 0
      else if Depth(root) == 0 then LeafScan(root, l, 0)
      else
        var n := KeysUpTo(root, l, 0);
        if n == 0 then 0
        else
          assert ChildFits(IndexChild(root, n - 1));
          ChildScan(IndexChild(root, n - 1), l)
    }

    function ChildScan(child: nat, l: nat): nat
      requires ChildFits(child)
    {
      if !BlockReadable(child) || R16(Block(child), 0) != EXT4_EXTENT_HEADER_MAGIC then 0
      else LeafScan(Block(child), l, 0)
    }

    // No header claims more entries than its node has room for.
    predicate ChildFits(child: nat) {
      BlockReadable(child) ==>
        |Block(child)| >= 12 && (R16(Block(child), 0) == EXT4_EXTENT_HEADER_MAGIC ==> NodeFits(Block(child)))
    }

    predicate TreeFits(root: seq<bv8>) {
      && |root| >= 12
      && (R16(root, 0) == EXT4_EXTENT_HEADER_MAGIC ==> NodeFits(root))
      && (IsNode(root) && Depth(root) > 0 ==> forall i :: 0 <= i < Entries(root) ==> ChildFits(IndexChild(root, i)))
    }

    // A tree of depth 0 or 1 with sorted keys, the extents of each leaf lying between its key and
    // the next.
    ghost predicate TreeOk(root: seq<bv8>) {
      IsNode(root) &&
      if Depth(root) == 0 then LeafOk(root, 0, EXT_MAX_BLOCKS)
      else
        && Depth(root) == 1
        && (forall i, j :: 0 <= i < j < Entries(root) ==> IndexKey(root, i) < IndexKey(root, j))
        && (forall i :: 0 <= i < Entries(root) ==> ChildOk(root, i))
    }

    ghost predicate ChildOk(root: seq<bv8>, i: nat)
      requires NodeFits(root) && i < Entries(root)
    {
      BlockReadable(IndexChild(root, i)) && LeafOk(Block(IndexChild(root, i)), IndexKey(root, i), NextKey(root, i))
    }

    ghost function NextKey(root: seq<bv8>, i: nat): nat
      requires NodeFits(root) && i < Entries(root)
    {
      if i + 1 < Entries(root) then IndexKey(root, i + 1) else EXT_MAX_BLOCKS
    }

    // All extents of the tree: the flat map of the file.
    ghost predicate HasExtent(root: seq<bv8>, e: Extent)
      requires TreeOk(root)
    {
      if Depth(root) == 0 then e in LeafExtents(root)
      else exists i :: 0 <= i < Entries(root) && InChild(root, i, e)
    }

    ghost predicate InChild(root: seq<bv8>, i: nat, e: Extent)
      requires TreeOk(root) && Depth(root) == 1 && i < Entries(root)
    {
      assert ChildOk(root, i);
      e in LeafExtents(Block(IndexChild(root, i)))
    }

    lemma TreeOkFits(root: seq<bv8>)
      requires TreeOk(root)
      ensures TreeFits(root)
    {
      hide R16, R32, LeafOk, Range;
      if Depth(root) > 0 {
        forall i | 0 <= i < Entries(root) ensures ChildFits(IndexChild(root, i)) {
          assert ChildOk(root, i);
          LeafIsNode(Block(IndexChild(root, i)), IndexKey(root, i), NextKey(root, i));
        }
      }
    }

    /** Looking up the index and then the leaf is looking up the flat map: the block lies where the one
        extent that covers it says, wherever in the tree that is, and is a hole if there is none. */
    lemma LookupIsFlat(root: seq<bv8>, l: nat)
      requires TreeOk(root)
      ensures TreeFits(root)
      ensures forall e: Extent :: HasExtent(root, e) && e.Covers(l) ==> ExtentPhys(root, l) == e.PhysOf(l)
      ensures (forall e: Extent :: HasExtent(root, e) ==> !e.Covers(l)) ==> ExtentPhys(root, l) == 0
    {
      hide R16, R32, LeafScan, KeysUpTo, LeafEntry, IndexKey, IndexChild, Block;
      TreeOkFits(root);
      if Depth(root) == 0 {
        LeafIsFlat(root, l, 0, EXT_MAX_BLOCKS);
      } else {
        LookupInIndex(root, l);
      }
    }

    lemma LookupInIndex(root: seq<bv8>, l: nat)
      requires TreeOk(root) && Depth(root) == 1 && TreeFits(root)
      ensures forall e: Extent :: HasExtent(root, e) && e.Covers(l) ==> ExtentPhys(root, l) == e.PhysOf(l)
      ensures (forall e: Extent :: HasExtent(root, e) ==> !e.Covers(l)) ==> ExtentPhys(root, l) == 0
    {
      hide R16, R32, LeafScan, KeysUpTo, LeafEntry, IndexKey, IndexChild, Block, LeafOk;
      var n := KeysUpTo(root, l, 0);
      forall i, e: Extent | 0 <= i < Entries(root) && InChild(root, i, e) && e.Covers(l) ensures n == i + 1 {
        RightChild(root, l, i, e);
      }
      if n > 0 {
        ChildIsFlat(root, l, n - 1);
      }
    }

    // Only the child that the index leads to can hold an extent that covers the block.
    lemma RightChild(root: seq<bv8>, l: nat, i: nat, e: Extent)
      requires TreeOk(root) && Depth(root) == 1 && i < Entries(root) && InChild(root, i, e) && e.Covers(l)
      ensures KeysUpTo(root, l, 0) == i + 1
    {
      hide R16, R32, KeysUpTo, LeafEntry, IndexKey, IndexChild, Block, Entries, NodeFits;
      KeysBelow(root, l, 0);
      assert ChildOk(root, i);
      var node := Block(IndexChild(root, i));
      var j :| 0 <= j < |LeafExtents(node)| && LeafExtents(node)[j] == e;
      assert ExtentWithin(LeafEntry(node, j), IndexKey(root, i), NextKey(root, i));
    }

    lemma ChildIsFlat(root: seq<bv8>, l: nat, i: nat)
      requires TreeOk(root) && Depth(root) == 1 && i < Entries(root)
      ensures ChildFits(IndexChild(root, i))
      ensures forall e: Extent :: InChild(root, i, e) && e.Covers(l) ==> ChildScan(IndexChild(root, i), l) == e.PhysOf(l)
      ensures (forall e: Extent :: InChild(root, i, e) ==> !e.Covers(l)) ==> ChildScan(IndexChild(root, i), l) == 0
    {
      hide R16, R32, LeafScan, KeysUpTo, LeafEntry, IndexKey, IndexChild, Block, LeafOk;
      assert ChildOk(root, i);
      var node := Block(IndexChild(root, i));
      LeafIsNode(node, IndexKey(root, i), NextKey(root, i));
      LeafIsFlat(node, l, IndexKey(root, i), NextKey(root, i));
    }

    // ---- Files ----

    predicate UsesExtents(inode: seq<bv8>)
      requires |inode| >= 128
    {
      BitSet(R32(inode, 32), EXT4_EXTENTS_FL)
    }

    predicate InodeFits(inode: seq<bv8>) {
      |inode| >= 128 && (UsesExtents(inode) ==> TreeFits(inode[40..100]))
    }

    function PhysOf(inode: seq<bv8>, l: nat): nat
      requires InodeFits(inode)
    {
      if UsesExtents(inode) then ExtentPhys(inode[40..100], l)
      else if l < 12 then R32(inode, 40 + 4 * l)
      else 0
    }

    predicate LblockReadable(inode: seq<bv8>, l: nat)
      requires InodeFits(inode)
    {
      PhysOf(inode, l) == 0 || BlockReadable(PhysOf(inode, l))
    }

    function Lblock(inode: seq<bv8>, l: nat): (r: seq<bv8>)
      requires InodeFits(inode) && LblockReadable(inode, l)
      ensures |r| == blockSize
    {
      if PhysOf(inode, l) == 0 then Zeros(blockSize) else Block(PhysOf(inode, l))
    }

    // The block of a byte of a file, and the byte's place in it.
    function BlockOf(k: nat): nat
      requires Valid()
    {
      Quotient(k, blockSize)
    }

    function OffsetOf(k: nat): (r: nat)
      requires Valid()
      ensures r < blockSize
    {
      k % blockSize
    }

    // The blocks of so many bytes.
    function BlocksOf(size: nat): nat
      requires Valid()
    {
      Quotient(size + blockSize - 1, blockSize)
    }

    function FileByte(inode: seq<bv8>, k: nat): bv8
      requires Valid() && InodeFits(inode) && LblockReadable(inode, BlockOf(k))
    {
      hide PhysOf, BlockOf, OffsetOf;
      Lblock(inode, BlockOf(k))[OffsetOf(k)]
    }

    // The byte at a place in a physical block, where block 0 stands for a hole.
    predicate FlatAt(phys: nat, offset: nat, b: bv8)
      requires Valid() && offset < blockSize
    {
      if phys == 0 then b == 0 else BlockReadable(phys) && b == Block(phys)[offset]
    }

    /** A byte of a file lies where the flat map of its extents says, and is zero in a hole; a block that
        the map puts at block 0 is a hole too. */
    lemma FileByteIsFlat(inode: seq<bv8>, k: nat)
      requires Valid() && |inode| >= 128 && UsesExtents(inode) && TreeOk(inode[40..100])
      ensures InodeFits(inode)
      ensures forall e: Extent :: HasExtent(inode[40..100], e) && e.Covers(BlockOf(k)) ==>
        var phys := e.PhysOf(BlockOf(k));
        && (LblockReadable(inode, BlockOf(k)) <==> phys == 0 || BlockReadable(phys))
        && (LblockReadable(inode, BlockOf(k)) ==> FlatAt(phys, OffsetOf(k), FileByte(inode, k)))
      ensures (forall e: Extent :: HasExtent(inode[40..100], e) ==> !e.Covers(BlockOf(k))) ==>
        LblockReadable(inode, BlockOf(k)) && FileByte(inode, k) == 0
    {
      hide R16, R32, Block, TreeOk, TreeFits, HasExtent, ExtentPhys, BlockReadable, BlockOf, OffsetOf;
      LookupIsFlat(inode[40..100], BlockOf(k));
    }

    // ---- Directories ----

    function DirSize(inode: seq<bv8>): (r: nat)
      requires |inode| >= 128
      ensures r < U32
    {
      R32(inode, 4)
    }

    // The bytes of a block that belong to the first size bytes of the file.
    function Limit(size: nat, blk: nat): (r: nat)
      requires Valid()
      ensures r <= blockSize
    {
      if Slot(0, blk + 1, blockSize) <= size then blockSize
      else if Slot(0, blk, blockSize) <= size then size - Slot(0, blk, blockSize)
      else 0
    }

    // Every name lies inside its block, and the size is not so near 2^32 that rounding it up to
    // whole blocks wraps.
    predicate DirFits(inode: seq<bv8>)
      requires Valid()
    {
      InodeFits(inode) && DirSize(inode) + blockSize - 1 < U32 &&
      forall blk: nat :: blk < BlocksOf(DirSize(inode)) ==> DirBlockFits(inode, blk)
    }

    predicate DirBlockFits(inode: seq<bv8>, blk: nat)
      requires Valid() && InodeFits(inode)
    {
      LblockReadable(inode, blk) ==> RecordsFit(Lblock(inode, blk), Limit(DirSize(inode), blk), 0)
    }

    // The records of a directory from a block on, up to a block that cannot be read.
    function DirRecords(inode: seq<bv8>, blk: nat): seq<Record>
      requires Valid() && DirFits(inode)
      decreases BlocksOf(DirSize(inode)) - blk
    {
      if blk >= BlocksOf(DirSize(inode)) || !LblockReadable(inode, blk) then []
      else
        assert DirBlockFits(inode, blk);
        Records(Lblock(inode, blk), Limit(DirSize(inode), blk), 0) + DirRecords(inode, blk + 1)
    }

    predicate DirReady(dir: nat)
      requires Valid()
    {
      InodeReadable(dir) ==> DirFits(Inode(dir))
    }

    // The inode a directory has under a name, 0 if none.
    function Lookup(dir: nat, name: seq<bv8>): nat
      requires Valid() && DirReady(dir)
    {
      if InodeReadable(dir) then Find(DirRecords(Inode(dir), 0), name) else 0
    }

    // ---- Paths ----

    // The directories on the way are well-formed, and no name is longer than the format allows.
    predicate WalkFits(ino: nat, names: seq<seq<bv8>>)
      requires Valid()
      decreases |names|
    {
      hide *;
      names == [] ||
      (|names[0]| <= 255 && DirReady(ino) &&
       (Lookup(ino, names[0]) != 0 ==> WalkFits(Lookup(ino, names[0]), names[1..])))
    }

    // One name after another.
    function Walk(ino: nat, names: seq<seq<bv8>>): nat
      requires Valid() && WalkFits(ino, names)
      decreases |names|
    {
      hide Lookup, DirReady;
      if names == [] then ino
      else if Lookup(ino, names[0]) == 0 then 0
      else Walk(Lookup(ino, names[0]), names[1..])
    }

    /** Looking up a path and then another from there is looking up the two as one. */
    lemma {:induction false} WalkOn(ino: nat, a: seq<seq<bv8>>, b: seq<seq<bv8>>)
      requires Valid() && ino != 0 && WalkFits(ino, a + b)
      ensures WalkFits(ino, a)
      ensures Walk(ino, a) != 0 ==> WalkFits(Walk(ino, a), b)
      ensures Walk(ino, a + b) == if Walk(ino, a) == 0 then 0 else Walk(Walk(ino, a), b)
      decreases |a|
    {
      hide DirReady, Lookup;
      if a == [] {
        assert a + b == b;
      } else {
        assert (a + b)[0] == a[0] && (a + b)[1..] == a[1..] + b;
        if Lookup(ino, a[0]) != 0 {
          WalkOn(Lookup(ino, a[0]), a[1..], b);
        }
      }
    }

    // ---- Whole files ----

    function FileSize(inode: seq<bv8>): nat
      requires |inode| >= 128
    {
      R32(inode, 4) + R32(inode, 108) * U32
    }

    predicate FileReadable(inode: seq<bv8>)
      requires Valid() && InodeFits(inode)
    {
      forall l: nat :: l < BlocksOf(FileSize(inode)) ==> LblockReadable(inode, l)
    }

    // A file that can be read whole: neither empty nor above the limit, all its blocks on the device.
    predicate Loadable(ino: nat)
      requires Valid() && (InodeReadable(ino) ==> InodeFits(Inode(ino)))
    {
      InodeReadable(ino) && 0 < FileSize(Inode(ino)) <= MAX_FILE_SIZE && FileReadable(Inode(ino))
    }

    // The content of a file, byte by byte.
    ghost predicate IsContent(ino: nat, content: seq<bv8>)
      requires Valid() && (InodeReadable(ino) ==> InodeFits(Inode(ino))) && Loadable(ino)
    {
      |content| == FileSize(Inode(ino)) && forall k :: 0 <= k < |content| ==> ByteAt(Inode(ino), k, content[k])
    }

    predicate ByteAt(inode: seq<bv8>, k: nat, b: bv8)
      requires Valid() && InodeFits(inode)
    {
      hide *;
      LblockReadable(inode, BlockOf(k)) && b == FileByte(inode, k)
    }

    // A byte of a file is the one that the flat map of its extents names, and zero in a hole.
    ghost predicate FlatByte(inode: seq<bv8>, k: nat, b: bv8)
      requires Valid() && |inode| >= 128 && TreeOk(inode[40..100])
    {
      && (forall e: Extent :: HasExtent(inode[40..100], e) && e.Covers(BlockOf(k)) ==>
            FlatAt(e.PhysOf(BlockOf(k)), OffsetOf(k), b))
      && ((forall e: Extent :: HasExtent(inode[40..100], e) ==> !e.Covers(BlockOf(k))) ==> b == 0)
    }

    /** What the reader calls the content of a file is, byte by byte, what the flat map of its extents
        says. */
    lemma ContentIsFlat(ino: nat, content: seq<bv8>)
      requires Valid() && InodeReadable(ino) && InodeFits(Inode(ino)) && Loadable(ino) && IsContent(ino, content)
      requires UsesExtents(Inode(ino)) && TreeOk(Inode(ino)[40..100])
      ensures forall k :: 0 <= k < |content| ==> FlatByte(Inode(ino), k, content[k])
    {
      hide TreeOk, Inode, InodeReadable, FlatByte, ByteAt, UsesExtents, InodeFits, Loadable;
      forall k | 0 <= k < |content| ensures FlatByte(Inode(ino), k, content[k]) {
        assert ByteAt(Inode(ino), k, content[k]);
        ByteIsFlat(Inode(ino), k, content[k]);
      }
    }

    lemma ByteIsFlat(inode: seq<bv8>, k: nat, b: bv8)
      requires Valid() && InodeFits(inode) && UsesExtents(inode) && TreeOk(inode[40..100]) && ByteAt(inode, k, b)
      ensures FlatByte(inode, k, b)
    {
      hide R16, R32, Block, TreeOk, TreeFits, HasExtent, ExtentPhys, BlockReadable, BlockOf, OffsetOf;
      LookupIsFlat(inode[40..100], BlockOf(k));
    }

    predicate PathFits(path: seq<bv8>)
      requires Valid()
    {
      && WalkFits(EXT4_ROOT_INO, Components(path))
      && (InodeReadable(PathInode(path)) ==> InodeFits(Inode(PathInode(path))))
    }

    function PathInode(path: seq<bv8>): nat
      requires Valid() && WalkFits(EXT4_ROOT_INO, Components(path))
    {
      Walk(EXT4_ROOT_INO, Components(path))
    }
  }

  // ---- The superblock ----

  // 1024 shifted left by so many bits.
  function BlockSizeOf(log: nat): (r: nat)
    requires log <= 6
    ensures 1024 <= r <= 0x1_0000
  {
    [1024, 2048, 4096, 8192, 16384, 32768, 65536][log]
  }

  predicate HasSuperblock(sb: seq<bv8>) {
    |sb| >= 512 && R16(sb, 56) == EXT4_SUPER_MAGIC
  }

  // Block sizes up to 64 KiB, and groups that hold inodes.
  predicate SuperblockSane(sb: seq<bv8>) {
    HasSuperblock(sb) ==> R32(sb, 24) <= 6 && R32(sb, 40) >= 1
  }

  function Mounted(image: seq<bv8>, sb: seq<bv8>): (fs: Fs)
    requires HasSuperblock(sb) && SuperblockSane(sb)
    ensures fs.Valid() && fs.image == image
  {
    hide R16, R32, BlockSizeOf, Slot;
    var blockSize := BlockSizeOf(R32(sb, 24));
    var inodeSize := if R16(sb, 88) < 128 then 128 else R16(sb, 88);
    var wide := BitSet(R32(sb, 96), EXT4_FEATURE_INCOMPAT_64BIT) && R16(sb, 254) >= 64;
    Fs(image, blockSize, R32(sb, 40), inodeSize, Slot(0, (R32(sb, 20) + 1) % U32, blockSize), if wide then 64 else 32)
  }

  // ---- Directory records ----

  datatype Record = Record(ino: nat, name: seq<bv8>) {
    // A record of inode 0 is deleted.
    predicate Is(wanted: seq<bv8>) {
      ino != 0 && name == wanted
    }
  }

  predicate RecordsFit(block: seq<bv8>, limit: nat, pos: nat)
    requires limit <= |block|
    decreases limit - pos
  {
    pos + 8 <= limit && R16(block, pos + 4) != 0 ==>
      && pos + 8 + block[pos + 6] as nat <= |block|
      && RecordsFit(block, limit, pos + R16(block, pos + 4))
  }

  function RecordAt(block: seq<bv8>, pos: nat): Record
    requires pos + 8 <= |block| && pos + 8 + block[pos + 6] as nat <= |block|
  {
    Record(R32(block, pos), block[pos + 8..pos + 8 + block[pos + 6] as nat])
  }

  // The records from a position on, each leading to the next, up to an empty one.
  function Records(block: seq<bv8>, limit: nat, pos: nat): seq<Record>
    requires limit <= |block| && RecordsFit(block, limit, pos)
    decreases limit - pos
  {
    if pos + 8 > limit || R16(block, pos + 4) == 0 then []
    else [RecordAt(block, pos)] + Records(block, limit, pos + R16(block, pos + 4))
  }

  function Find(records: seq<Record>, name: seq<bv8>): nat {
    if records == [] then 0
    else if records[0].Is(name) then records[0].ino
    else Find(records[1..], name)
  }

  predicate FirstAt(records: seq<Record>, name: seq<bv8>, i: nat)
    requires i < |records|
  {
    records[i].Is(name) && forall j :: 0 <= j < i ==> !records[j].Is(name)
  }

  /** The result is the inode of the first live record of that name, and 0 only if there is none. */
  lemma {:induction false} FindIsFirst(records: seq<Record>, name: seq<bv8>)
    ensures Find(records, name) == 0 <==> forall i :: 0 <= i < |records| ==> !records[i].Is(name)
    ensures forall i :: 0 <= i < |records| && FirstAt(records, name, i) ==> Find(records, name) == records[i].ino
  {
    if records != [] && !records[0].Is(name) {
      var rest := records[1..];
      FindIsFirst(rest, name);
      if forall i :: 0 <= i < |rest| ==> !rest[i].Is(name) {
        forall i | 0 <= i < |records| ensures !records[i].Is(name) {
          assert i > 0 ==> records[i] == rest[i - 1];
        }
      }
      forall i | 0 <= i < |records| && FirstAt(records, name, i) ensures Find(records, name) == records[i].ino
      {
        assert rest[i - 1] == records[i];
        forall j | 0 <= j < i - 1 ensures !rest[j].Is(name) {
          assert rest[j] == records[j + 1];
        }
      }
    }
  }

  lemma {:induction false} FindInFirst(a: seq<Record>, b: seq<Record>, name: seq<bv8>)
    ensures Find(a + b, name) == if Find(a, name) != 0 then Find(a, name) else Find(b, name)
  {
    if a == [] {
      assert a + b == b;
    } else {
      assert (a + b)[0] == a[0] && (a + b)[1..] == a[1..] + b;
      FindInFirst(a[1..], b, name);
    }
  }

  // ---- Path components ----

  // The length of the name a path starts with.
  function NameLength(path: seq<bv8>): (r: nat)
    ensures r <= |path|
    ensures forall i :: 0 <= i < r ==> path[i] != SLASH
    ensures r < |path| ==> path[r] == SLASH
    ensures path != [] && path[0] != SLASH ==> r > 0
  {
    if path == [] || path[0] == SLASH then 0 else 1 + NameLength(path[1..])
  }

  // The nonempty names between the slashes.
  function Components(path: seq<bv8>): seq<seq<bv8>>
    decreases |path|
  {
    if path == [] then []
    else if path[0] == SLASH then Components(path[1..])
    else [path[..NameLength(path)]] + Components(path[NameLength(path)..])
  }

  predicate IsName(name: seq<bv8>) {
    name != [] && SLASH !in name
  }

  // A path with so many slashes before each name and at the end.
  function Spelled(names: seq<seq<bv8>>, slashes: seq<nat>): seq<bv8>
    requires |slashes| == |names| + 1
  {
    if names == [] then Slashes(slashes[0])
    else Slashes(slashes[0]) + names[0] + Spelled(names[1..], slashes[1..])
  }

  function Slashes(n: nat): (r: seq<bv8>)
    ensures |r| == n && forall i :: 0 <= i < n ==> r[i] == 0x2F
  {
    seq(n, _ => 0x2F)
  }

  /** However many slashes separate the names, and however many stand at the ends, the components of
      the path are the names. */
  lemma {:induction false} ComponentsOfSpelled(names: seq<seq<bv8>>, slashes: seq<nat>)
    requires |slashes| == |names| + 1
    requires forall i :: 0 <= i < |names| ==> IsName(names[i])
    requires forall i :: 0 < i < |names| ==> slashes[i] > 0
    ensures Components(Spelled(names, slashes)) == names
  {
    if names == [] {
      SlashesSkipped(slashes[0], []);
      assert Slashes(slashes[0]) + [] == Slashes(slashes[0]);
    } else {
      var rest := Spelled(names[1..], slashes[1..]);
      ComponentsOfSpelled(names[1..], slashes[1..]);
      assert rest != [] ==> rest[0] == SLASH by {
        if slashes[1] == 0 {
          assert |names| == 1;
        }
      }
      NameFirst(names[0], rest);
      SlashesSkipped(slashes[0], names[0] + rest);
      assert Slashes(slashes[0]) + names[0] + rest == Slashes(slashes[0]) + (names[0] + rest);
      assert [names[0]] + names[1..] == names;
    }
  }

  lemma {:induction false} SlashesSkipped(n: nat, path: seq<bv8>)
    ensures Components(Slashes(n) + path) == Components(path)
  {
    if n == 0 {
      assert Slashes(n) + path == path;
    } else {
      assert (Slashes(n) + path)[1..] == Slashes(n - 1) + path;
      SlashesSkipped(n - 1, path);
    }
  }

  lemma NameFirst(name: seq<bv8>, rest: seq<bv8>)
    requires IsName(name) && (rest != [] ==> rest[0] == SLASH)
    ensures Components(name + rest) == [name] + Components(rest)
  {
    var path := name + rest;
    NameEnds(path, |name|);
    assert path[..|name|] == name && path[|name|..] == rest;
  }

  lemma NameEnds(path: seq<bv8>, n: nat)
    requires n <= |path| && (forall i :: 0 <= i < n ==> path[i] != SLASH) && (n < |path| ==> path[n] == SLASH)
    ensures NameLength(path) == n
  {
  }

  // The keys before the place the index search stops at are at most the block, the next is above.
  lemma {:induction false} KeysBelow(node: seq<bv8>, l: nat, i: nat)
    requires NodeFits(node) && i <= Entries(node)
    ensures
      var n := KeysUpTo(node, l, i);
      && (forall j :: i <= j < n ==> IndexKey(node, j) <= l)
      && (n < Entries(node) ==> IndexKey(node, n) > l)
    decreases Entries(node) - i
  {
    hide IndexKey, Entries, NodeFits;
    if i < Entries(node) && IndexKey(node, i) <= l {
      KeysBelow(node, l, i + 1);
    }
  }

  lemma LeafIsNode(node: seq<bv8>, from: nat, end: nat)
    requires LeafOk(node, from, end)
    ensures IsNode(node)
  {
  }

  // The same about the list of a leaf's extents.
  lemma LeafIsFlat(node: seq<bv8>, l: nat, from: nat, end: nat)
    requires LeafOk(node, from, end)
    ensures forall e :: e in LeafExtents(node) && e.Covers(l) ==> LeafScan(node, l, 0) == e.PhysOf(l)
    ensures (forall e :: e in LeafExtents(node) ==> !e.Covers(l)) ==> LeafScan(node, l, 0) == 0
  {
    hide LeafEntry, LeafScan, NodeFits, Entries;
    LeafScanFinds(node, l, 0, from, end);
    if forall e :: e in LeafExtents(node) ==> !e.Covers(l) {
      forall j | 0 <= j < Entries(node) ensures !LeafEntry(node, j).Covers(l) {
        assert LeafExtents(node)[j] in LeafExtents(node);
      }
    }
  }
}
