/** Files and directories written into an ext4 image, and the proof that they are read back by path. */
module Ext4Image {
  import opened Bytes
  import opened Ext4
  import opened Ext4Layout

  // ---- Inodes ----

  // The root node of an extent tree of depth 0 inside an inode.
  function RootBytes(es: seq<Extent>): (r: seq<bv8>)
    requires |es| <= 4
    ensures |r| == 60 && LeafNode(es) <= r
  {
    LeafNode(es) + Zeros(48 - 12 * |es|)
  }

  function InodeBytes(size: nat, es: seq<Extent>, inodeSize: nat): (r: seq<bv8>)
    requires |es| <= 4 && inodeSize >= 128
    ensures |r| == inodeSize
  {
    InodeFront(size, 0x0008_0000) + RootBytes(es) + InodeBack(size, inodeSize)
  }

  function InodeFront(size: nat, flags: nat): (r: seq<bv8>)
    ensures |r| == 40
  {
    Zeros(4) + LittleEndian(size % U32, 4) + Zeros(24) + LittleEndian(flags, 4) + Zeros(4)
  }

  function InodeBack(size: nat, inodeSize: nat): (r: seq<bv8>)
    requires inodeSize >= 128
    ensures |r| == inodeSize - 100
  {
    Zeros(8) + LittleEndian(size / U32, 4) + Zeros(inodeSize - 112)
  }

  lemma InodeFields(size: nat, es: seq<Extent>, inodeSize: nat)
    requires |es| <= 4 && inodeSize >= 128 && size < U32 * U32
    ensures
      var b := InodeBytes(size, es, inodeSize);
      && R32(b, 4) == size % U32 && R32(b, 108) == size / U32 && R32(b, 32) == EXT4_EXTENTS_FL
      && b[40..100] == RootBytes(es)
  {
    hide R16, R32, LittleEndian, RootBytes;
    var b, front, back := InodeBytes(size, es, inodeSize), InodeFront(size, 0x0008_0000), InodeBack(size, inodeSize);
    assert b[4..8] == front[4..8] == LittleEndian(size % U32, 4);
    assert b[32..36] == front[32..36] == LittleEndian(EXT4_EXTENTS_FL, 4);
    assert b[108..112] == back[8..12] == LittleEndian(size / U32, 4);
    Read32(b, 4, size % U32);
    Read32(b, 32, EXT4_EXTENTS_FL);
    Read32(b, 108, size / U32);
  }

  // ---- Direct blocks ----

  function BlockNumbers(blocks: seq<nat>): (r: seq<seq<bv8>>)
    ensures |r| == |blocks| && EvenPieces(r, 4)
  {
    seq(|blocks|, l requires 0 <= l < |blocks| => LittleEndian(blocks[l], 4))
  }

  // An inode of the older kind: no extents, twelve block numbers in a row.
  function DirectInodeBytes(size: nat, blocks: seq<nat>, inodeSize: nat): (r: seq<bv8>)
    requires |blocks| == 12 && inodeSize >= 128
    ensures |r| == inodeSize
  {
    JoinedLength(BlockNumbers(blocks), 4);
    TwelveNumbers();
    InodeFront(size, 0) + Joined(BlockNumbers(blocks)) + Zeros(12) + InodeBack(size, inodeSize)
  }

  lemma TwelveNumbers()
    ensures PartsEnd(12, 4) == 48
  {
  }

  lemma DirectNumberAt(size: nat, blocks: seq<nat>, inodeSize: nat, l: nat)
    requires |blocks| == 12 && inodeSize >= 128 && l < 12 && blocks[l] < U32
    ensures R32(DirectInodeBytes(size, blocks, inodeSize), 40 + 4 * l) == blocks[l]
  {
    hide R16, R32, LittleEndian, InodeFront, InodeBack;
    var b, pieces := DirectInodeBytes(size, blocks, inodeSize), BlockNumbers(blocks);
    JoinedLength(pieces, 4);
    TwelveNumbers();
    JoinedPart(pieces, 4, l);
    assert PartsEnd(l, 4) == 4 * l && PartsEnd(l + 1, 4) == 4 * l + 4;
    hide Joined, BlockNumbers, PartsEnd;
    assert b[40 + 4 * l..40 + 4 * l + 4] == Joined(pieces)[4 * l..4 * l + 4];
    Read32(b, 40 + 4 * l, blocks[l]);
  }

  /** In a file without extents, logical blocks 0 to 11 are where the inode's numbers say, 0 standing for a hole,
      and there are no others. */
  lemma DirectBlocksRead(fs: Fs, size: nat, blocks: seq<nat>, l: nat)
    requires fs.Valid() && size < U32 * U32 && |blocks| == 12 && forall i :: 0 <= i < 12 ==> blocks[i] < U32
    ensures
      var inode := DirectInodeBytes(size, blocks, fs.inodeSize);
      && fs.InodeFits(inode) && fs.FileSize(inode) == size
      && fs.PhysOf(inode, l) == if l < 12 then blocks[l] else 0
  {
    DirectFields(size, blocks, fs.inodeSize);
    Divided(size, U32);
    if l < 12 {
      DirectNumberAt(size, blocks, fs.inodeSize, l);
    }
    hide R16, R32, DirectInodeBytes;
  }

  lemma DirectFields(size: nat, blocks: seq<nat>, inodeSize: nat)
    requires |blocks| == 12 && inodeSize >= 128 && size < U32 * U32
    ensures
      var b := DirectInodeBytes(size, blocks, inodeSize);
      R32(b, 4) == size % U32 && R32(b, 108) == size / U32 && R32(b, 32) == 0
  {
    hide R16, R32, LittleEndian, Joined, BlockNumbers, PartsEnd;
    JoinedLength(BlockNumbers(blocks), 4);
    TwelveNumbers();
    var b, front, back := DirectInodeBytes(size, blocks, inodeSize), InodeFront(size, 0), InodeBack(size, inodeSize);
    assert b[4..8] == front[4..8] == LittleEndian(size % U32, 4);
    assert front[32..36] == LittleEndian(0, 4);
    assert b[32..36] == front[32..36];
    assert b[108..112] == back[8..12] == LittleEndian(size / U32, 4);
    Read32(b, 4, size % U32);
    Read32(b, 32, 0);
    Read32(b, 108, size / U32);
  }

  // The inode of a file whose bytes lie where the extents say.
  ghost predicate HoldsInode(fs: Fs, ino: nat, size: nat, es: seq<Extent>) {
    && fs.Valid() && |es| <= 4 && size < U32 * U32 && SortedExtents(es, 0, EXT_MAX_BLOCKS)
    && fs.InodeReadable(ino) && fs.Inode(ino) == InodeBytes(size, es, fs.inodeSize)
  }

  lemma HeldInode(fs: Fs, ino: nat, size: nat, es: seq<Extent>)
    requires HoldsInode(fs, ino, size, es)
    ensures fs.Valid() && fs.InodeReadable(ino)
    ensures
      var inode := fs.Inode(ino);
      && fs.InodeFits(inode) && fs.UsesExtents(inode) && fs.TreeOk(inode[40..100])
      && fs.FileSize(inode) == size && fs.DirSize(inode) == size % U32
      && forall e: Extent :: fs.HasExtent(inode[40..100], e) <==> e in es
  {
    hide R16, R32, InodeBytes, RootBytes, LeafOk, LeafEntry, Fs.Inode, Fs.InodeReadable, Fs.TreeFits;
    InodeFields(size, es, fs.inodeSize);
    var root := RootBytes(es);
    LeafReadBack(root, es, 0, EXT_MAX_BLOCKS);
    LeafIsRoot(root);
    assert fs.TreeOk(root);
    fs.TreeOkFits(root);
    Divided(size, U32);
  }

  /** Files that are empty or above 128 MiB are not loaded. */
  lemma HeldSizeLimits(fs: Fs, ino: nat, size: nat, es: seq<Extent>)
    requires HoldsInode(fs, ino, size, es) && (size == 0 || size > 0x800_0000)
    ensures fs.InodeReadable(ino) && fs.InodeFits(fs.Inode(ino)) && !fs.Loadable(ino)
  {
    HeldInode(fs, ino, size, es);
    hide HoldsInode, Fs.Inode, Fs.InodeFits, Fs.InodeReadable, Fs.FileSize, Fs.FileReadable, Fs.TreeOk, Fs.HasExtent,
      Fs.UsesExtents, Fs.DirSize;
  }

  lemma LeafIsRoot(root: seq<bv8>)
    requires LeafOk(root, 0, EXT_MAX_BLOCKS)
    ensures IsNode(root) && Depth(root) == 0
  {
  }

  // Where a logical block of such a file is found.
  lemma HeldBlock(fs: Fs, ino: nat, size: nat, es: seq<Extent>, l: nat)
    requires HoldsInode(fs, ino, size, es)
    ensures fs.InodeFits(fs.Inode(ino))
    ensures forall e: Extent :: e in es && e.Covers(l) ==> fs.PhysOf(fs.Inode(ino), l) == e.PhysOf(l)
    ensures (forall e: Extent :: e in es ==> !e.Covers(l)) ==> fs.PhysOf(fs.Inode(ino), l) == 0
  {
    HeldInode(fs, ino, size, es);
    hide R16, R32, Fs.Inode, Fs.InodeReadable, Fs.TreeOk, Fs.TreeFits, Fs.ExtentPhys, Fs.HasExtent, InodeBytes, HoldsInode;
    fs.LookupIsFlat(fs.Inode(ino)[40..100], l);
  }

  // ---- Files ----

  // The part of a content that belongs to a block.
  function PartIn(content: seq<bv8>, size: nat, l: nat): (r: seq<bv8>)
    requires PartsEnd(l, size) <= |content|
    ensures |r| <= size
  {
    if PartsEnd(l, size) + size <= |content| then content[PartsEnd(l, size)..PartsEnd(l, size) + size]
    else content[PartsEnd(l, size)..]
  }

  // A block of the content is where one of the extents puts it, or is all zeros and left out.
  ghost predicate HoldsPart(fs: Fs, es: seq<Extent>, content: seq<bv8>, l: nat)
    requires fs.Valid()
  {
    PartsEnd(l, fs.blockSize) <= |content| ==>
      var part := PartIn(content, fs.blockSize, l);
      || (exists e: Extent :: e in es && PartAt(fs, e, l, part))
      || ((forall e: Extent :: e in es ==> !e.Covers(l)) && part <= Zeros(fs.blockSize))
  }

  ghost predicate PartAt(fs: Fs, e: Extent, l: nat, part: seq<bv8>) {
    e.Covers(l) && e.PhysOf(l) != 0 && fs.BlockReadable(e.PhysOf(l)) && part <= fs.Block(e.PhysOf(l))
  }

  ghost predicate HoldsFile(fs: Fs, ino: nat, es: seq<Extent>, content: seq<bv8>) {
    && fs.Valid() && HoldsInode(fs, ino, |content|, es) && 0 < |content| <= MAX_FILE_SIZE
    && forall l: nat :: HoldsPart(fs, es, content, l)
  }

  lemma HeldPart(fs: Fs, ino: nat, es: seq<Extent>, content: seq<bv8>, l: nat)
    requires HoldsFile(fs, ino, es, content) && PartsEnd(l, fs.blockSize) <= |content|
    ensures fs.InodeFits(fs.Inode(ino)) && fs.LblockReadable(fs.Inode(ino), l)
    ensures PartIn(content, fs.blockSize, l) <= fs.Lblock(fs.Inode(ino), l)
  {
    HeldBlock(fs, ino, |content|, es, l);
    hide HoldsInode, Fs.Inode, Fs.InodeFits, Fs.PhysOf, PartIn, PartsEnd, Fs.Block, Fs.BlockReadable;
    assert HoldsPart(fs, es, content, l);
  }

  // A byte of a content is in the block, and at the place in it, that the reader looks at.
  lemma ByteInPart(content: seq<bv8>, size: nat, k: nat)
    requires size > 0 && k < |content|
    ensures
      var l := Quotient(k, size);
      && PartsEnd(l, size) <= |content| && k % size < |PartIn(content, size, l)|
      && PartIn(content, size, l)[k % size] == content[k]
  {
    PartsCounted(k, size);
    Divided(k, size);
    assert PartsEnd(Quotient(k, size), size) == size * (k / size);
    hide PartsEnd, Quotient;
  }

  /** A file that is held by an image is loadable, and its content is the one that was written. */
  lemma HeldFileLoads(fs: Fs, ino: nat, es: seq<Extent>, content: seq<bv8>)
    requires HoldsFile(fs, ino, es, content)
    ensures fs.InodeReadable(ino) && fs.InodeFits(fs.Inode(ino)) && fs.Loadable(ino) && fs.IsContent(ino, content)
  {
    HeldInode(fs, ino, |content|, es);
    HeldReadable(fs, ino, es, content);
    hide Fs.Inode, Fs.InodeFits, Fs.TreeOk, Fs.UsesExtents, Fs.HasExtent, Fs.FileReadable, Fs.ByteAt, Fs.FileSize,
      InodeBytes, HoldsPart;
    forall k | 0 <= k < |content| ensures fs.ByteAt(fs.Inode(ino), k, content[k]) {
      HeldByte(fs, ino, es, content, k);
    }
  }

  lemma HeldReadable(fs: Fs, ino: nat, es: seq<Extent>, content: seq<bv8>)
    requires HoldsFile(fs, ino, es, content)
    ensures fs.InodeReadable(ino) && fs.InodeFits(fs.Inode(ino)) && fs.FileReadable(fs.Inode(ino))
  {
    HeldInode(fs, ino, |content|, es);
    hide Fs.Inode, Fs.InodeFits, Fs.InodeReadable, Fs.TreeOk, Fs.UsesExtents, Fs.HasExtent, Fs.LblockReadable, Fs.FileSize,
      Fs.BlocksOf, HoldsFile, HoldsInode;
    forall l: nat | l < fs.BlocksOf(|content|) ensures fs.LblockReadable(fs.Inode(ino), l) {
      HeldBlockReadable(fs, ino, es, content, l);
    }
  }

  lemma HeldBlockReadable(fs: Fs, ino: nat, es: seq<Extent>, content: seq<bv8>, l: nat)
    requires HoldsFile(fs, ino, es, content) && l < fs.BlocksOf(|content|)
    ensures fs.Valid() && fs.InodeReadable(ino) && fs.InodeFits(fs.Inode(ino)) && fs.LblockReadable(fs.Inode(ino), l)
  {
    BlockStarts(fs, |content|, l);
    HeldPart(fs, ino, es, content, l);
  }

  lemma BlockStarts(fs: Fs, length: nat, l: nat)
    requires fs.Valid() && l < fs.BlocksOf(length)
    ensures PartsEnd(l, fs.blockSize) < length
  {
    BlockInside(length, fs.blockSize, l);
  }

  lemma HeldByte(fs: Fs, ino: nat, es: seq<Extent>, content: seq<bv8>, k: nat)
    requires HoldsFile(fs, ino, es, content) && k < |content|
    ensures fs.InodeFits(fs.Inode(ino)) && fs.ByteAt(fs.Inode(ino), k, content[k])
  {
    ByteInPart(content, fs.blockSize, k);
    HeldPart(fs, ino, es, content, Quotient(k, fs.blockSize));
    hide HoldsFile, Fs.Inode, Fs.InodeFits, Fs.Lblock, Fs.LblockReadable, PartIn, PartsEnd;
  }

  lemma BlockInside(length: nat, size: nat, l: nat)
    requires size > 0 && l < Quotient(length + size - 1, size)
    ensures PartsEnd(l, size) < length
  {
    PartsCounted(length + size - 1, size);
    PartsOrdered(l + 1, Quotient(length + size - 1, size), size);
    PartsGrow(l, size);
  }

  // ---- Directories ----

  // A directory block by block, each full of records.
  type DirBlocks = seq<seq<Slotted>>

  ghost predicate HoldsDirBlock(fs: Fs, es: seq<Extent>, rs: seq<Slotted>, i: nat) {
    && AllStorable(rs) && |Written(rs)| == fs.blockSize
    && exists e: Extent :: e in es && PartAt(fs, e, i, Written(rs))
  }

  ghost predicate HoldsDir(fs: Fs, ino: nat, es: seq<Extent>, blocks: DirBlocks) {
    && fs.Valid() && HoldsInode(fs, ino, PartsEnd(|blocks|, fs.blockSize), es)
    && PartsEnd(|blocks|, fs.blockSize) + fs.blockSize - 1 < U32
    && forall i: nat :: i < |blocks| ==> HoldsDirBlock(fs, es, blocks[i], i)
  }

  // The records of a directory from a block on.
  function RecordsFrom(blocks: DirBlocks, i: nat): seq<Record>
    decreases |blocks| - i
  {
    if i >= |blocks| then [] else RecordsOf(blocks[i]) + RecordsFrom(blocks, i + 1)
  }

  lemma WholeBlocks(fs: Fs, n: nat)
    requires fs.Valid()
    ensures fs.BlocksOf(PartsEnd(n, fs.blockSize)) == n
    ensures forall i: nat :: i < n ==> fs.Limit(PartsEnd(n, fs.blockSize), i) == fs.blockSize
  {
    var size := fs.blockSize;
    assert PartsEnd(n, size) == size * n;
    DivModUnique(size * n + (size - 1), size, n, size - 1);
    forall i: nat | i < n ensures fs.Limit(PartsEnd(n, size), i) == size {
      PartsOrdered(i + 1, n, size);
    }
  }

  lemma HeldDirInode(fs: Fs, ino: nat, es: seq<Extent>, blocks: DirBlocks)
    requires HoldsDir(fs, ino, es, blocks)
    ensures fs.Valid() && fs.InodeReadable(ino) && fs.InodeFits(fs.Inode(ino))
    ensures fs.DirSize(fs.Inode(ino)) == PartsEnd(|blocks|, fs.blockSize)
  {
    hide PartsEnd, HoldsInode, HoldsDirBlock;
    HeldInode(fs, ino, PartsEnd(|blocks|, fs.blockSize), es);
  }

  lemma HeldDirBlock(fs: Fs, ino: nat, es: seq<Extent>, blocks: DirBlocks, i: nat)
    requires HoldsDir(fs, ino, es, blocks) && i < |blocks|
    ensures fs.Valid() && fs.InodeReadable(ino) && fs.InodeFits(fs.Inode(ino)) && fs.LblockReadable(fs.Inode(ino), i)
    ensures AllStorable(blocks[i]) && fs.Lblock(fs.Inode(ino), i) == Written(blocks[i])
  {
    HeldDirInode(fs, ino, es, blocks);
    hide PartsEnd, HoldsInode, Fs.Inode, Fs.InodeReadable, Fs.InodeFits, Fs.PhysOf, Fs.Block, Fs.BlockReadable, Written,
      AllStorable, Fs.DirSize;
    HeldBlock(fs, ino, PartsEnd(|blocks|, fs.blockSize), es, i);
    assert HoldsDirBlock(fs, es, blocks[i], i);
    var e: Extent :| e in es && PartAt(fs, e, i, Written(blocks[i]));
  }

  lemma BlockReadBack(rs: seq<Slotted>)
    requires AllStorable(rs)
    ensures RecordsFit(Written(rs), |Written(rs)|, 0) && Records(Written(rs), |Written(rs)|, 0) == RecordsOf(rs)
  {
    RecordsReadBack(rs, []);
    assert [] + Written(rs) == Written(rs);
  }

  lemma HeldDirFits(fs: Fs, ino: nat, es: seq<Extent>, blocks: DirBlocks)
    requires HoldsDir(fs, ino, es, blocks)
    ensures fs.Valid() && fs.InodeReadable(ino) && fs.DirFits(fs.Inode(ino))
  {
    HeldDirInode(fs, ino, es, blocks);
    WholeBlocks(fs, |blocks|);
    var inode := fs.Inode(ino);
    hide PartsEnd, HoldsInode, Fs.Inode, Fs.InodeReadable, Fs.InodeFits, Fs.LblockReadable, Fs.Lblock, Fs.BlocksOf, Fs.Limit,
      Fs.DirSize, Written, AllStorable, RecordsFit;
    forall blk: nat | blk < fs.BlocksOf(fs.DirSize(inode)) ensures fs.DirBlockFits(inode, blk) {
      HeldDirBlock(fs, ino, es, blocks, blk);
      BlockReadBack(blocks[blk]);
    }
  }

  lemma {:induction false} HeldDirRecords(fs: Fs, ino: nat, es: seq<Extent>, blocks: DirBlocks, i: nat)
    requires HoldsDir(fs, ino, es, blocks) && i <= |blocks|
    ensures fs.Valid() && fs.InodeReadable(ino) && fs.DirFits(fs.Inode(ino))
    ensures fs.DirRecords(fs.Inode(ino), i) == RecordsFrom(blocks, i)
    decreases |blocks| - i
  {
    HeldDirFits(fs, ino, es, blocks);
    HeldDirInode(fs, ino, es, blocks);
    WholeBlocks(fs, |blocks|);
    hide PartsEnd, HoldsInode, HoldsDir, Fs.Inode, Fs.InodeReadable, Fs.InodeFits, Fs.LblockReadable, Fs.Lblock, Fs.BlocksOf,
      Fs.Limit, Fs.DirSize, Fs.DirFits, Written, AllStorable, RecordsFit, Records, RecordsOf;
    if i < |blocks| {
      HeldDirBlock(fs, ino, es, blocks, i);
      BlockReadBack(blocks[i]);
      HeldDirRecords(fs, ino, es, blocks, i + 1);
    }
  }

  /** Looking a name up in a directory that an image holds finds the first live record of that name. */
  lemma HeldDirLookup(fs: Fs, ino: nat, es: seq<Extent>, blocks: DirBlocks, name: seq<bv8>)
    requires HoldsDir(fs, ino, es, blocks)
    ensures fs.Valid() && fs.DirReady(ino) && fs.Lookup(ino, name) == Find(RecordsFrom(blocks, 0), name)
  {
    hide HoldsDir, Fs.Inode, Fs.InodeReadable, Fs.DirFits, Fs.DirRecords, Find;
    HeldDirRecords(fs, ino, es, blocks, 0);
  }

  // ---- Paths ----

  datatype Directory = Directory(es: seq<Extent>, blocks: DirBlocks)

  // Directories that lead, name by name, from one inode to another.
  ghost predicate HoldsPath(fs: Fs, ino: nat, names: seq<seq<bv8>>, dirs: seq<Directory>, target: nat)
    requires |names| == |dirs|
    decreases |names|
  {
    if names == [] then ino == target
    else
      var next := Find(RecordsFrom(dirs[0].blocks, 0), names[0]);
      && IsName(names[0]) && |names[0]| <= 255 && next != 0
      && HoldsDir(fs, ino, dirs[0].es, dirs[0].blocks) && HoldsPath(fs, next, names[1..], dirs[1..], target)
  }

  lemma {:induction false} HeldPathWalks(fs: Fs, ino: nat, names: seq<seq<bv8>>, dirs: seq<Directory>, target: nat)
    requires |names| == |dirs| && fs.Valid() && HoldsPath(fs, ino, names, dirs, target)
    ensures fs.WalkFits(ino, names) && fs.Walk(ino, names) == target
    ensures forall i :: 0 <= i < |names| ==> IsName(names[i])
    decreases |names|
  {
    hide HoldsDir, Fs.DirReady, Fs.Lookup, Find, RecordsFrom, IsName;
    if names != [] {
      HeldDirLookup(fs, ino, dirs[0].es, dirs[0].blocks, names[0]);
      HeldPathWalks(fs, Find(RecordsFrom(dirs[0].blocks, 0), names[0]), names[1..], dirs[1..], target);
      forall i | 0 <= i < |names| ensures IsName(names[i]) {
        if i > 0 {
          assert names[i] == names[1..][i - 1];
        }
      }
    }
  }

  /** A file written into an image, under a path whose directories are written into it, is found by that
      path, however many slashes it is spelled with, and its content is the one that was written. */
  lemma HeldFileFound(fs: Fs, names: seq<seq<bv8>>, slashes: seq<nat>, dirs: seq<Directory>, target: nat,
                      es: seq<Extent>, content: seq<bv8>)
    requires fs.Valid() && |names| == |dirs| && |slashes| == |names| + 1
    requires forall i :: 0 < i < |names| ==> slashes[i] > 0
    requires HoldsPath(fs, EXT4_ROOT_INO, names, dirs, target) && HoldsFile(fs, target, es, content)
    ensures
      var path := Spelled(names, slashes);
      && fs.PathFits(path) && fs.PathInode(path) == target && fs.Loadable(target) && fs.IsContent(target, content)
  {
    hide HoldsPath, HoldsFile, Spelled, Components, Fs.WalkFits, Fs.Walk, Fs.InodeReadable, Fs.InodeFits, Fs.Inode, IsName,
      Fs.Loadable, Fs.IsContent;
    HeldPathWalks(fs, EXT4_ROOT_INO, names, dirs, target);
    ComponentsOfSpelled(names, slashes);
    HeldFileLoads(fs, target, es, content);
  }

  // The used part of a block is as long as the part of a content that belongs to it.
  lemma LimitIsPart(fs: Fs, content: seq<bv8>, blk: nat)
    requires fs.Valid() && PartsEnd(blk, fs.blockSize) <= |content|
    ensures fs.Limit(|content|, blk) == |PartIn(content, fs.blockSize, blk)|
  {
    PartsGrow(blk, fs.blockSize);
  }

  // A file has one content.
  lemma OneContent(fs: Fs, ino: nat, a: seq<bv8>, b: seq<bv8>)
    requires fs.Valid() && fs.InodeReadable(ino) && fs.InodeFits(fs.Inode(ino)) && fs.Loadable(ino)
    requires fs.IsContent(ino, a) && fs.IsContent(ino, b)
    ensures a == b
  {
    hide Fs.Inode, Fs.InodeReadable, Fs.InodeFits, Fs.FileSize;
    forall k | 0 <= k < |a| ensures a[k] == b[k] {
      assert fs.ByteAt(fs.Inode(ino), k, a[k]) && fs.ByteAt(fs.Inode(ino), k, b[k]);
    }
  }
}
