/** Writers of the two on-disk lists that the ext4 reader scans, extents and directory records, and
    proofs that it reads back what was written. */
module Ext4Layout {
  import opened Bytes
  import opened Ext4

  lemma Read16(b: seq<bv8>, off: nat, n: nat)
    requires off + 2 <= |b| && n < 0x1_0000 && b[off..off + 2] == LittleEndian(n, 2)
    ensures R16(b, off) == n
  {
    ByteOfNumber(n % 256);
    ByteOfNumber(n / 256);
    var w := LittleEndian(n, 2);
    assert w == [(n % 256) as bv8] + LittleEndian(n / 256, 1);
    assert w[0] == b[off..off + 2][0] && w[1] == b[off..off + 2][1];
    assert LittleEndian(n / 256, 1) == [(n / 256 % 256) as bv8] + LittleEndian(n / 256 / 256, 0);
  }

  lemma Read32(b: seq<bv8>, off: nat, n: nat)
    requires off + 4 <= |b| && n < U32 && b[off..off + 4] == LittleEndian(n, 4)
    ensures R32(b, off) == n
  {
    HalvesOf(n);
    SliceOfSlice(b, off, off + 4, 0, 2);
    SliceOfSlice(b, off, off + 4, 2, 4);
    Read16(b, off, n % 0x1_0000);
    Read16(b, off + 2, n / 0x1_0000);
  }

  lemma HalvesOf(n: nat)
    requires n < U32
    ensures LittleEndian(n, 4)[0..2] == LittleEndian(n % 0x1_0000, 2)
    ensures LittleEndian(n, 4)[2..4] == LittleEndian(n / 0x1_0000, 2)
  {
    hide LittleEndian;
    var low, high := n % 0x1_0000, n / 0x1_0000;
    var a, b := low / 256, low % 256;
    Divided(n, 0x1_0000);
    Divided(low, 256);
    TwoBytes(a, b);
    FourBytes(high, a, b);
  }

  lemma FirstByte(q: nat, b: nat, len: nat)
    requires b < 256
    ensures LittleEndian(256 * q + b, len + 1) == [b as bv8] + LittleEndian(q, len)
  {
    DivModUnique(256 * q + b, 256, q, b);
  }

  lemma FourBytes(h: nat, a: nat, b: nat)
    requires a < 256 && b < 256
    ensures LittleEndian(0x1_0000 * h + 256 * a + b, 4) == [b as bv8, a as bv8] + LittleEndian(h, 2)
  {
    hide LittleEndian;
    FirstByte(256 * h + a, b, 3);
    FirstByte(h, a, 2);
    var x, y := a as bv8, b as bv8;
    assert [y] + ([x] + LittleEndian(h, 2)) == [y, x] + LittleEndian(h, 2);
  }

  lemma TwoBytes(a: nat, b: nat)
    requires a < 256 && b < 256
    ensures LittleEndian(256 * a + b, 2) == [b as bv8, a as bv8]
  {
    FirstByte(a, b, 1);
    FirstByte(0, a, 0);
  }

  // ---- Extents ----

  predicate Storable(e: Extent) {
    e.block < U32 && e.len < 0x1_0000 && e.start < 0x1_0000 * U32
  }

  function ExtentBytes(e: Extent): (r: seq<bv8>)
    ensures |r| == 12
  {
    LittleEndian(e.block, 4) + LittleEndian(e.len, 2) + LittleEndian(e.start / U32, 2) + LittleEndian(e.start % U32, 4)
  }

  function ExtentsBytes(es: seq<Extent>): (r: seq<bv8>)
    ensures |r| == 12 * |es|
  {
    if es == [] then [] else ExtentsBytes(es[..|es| - 1]) + ExtentBytes(es[|es| - 1])
  }

  // The header of a node with so many entries.
  function NodeHeader(n: nat, depth: nat): (r: seq<bv8>)
    ensures |r| == 12
  {
    LittleEndian(0xF30A, 2) + LittleEndian(n, 2) + LittleEndian(n, 2) + LittleEndian(depth, 2) + Zeros(4)
  }

  function LeafNode(es: seq<Extent>): (r: seq<bv8>)
    ensures |r| == 12 + 12 * |es|
  {
    NodeHeader(|es|, 0) + ExtentsBytes(es)
  }

  // Extents in order, without overlap, between two block numbers.
  ghost predicate SortedExtents(es: seq<Extent>, from: nat, end: nat) {
    && |es| < 0x1_0000 && end <= EXT_MAX_BLOCKS
    && (forall i :: 0 <= i < |es| ==> Storable(es[i]) && ExtentWithin(es[i], from, end))
    && forall i, j :: 0 <= i < j < |es| ==> es[i].block + es[i].len <= es[j].block
  }

  lemma {:induction false} ExtentPlace(es: seq<Extent>, i: nat)
    requires i < |es|
    ensures ExtentsBytes(es)[12 * i..12 * i + 12] == ExtentBytes(es[i])
  {
    hide ExtentBytes;
    if i < |es| - 1 {
      ExtentPlace(es[..|es| - 1], i);
    }
  }

  lemma HeaderRead(node: seq<bv8>, n: nat, depth: nat)
    requires n < 0x1_0000 && depth < 0x1_0000 && |node| >= 12 && node[..12] == NodeHeader(n, depth)
    ensures R16(node, 0) == EXT4_EXTENT_HEADER_MAGIC && R16(node, 2) == n && R16(node, 6) == depth
  {
    hide R16, LittleEndian;
    assert node[0..2] == node[..12][0..2] && node[2..4] == node[..12][2..4] && node[6..8] == node[..12][6..8];
    Read16(node, 0, EXT4_EXTENT_HEADER_MAGIC);
    Read16(node, 2, n);
    Read16(node, 6, depth);
  }

  lemma ExtentRead(node: seq<bv8>, at: nat, e: Extent)
    requires Storable(e) && at + 12 <= |node| && node[at..at + 12] == ExtentBytes(e)
    ensures R32(node, at) == e.block && R16(node, at + 4) == e.len
    ensures R32(node, at + 8) + R16(node, at + 6) * U32 == e.start
  {
    hide R16, R32, LittleEndian;
    SliceOfSlice(node, at, at + 12, 0, 4);
    SliceOfSlice(node, at, at + 12, 4, 6);
    SliceOfSlice(node, at, at + 12, 6, 8);
    SliceOfSlice(node, at, at + 12, 8, 12);
    Read32(node, at, e.block);
    Read16(node, at + 4, e.len);
    Read16(node, at + 6, e.start / U32);
    Read32(node, at + 8, e.start % U32);
  }

  /** A leaf written from a sorted list of extents is well-formed, and its extents are the list,
      whatever follows in its block. */
  lemma LeafReadBack(node: seq<bv8>, es: seq<Extent>, from: nat, end: nat)
    requires SortedExtents(es, from, end) && LeafNode(es) <= node
    ensures LeafOk(node, from, end)
    ensures LeafExtents(node) == es
  {
    hide R16, R32, ExtentBytes, ExtentsBytes, NodeHeader;
    assert node[..12] == LeafNode(es)[..12] == NodeHeader(|es|, 0);
    HeaderRead(node, |es|, 0);
    forall i | 0 <= i < |es| ensures LeafEntry(node, i) == es[i] {
      ExtentPlace(es, i);
      assert node[12 + 12 * i..12 + 12 * i + 12] == ExtentsBytes(es)[12 * i..12 * i + 12];
      ExtentRead(node, 12 + 12 * i, es[i]);
    }
  }

  /** Looking a block up in a tree written from a list of extents gives its place in the list. */
  lemma WrittenTreeLookup(fs: Fs, es: seq<Extent>, l: nat)
    requires SortedExtents(es, 0, EXT_MAX_BLOCKS)
    ensures fs.TreeOk(LeafNode(es)) && fs.TreeFits(LeafNode(es))
    ensures forall e :: e in es && e.Covers(l) ==> fs.ExtentPhys(LeafNode(es), l) == e.PhysOf(l)
    ensures (forall e :: e in es ==> !e.Covers(l)) ==> fs.ExtentPhys(LeafNode(es), l) == 0
  {
    hide R16, R32, LeafNode, LeafEntry, Fs.ExtentPhys, Fs.TreeFits;
    LeafReadBack(LeafNode(es), es, 0, EXT_MAX_BLOCKS);
    assert fs.TreeOk(LeafNode(es));
    fs.LookupIsFlat(LeafNode(es), l);
    assert forall e: Extent :: fs.HasExtent(LeafNode(es), e) <==> e in es;
  }

  // ---- An index and its leaves ----

  // An entry of an index node: the first block below it and where the child is.
  function IndexBytes(key: nat, child: nat): (r: seq<bv8>)
    ensures |r| == 12
  {
    LittleEndian(key, 4) + LittleEndian(child % U32, 4) + LittleEndian(child / U32, 2) + Zeros(2)
  }

  // The entries for consecutive children.
  function IndexesBytes(keys: seq<nat>, firstChild: nat): (r: seq<bv8>)
    ensures |r| == 12 * |keys|
  {
    if keys == [] then []
    else IndexesBytes(keys[..|keys| - 1], firstChild) + IndexBytes(keys[|keys| - 1], firstChild + |keys| - 1)
  }

  function IndexNode(keys: seq<nat>, firstChild: nat): (r: seq<bv8>)
    ensures |r| == 12 + 12 * |keys|
  {
    NodeHeader(|keys|, 1) + IndexesBytes(keys, firstChild)
  }

  lemma {:induction false} IndexPlace(keys: seq<nat>, firstChild: nat, i: nat)
    requires i < |keys|
    ensures IndexesBytes(keys, firstChild)[12 * i..12 * i + 12] == IndexBytes(keys[i], firstChild + i)
  {
    hide IndexBytes;
    if i < |keys| - 1 {
      IndexPlace(keys[..|keys| - 1], firstChild, i);
    }
  }

  lemma IndexRead(node: seq<bv8>, at: nat, key: nat, child: nat)
    requires key < U32 && child < 0x1_0000 * U32 && at + 12 <= |node| && node[at..at + 12] == IndexBytes(key, child)
    ensures R32(node, at) == key && R32(node, at + 4) + R16(node, at + 8) * U32 == child
  {
    hide R16, R32, LittleEndian;
    SliceOfSlice(node, at, at + 12, 0, 4);
    SliceOfSlice(node, at, at + 12, 4, 8);
    SliceOfSlice(node, at, at + 12, 8, 10);
    Read32(node, at, key);
    Read32(node, at + 4, child % U32);
    Read16(node, at + 8, child / U32);
  }

  lemma IndexReadBack(keys: seq<nat>, firstChild: nat)
    requires |keys| < 0x1_0000 && firstChild + |keys| < 0x1_0000 * U32
    requires forall i :: 0 <= i < |keys| ==> keys[i] < U32
    ensures
      var node := IndexNode(keys, firstChild);
      && IsNode(node) && Depth(node) == 1 && Entries(node) == |keys|
      && forall i :: 0 <= i < |keys| ==> IndexKey(node, i) == keys[i] && IndexChild(node, i) == firstChild + i
  {
    hide R16, R32, IndexBytes, IndexesBytes, NodeHeader;
    var node := IndexNode(keys, firstChild);
    HeaderRead(node, |keys|, 1);
    forall i | 0 <= i < |keys| ensures IndexKey(node, i) == keys[i] && IndexChild(node, i) == firstChild + i {
      IndexPlace(keys, firstChild, i);
      assert node[12 + 12 * i..12 + 12 * i + 12] == IndexesBytes(keys, firstChild)[12 * i..12 * i + 12];
      IndexRead(node, 12 + 12 * i, keys[i], firstChild + i);
    }
  }

  // The leaves, each filling a block.
  function LeafBlock(es: seq<Extent>, size: nat): (r: seq<bv8>)
    requires 12 + 12 * |es| <= size
    ensures |r| == size && LeafNode(es) <= r
  {
    LeafNode(es) + Zeros(size - 12 - 12 * |es|)
  }

  predicate LeavesFit(groups: seq<seq<Extent>>, size: nat) {
    forall i :: 0 <= i < |groups| ==> 12 + 12 * |groups[i]| <= size
  }

  function LeafPieces(groups: seq<seq<Extent>>, size: nat): (r: seq<seq<bv8>>)
    requires LeavesFit(groups, size)
    ensures |r| == |groups| && EvenPieces(r, size)
  {
    seq(|groups|, i requires 0 <= i < |groups| => LeafBlock(groups[i], size))
  }

  function LeafBlocks(groups: seq<seq<Extent>>, size: nat): seq<bv8>
    requires LeavesFit(groups, size)
  {
    Joined(LeafPieces(groups, size))
  }

  // A volume in which the leaves follow some whole blocks.
  ghost predicate HoldsLeaves(fs: Fs, before: nat, groups: seq<seq<Extent>>) {
    && fs.Valid() && LeavesFit(groups, fs.blockSize) && |fs.image| < U64
    && forall i: nat :: i < |groups| ==> HoldsLeaf(fs, before + i, groups[i])
  }

  predicate HoldsLeaf(fs: Fs, block: nat, es: seq<Extent>)
    requires 12 + 12 * |es| <= fs.blockSize
  {
    PartsEnd(block + 1, fs.blockSize) <= |fs.image| &&
    PartOf(fs.image, fs.blockSize, block) == LeafBlock(es, fs.blockSize)
  }

  lemma LeafOfVolume(fs: Fs, block: nat, es: seq<Extent>)
    requires 12 + 12 * |es| <= fs.blockSize && HoldsLeaf(fs, block, es) && |fs.image| < U64
    ensures fs.BlockReadable(block) && fs.Block(block) == LeafBlock(es, fs.blockSize)
  {
    hide LeafBlock;
    PartsGrow(block, fs.blockSize);
    assert Slot(0, block, fs.blockSize) == PartsEnd(block, fs.blockSize);
    hide Slot, PartsEnd;
    SmallOffset(PartsEnd(block, fs.blockSize));
  }

  lemma SmallOffset(n: nat)
    requires n < U64
    ensures n % U64 == n
  {
  }

  // Keys in order, and between each and the next the extents of its group.
  ghost predicate KeyedGroups(keys: seq<nat>, groups: seq<seq<Extent>>) {
    && |keys| == |groups| < 0x1_0000
    && (forall i :: 0 <= i < |keys| ==> keys[i] < U32)
    && (forall i, j :: 0 <= i < j < |keys| ==> keys[i] < keys[j])
    && forall i :: 0 <= i < |groups| ==> SortedExtents(groups[i], keys[i], KeyAfter(keys, i))
  }

  function KeyAfter(keys: seq<nat>, i: nat): nat
    requires i < |keys|
  {
    if i + 1 < |keys| then keys[i + 1] else EXT_MAX_BLOCKS
  }

  /** An index written over leaves written from groups of extents is a well-formed tree of depth 1, and
      looking a block up in it gives its place in whichever group covers it. */
  lemma WrittenIndexLookup(fs: Fs, before: nat, keys: seq<nat>, groups: seq<seq<Extent>>, l: nat)
    requires KeyedGroups(keys, groups) && HoldsLeaves(fs, before, groups) && before + |groups| < 0x1_0000 * U32
    ensures
      var root := IndexNode(keys, before);
      && fs.TreeOk(root) && fs.TreeFits(root) && Depth(root) == 1
      && (forall i, e :: 0 <= i < |groups| && e in groups[i] && e.Covers(l) ==> fs.ExtentPhys(root, l) == e.PhysOf(l))
      && ((forall i, e :: 0 <= i < |groups| && e in groups[i] ==> !e.Covers(l)) ==> fs.ExtentPhys(root, l) == 0)
  {
    hide R16, R32, IndexNode, LeafEntry, IndexKey, IndexChild, HoldsLeaves, Fs.Block, Fs.BlockReadable, Fs.ExtentPhys,
      Fs.TreeFits, LeafOk, SortedExtents, LeafExtents, Entries, Depth;
    var root := IndexNode(keys, before);
    IndexReadBack(keys, before);
    forall i | 0 <= i < |groups| ensures fs.ChildOk(root, i) {
      ChildReadBack(fs, before, keys, groups, i);
    }
    assert fs.TreeOk(root);
    forall i: nat, e | i < |groups| ensures fs.InChild(root, i, e) <==> e in groups[i] {
      ChildReadBack(fs, before, keys, groups, i);
    }
    fs.LookupIsFlat(root, l);
    forall i, e | 0 <= i < |groups| && e in groups[i] ensures fs.HasExtent(root, e) {
      assert fs.InChild(root, i, e);
    }
  }

  lemma ChildReadBack(fs: Fs, before: nat, keys: seq<nat>, groups: seq<seq<Extent>>, i: nat)
    requires KeyedGroups(keys, groups) && HoldsLeaves(fs, before, groups) && i < |groups|
    requires before + |groups| < 0x1_0000 * U32
    ensures
      var root := IndexNode(keys, before);
      && IsNode(root) && i < Entries(root) && fs.ChildOk(root, i)
      && LeafExtents(fs.Block(IndexChild(root, i))) == groups[i]
  {
    hide R16, R32, IndexNode, LeafEntry, IndexKey, IndexChild, HoldsLeaves, Fs.Block, Fs.BlockReadable, LeafBlock,
      LeafNode, SortedExtents, LeafOk, LeafExtents, HoldsLeaf;
    IndexReadBack(keys, before);
    LeafHeld(fs, before, groups, i);
    LeafOfVolume(fs, before + i, groups[i]);
    LeafReadBack(LeafBlock(groups[i], fs.blockSize), groups[i], keys[i], KeyAfter(keys, i));
  }

  lemma LeafHeld(fs: Fs, before: nat, groups: seq<seq<Extent>>, i: nat)
    requires HoldsLeaves(fs, before, groups) && i < |groups|
    ensures 12 + 12 * |groups[i]| <= fs.blockSize && HoldsLeaf(fs, before + i, groups[i]) && |fs.image| < U64
  {
    hide HoldsLeaf;
  }

  lemma SmallVolume(n: nat, size: nat)
    requires n < U32 && size <= 0x1_0000
    ensures PartsEnd(n, size) < U64
  {
    MulMonotone(n, size, 0x1_0000);
  }

  /** And there is a volume that holds the leaves of any groups that fit. */
  lemma SomeVolumeHolds(fs: Fs, groups: seq<seq<Extent>>)
    requires fs.Valid() && LeavesFit(groups, fs.blockSize) && |groups| < U32
    ensures HoldsLeaves(fs.(image := LeafBlocks(groups, fs.blockSize)), 0, groups)
  {
    hide PartsEnd, LeafPieces, HoldsLeaf, Joined;
    var made := fs.(image := LeafBlocks(groups, fs.blockSize));
    assert made.Valid() && |made.image| < U64 by {
      SmallVolume(|groups|, fs.blockSize);
      JoinedLength(LeafPieces(groups, fs.blockSize), fs.blockSize);
    }
    hide Fs.Valid;
    forall i: nat | i < |groups| ensures HoldsLeaf(made, 0 + i, groups[i]) {
      LeafMade(made, groups, i);
    }
  }

  lemma LeafMade(fs: Fs, groups: seq<seq<Extent>>, i: nat)
    requires LeavesFit(groups, fs.blockSize) && fs.image == LeafBlocks(groups, fs.blockSize) && i < |groups|
    ensures HoldsLeaf(fs, i, groups[i])
  {
    hide PartsEnd, PartOf, LeafBlock;
    JoinedPart(LeafPieces(groups, fs.blockSize), fs.blockSize, i);
  }

  // ---- Directory records ----

  // A record of some type, its name followed by so many bytes of padding.
  datatype Slotted = Slotted(record: Record, fileType: bv8, pad: nat) {
    function Length(): nat {
      8 + |record.name| + pad
    }

    predicate Storable() {
      record.ino < U32 && |record.name| <= 255 && Length() < 0x1_0000
    }

    function Bytes(): (r: seq<bv8>)
      requires |record.name| <= 255
      ensures |r| == Length()
    {
      LittleEndian(record.ino, 4) + LittleEndian(Length(), 2) + [|record.name| as bv8, fileType] + record.name + Zeros(pad)
    }
  }

  predicate AllStorable(rs: seq<Slotted>) {
    forall i :: 0 <= i < |rs| ==> rs[i].Storable()
  }

  function Written(rs: seq<Slotted>): seq<bv8>
    requires AllStorable(rs)
  {
    if rs == [] then [] else assert rs[0].Storable(); rs[0].Bytes() + Written(rs[1..])
  }

  function RecordsOf(rs: seq<Slotted>): (r: seq<Record>)
    ensures |r| == |rs| && forall i :: 0 <= i < |rs| ==> r[i] == rs[i].record
  {
    seq(|rs|, i requires 0 <= i < |rs| => rs[i].record)
  }

  lemma FieldsOf(r: Slotted)
    requires r.Storable()
    ensures
      var b, n := r.Bytes(), |r.record.name|;
      && b[0..4] == LittleEndian(r.record.ino, 4) && b[4..6] == LittleEndian(r.Length(), 2)
      && b[6] as nat == n && b[8..8 + n] == r.record.name
  {
    hide LittleEndian;
    ByteOfNumber(|r.record.name|);
  }

  lemma FieldsInPlace(block: seq<bv8>, pos: nat, r: Slotted)
    requires r.Storable() && pos + r.Length() <= |block| && block[pos..pos + r.Length()] == r.Bytes()
    ensures block[pos..pos + 4] == LittleEndian(r.record.ino, 4)
    ensures block[pos + 4..pos + 6] == LittleEndian(r.Length(), 2)
    ensures block[pos + 6] as nat == |r.record.name|
    ensures block[pos + 8..pos + 8 + |r.record.name|] == r.record.name
  {
    FieldsOf(r);
    hide LittleEndian, Slotted.Bytes;
    var n, len := r.Length(), |r.record.name|;
    SliceOfSlice(block, pos, pos + n, 0, 4);
    SliceOfSlice(block, pos, pos + n, 4, 6);
    SliceOfSlice(block, pos, pos + n, 8, 8 + len);
    assert block[pos + 6] == block[pos..pos + n][6];
  }

  lemma RecordRead(block: seq<bv8>, pos: nat, r: Slotted)
    requires r.Storable() && pos + r.Length() <= |block| && block[pos..pos + r.Length()] == r.Bytes()
    ensures R16(block, pos + 4) == r.Length() && block[pos + 6] as nat == |r.record.name|
    ensures RecordAt(block, pos) == r.record
  {
    FieldsInPlace(block, pos, r);
    hide R16, R32, LittleEndian, Slotted.Bytes;
    Read32(block, pos, r.record.ino);
    Read16(block, pos + 4, r.Length());
  }

  /** A directory block written from a list of records, with any padding, reads back as the list. */
  lemma {:induction false} RecordsReadBack(rs: seq<Slotted>, before: seq<bv8>)
    requires AllStorable(rs)
    ensures
      var block := before + Written(rs);
      && RecordsFit(block, |block|, |before|)
      && Records(block, |block|, |before|) == RecordsOf(rs)
    decreases |rs|
  {
    hide R16, R32, RecordAt, Slotted.Bytes, Records, RecordsFit;
    var block := before + Written(rs);
    if rs == [] {
      EndOfRecords(block);
    } else {
      var r, rest := rs[0], before + rs[0].Bytes();
      assert r.Storable();
      RecordsReadBack(rs[1..], rest);
      assert rest + Written(rs[1..]) == block;
      assert block[|before|..|before| + r.Length()] == r.Bytes();
      RecordRead(block, |before|, r);
      OneMoreRecord(block, |before|, r, RecordsOf(rs[1..]));
      assert RecordsOf(rs) == [r.record] + RecordsOf(rs[1..]);
    }
  }

  lemma EndOfRecords(block: seq<bv8>)
    ensures RecordsFit(block, |block|, |block|) && Records(block, |block|, |block|) == []
  {
  }

  lemma OneMoreRecord(block: seq<bv8>, pos: nat, r: Slotted, more: seq<Record>)
    requires pos + r.Length() <= |block| && R16(block, pos + 4) == r.Length() && block[pos + 6] as nat == |r.record.name|
    requires RecordAt(block, pos) == r.record
    requires RecordsFit(block, |block|, pos + r.Length()) && Records(block, |block|, pos + r.Length()) == more
    ensures RecordsFit(block, |block|, pos) && Records(block, |block|, pos) == [r.record] + more
  {
    hide R16, R32, RecordAt;
  }
}
