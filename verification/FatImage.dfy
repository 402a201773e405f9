/** FAT32 volumes written sector by sector: the boot sector, the tables and the data area; and the proof
    that mounting such a volume and reading a file of it gives its content back. */
module FatImage {
  import opened Bytes
  import opened Fat

  // ---- The boot sector ----

  // Where a partition lies and how it is divided: reserved sectors, copies of the table, clusters.
  datatype Layout = Layout(start: nat, reserved: nat, copies: nat, fatSize: nat, sectorsPerCluster: nat,
                           totalSectors: nat, root: nat) {
    ghost predicate Valid() {
      && 1 <= reserved < 0x1_0000 && 1 <= copies < 256 && fatSize >= 1 && 1 <= sectorsPerCluster <= 64
      && totalSectors < U32 && root < U32 && start + reserved + copies * fatSize < U32
    }

    // The first sector of the table and of the data.
    function Tables(): nat {
      start + reserved
    }

    function DataArea(): nat {
      start + reserved + copies * fatSize
    }
  }

  function BootSector(l: Layout): (r: seq<bv8>)
    ensures |r| == 512
  {
    BootFront(l) + BootBack(l) + Zeros(464)
  }

  function BootFront(l: Layout): (r: seq<bv8>)
    ensures |r| == 32
  {
    Zeros(11) + LittleEndian(512, 2) + LittleEndian(l.sectorsPerCluster, 1) + LittleEndian(l.reserved, 2) +
    LittleEndian(l.copies, 1) + Zeros(15)
  }

  function BootBack(l: Layout): (r: seq<bv8>)
    ensures |r| == 16
  {
    LittleEndian(l.totalSectors, 4) + LittleEndian(l.fatSize, 4) + Zeros(4) + LittleEndian(l.root, 4)
  }

  // A field of the boot sector.
  function Field(boot: Sector, at: nat, len: nat): nat
    requires at + len <= 512
  {
    FromLittleEndian(boot[at..at + len])
  }

  // What mounting makes of a boot sector: nothing, unless sectors are of 512 bytes and there is a table.
  function MountedFat(disk: nat -> Sector, start: nat): Option<Volume> {
    var boot := disk(start);
    var reserved, fatSize, copies := Field(boot, 14, 2), Field(boot, 36, 4), Field(boot, 16, 1);
    if Field(boot, 11, 2) != SECTOR_SIZE || fatSize == 0 then None
    else
      Some(Volume(disk, (start + reserved) % U32, (start + reserved + copies * fatSize) % U32, Field(boot, 13, 1),
                  Field(boot, 32, 4)))
  }

  // The code, which also takes the first cluster of the root directory.
  method FatInit(disk: nat -> Sector, start: nat) returns (v: Option<Volume>, root: nat)
    ensures v == MountedFat(disk, start) && (v.Some? ==> root == Field(disk(start), 44, 4))
  {
    hide Field;
    var boot := disk(start);
    if Field(boot, 11, 2) != SECTOR_SIZE {
      return None, 0;
    }
    if Field(boot, 36, 4) == 0 {
      return None, 0;
    }
    var reserved, fatSize, copies := Field(boot, 14, 2), Field(boot, 36, 4), Field(boot, 16, 1);
    var fatStart := (start % U32 + reserved) % U32;
    var dataStart := (start % U32 + reserved + copies * fatSize) % U32;
    ModOfSum(start, reserved, U32);
    ModOfSum(start, reserved + copies * fatSize, U32);
    root := Field(boot, 44, 4);
    v := Some(Volume(disk, fatStart, dataStart, Field(boot, 13, 1), Field(boot, 32, 4)));
  }

  // ---- The image ----

  function EntryBytes(entries: seq<nat>): (r: seq<seq<bv8>>)
    ensures |r| == |entries| && EvenPieces(r, 4)
  {
    seq(|entries|, i requires 0 <= i < |entries| => LittleEndian(entries[i], 4))
  }

  // A table fits into its sectors.
  predicate TableFits(l: Layout, entries: seq<nat>) {
    |Joined(EntryBytes(entries))| <= PartsEnd(l.fatSize, 512)
  }

  // One copy of the table.
  function TableCopy(l: Layout, entries: seq<nat>): (r: seq<bv8>)
    requires TableFits(l, entries)
    ensures |r| == PartsEnd(l.fatSize, 512)
  {
    Joined(EntryBytes(entries)) + Zeros(PartsEnd(l.fatSize, 512) - |Joined(EntryBytes(entries))|)
  }

  function Copies(l: Layout, entries: seq<nat>): seq<bv8>
    requires TableFits(l, entries)
  {
    Joined(seq(l.copies, _ => TableCopy(l, entries)))
  }

  // Everything, one part after the other; the data area is the clusters in a row, the first being number 2.
  function Image(l: Layout, before: seq<bv8>, entries: seq<nat>, area: seq<seq<bv8>>): seq<bv8>
    requires TableFits(l, entries) && l.reserved >= 1
  {
    before + BootSector(l) + Zeros(512 * (l.reserved - 1)) + Copies(l, entries) + Joined(area)
  }

  // A disk is an image in sectors.
  function SectorOf(image: seq<bv8>, lba: nat): Sector {
    if 512 * lba + 512 <= |image| then image[512 * lba..512 * lba + 512] else Zeros(512)
  }

  function DiskOf(image: seq<bv8>): nat -> Sector {
    (lba: nat) => SectorOf(image, lba)
  }

  // An image that has the parts of a volume in their places, and anything elsewhere.
  ghost predicate LaidOut(l: Layout, image: seq<bv8>, entries: seq<nat>, area: seq<seq<bv8>>) {
    && l.Valid() && TableFits(l, entries) && AllWords(entries)
    && EvenPieces(area, 512 * l.sectorsPerCluster)
    && Lies(image, 512 * l.start, BootSector(l))
    && Lies(image, 512 * l.Tables(), TableCopy(l, entries))
    && Lies(image, 512 * l.DataArea(), Joined(area))
  }

  lemma LaidBoot(l: Layout, image: seq<bv8>, entries: seq<nat>, area: seq<seq<bv8>>)
    requires LaidOut(l, image, entries, area)
    ensures l.Valid() && Lies(image, 512 * l.start, BootSector(l))
  {
    hide Lies, TableFits, EntryBytes, BootSector, TableCopy, Joined;
  }

  lemma LaidTable(l: Layout, image: seq<bv8>, entries: seq<nat>, area: seq<seq<bv8>>, c: nat)
    requires LaidOut(l, image, entries, area) && c < |entries|
    ensures l.Valid() && TableFits(l, entries) && entries[c] < U32
    ensures |TableCopy(l, entries)| == 512 * l.fatSize && Lies(image, 512 * l.Tables(), TableCopy(l, entries))
  {
    hide Lies, TableFits, EntryBytes, BootSector, TableCopy, Joined;
  }

  lemma LaidArea(l: Layout, image: seq<bv8>, entries: seq<nat>, area: seq<seq<bv8>>)
    requires LaidOut(l, image, entries, area)
    ensures l.Valid() && EvenPieces(area, 512 * l.sectorsPerCluster) && Lies(image, 512 * l.DataArea(), Joined(area))
  {
    hide Lies, TableFits, EntryBytes, BootSector, TableCopy, Joined;
  }

  /** A written image is laid so. */
  lemma ImageLaidOut(l: Layout, before: seq<bv8>, entries: seq<nat>, area: seq<seq<bv8>>)
    requires l.Valid() && |before| == 512 * l.start && TableFits(l, entries)
    requires AllWords(entries)
    requires EvenPieces(area, 512 * l.sectorsPerCluster)
    ensures LaidOut(l, Image(l, before, entries, area), entries, area)
  {
    hide BootSector, TableCopy, PartsEnd, Joined, Copies, EvenPieces, AllWords, TableFits;
    var boot, copy, size := BootSector(l), TableCopy(l, entries), PartsEnd(l.fatSize, 512);
    var copies, data, gap := Copies(l, entries), Joined(area), Zeros(512 * (l.reserved - 1));
    var image := Image(l, before, entries, area);
    CopiesLie(l, entries);
    assert image == before + boot + gap + copies + data;
    FourParts(before, boot, gap, copies, data);
    LiesInside(image, 512 * l.Tables(), copies, 0, size);
  }

  lemma CopiesLie(l: Layout, entries: seq<nat>)
    requires l.Valid() && TableFits(l, entries)
    ensures PartsEnd(l.fatSize, 512) == 512 * l.fatSize <= |Copies(l, entries)| == 512 * (l.copies * l.fatSize)
    ensures Copies(l, entries)[..512 * l.fatSize] == TableCopy(l, entries)
  {
    hide TableCopy;
    var copies, size := seq(l.copies, _ => TableCopy(l, entries)), PartsEnd(l.fatSize, 512);
    assert size == 512 * l.fatSize;
    JoinedLength(copies, size);
    JoinedPart(copies, size, 0);
    FirstPart(Copies(l, entries), size);
    assert PartsEnd(l.copies, size) == 512 * (l.copies * l.fatSize);
  }

  lemma FourParts(a: seq<bv8>, b: seq<bv8>, c: seq<bv8>, d: seq<bv8>, e: seq<bv8>)
    ensures
      var all, at := a + b + c + d + e, |a| + |b| + |c|;
      Lies(all, |a|, b) && Lies(all, at, d) && Lies(all, at + |d|, e)
  {
  }

  lemma FirstPart(data: seq<bv8>, size: nat)
    requires PartsEnd(1, size) <= |data|
    ensures PartsEnd(1, size) == size && PartOf(data, size, 0) == data[..size]
  {
  }

  // ---- Mounting it ----

  lemma FieldRead(boot: Sector, at: nat, len: nat, n: nat)
    requires at + len <= 512 && n < Power256(len) && boot[at..at + len] == LittleEndian(n, len)
    ensures Field(boot, at, len) == n
  {
    LittleEndianRoundTrip(n, len);
  }

  lemma BootFields(l: Layout)
    requires l.Valid()
    ensures
      var b := BootSector(l);
      && Field(b, 11, 2) == 512 && Field(b, 13, 1) == l.sectorsPerCluster && Field(b, 14, 2) == l.reserved
      && Field(b, 16, 1) == l.copies && Field(b, 32, 4) == l.totalSectors && Field(b, 36, 4) == l.fatSize
      && Field(b, 44, 4) == l.root
  {
    SmallPowers();
    FatSizeFits(l);
    BootSlices(l);
    hide LittleEndian, Field, Power256, BootSector;
    var b := BootSector(l);
    FieldRead(b, 11, 2, 512);
    FieldRead(b, 13, 1, l.sectorsPerCluster);
    FieldRead(b, 14, 2, l.reserved);
    FieldRead(b, 16, 1, l.copies);
    FieldRead(b, 32, 4, l.totalSectors);
    FieldRead(b, 36, 4, l.fatSize);
    FieldRead(b, 44, 4, l.root);
  }

  lemma BootSlices(l: Layout)
    ensures
      var b := BootSector(l);
      && b[11..13] == LittleEndian(512, 2) && b[13..14] == LittleEndian(l.sectorsPerCluster, 1)
      && b[14..16] == LittleEndian(l.reserved, 2) && b[16..17] == LittleEndian(l.copies, 1)
      && b[32..36] == LittleEndian(l.totalSectors, 4) && b[36..40] == LittleEndian(l.fatSize, 4)
      && b[44..48] == LittleEndian(l.root, 4)
  {
    hide LittleEndian;
    var b, front, back := BootSector(l), BootFront(l), BootBack(l);
    assert b[11..13] == front[11..13] && b[13..14] == front[13..14] && b[14..16] == front[14..16];
    assert b[16..17] == front[16..17];
    assert b[32..36] == back[0..4] && b[36..40] == back[4..8] && b[44..48] == back[12..16];
  }

  lemma SmallPowers()
    ensures Power256(1) == 256 && Power256(2) == 0x1_0000 && Power256(4) == U32
  {
  }

  lemma FatSizeFits(l: Layout)
    requires l.Valid()
    ensures l.fatSize < U32
  {
    MulMonotone(l.fatSize, 1, l.copies);
  }

  function VolumeOf(l: Layout, image: seq<bv8>): Volume {
    Volume(DiskOf(image), l.Tables(), l.DataArea(), l.sectorsPerCluster, l.totalSectors)
  }

  /** Mounting a written volume gives its layout. */
  lemma WrittenMounts(l: Layout, image: seq<bv8>, entries: seq<nat>, area: seq<seq<bv8>>)
    requires LaidOut(l, image, entries, area)
    ensures MountedFat(DiskOf(image), l.start) == Some(VolumeOf(l, image)) && Field(DiskOf(image)(l.start), 44, 4) == l.root
  {
    hide BootSector, Field, Layout.Valid, Layout.Tables, Layout.DataArea, LaidOut;
    LaidBoot(l, image, entries, area);
    BootFields(l);
    SmallSums(l);
    assert DiskOf(image)(l.start) == BootSector(l);
  }

  lemma SmallSums(l: Layout)
    requires l.Valid()
    ensures (l.start + l.reserved) % U32 == l.Tables() && (l.start + l.reserved + l.copies * l.fatSize) % U32 == l.DataArea()
    ensures 1 <= l.fatSize && 512 * l.start + 512 <= 512 * l.Tables()
  {
  }

  // ---- Reading it ----

  // Bytes inside one of the sectors of a part.
  lemma InSector(image: seq<bv8>, lba: nat, part: seq<bv8>, sector: nat, at: nat, len: nat)
    requires Lies(image, 512 * lba, part) && 512 * sector + 512 <= |part| && at + len <= 512
    ensures SectorOf(image, lba + sector)[at..at + len] == part[512 * sector + at..512 * sector + at + len]
  {
    var from := 512 * (lba + sector);
    SliceOfSlice(image, from, from + 512, at, at + len);
    SliceOfSlice(image, 512 * lba, 512 * lba + |part|, 512 * sector + at, 512 * sector + at + len);
  }

  lemma TableSlice(l: Layout, entries: seq<nat>, c: nat)
    requires TableFits(l, entries) && c < |entries|
    ensures 4 * c + 4 <= PartsEnd(l.fatSize, 512)
    ensures TableCopy(l, entries)[4 * c..4 * c + 4] == LittleEndian(entries[c], 4)
  {
    hide LittleEndian;
    var pieces := EntryBytes(entries);
    JoinedPart(pieces, 4, c);
    assert PartsEnd(c, 4) == 4 * c && PartsEnd(c + 1, 4) == 4 * c + 4;
    hide PartsEnd, Joined, EntryBytes;
    assert TableCopy(l, entries)[4 * c..4 * c + 4] == Joined(pieces)[4 * c..4 * c + 4];
  }

  // The sector of an entry, and the place in it.
  lemma EntryPlace(l: Layout, c: nat)
    requires l.Valid() && 4 * c + 4 <= PartsEnd(l.fatSize, 512) && c < FAT32_EOC
    ensures
      var sector, at := 4 * c / 512, 4 * c % 512;
      && c * 4 % U32 == 4 * c && at + 4 <= 512 && 512 * sector + at == 4 * c && sector < l.fatSize
      && (l.Tables() + sector) % U32 == l.Tables() + sector
  {
    hide Layout.Valid, Layout.Tables;
    assert PartsEnd(l.fatSize, 512) == 512 * l.fatSize;
    EntryInTable(l.fatSize, c);
    TableInReach(l, 4 * c / 512);
  }

  lemma TableInReach(l: Layout, sector: nat)
    requires l.Valid() && sector < l.fatSize
    ensures (l.Tables() + sector) % U32 == l.Tables() + sector
  {
    MulMonotone(l.fatSize, 1, l.copies);
    SmallIs(l.Tables() + sector);
  }

  lemma EntryInTable(fatSize: nat, c: nat)
    requires 4 * c + 4 <= 512 * fatSize && c < FAT32_EOC
    ensures
      var sector, at := 4 * c / 512, 4 * c % 512;
      c * 4 % U32 == 4 * c && at + 4 <= 512 && 512 * sector + at == 4 * c && sector < fatSize
  {
    EntryInside(c);
    SmallIs(4 * c);
    Divided(4 * c, 512);
  }

  lemma SmallIs(n: nat)
    requires n < U32
    ensures n % U32 == n
  {
  }

  /** The next cluster is the entry in the table, without its top four bits, whatever sector it is in. */
  lemma EntryReads(l: Layout, image: seq<bv8>, entries: seq<nat>, area: seq<seq<bv8>>, c: nat)
    requires LaidOut(l, image, entries, area) && c < |entries| && c < FAT32_EOC
    ensures VolumeOf(l, image).Next(c) == entries[c] % FAT_VALUES
  {
    hide TableCopy, PartsEnd, FromLittleEndian, Layout.Valid, LittleEndian, Layout.Tables, Layout.DataArea, Volume.Next, Lies,
      SectorOf, LaidOut, TableFits;
    LaidTable(l, image, entries, area, c);
    var at, sector, copy := 4 * c % 512, 4 * c / 512, TableCopy(l, entries);
    TableSlice(l, entries, c);
    EntryPlace(l, c);
    EntryNumber(entries, c);
    InSector(image, l.Tables(), copy, sector, at, 4);
    NextIs(VolumeOf(l, image), c, l.Tables() + sector, at);
  }

  lemma NextIs(v: Volume, c: nat, lba: nat, at: nat)
    requires lba == (v.fatStart + c * 4 % U32 / 512) % U32 && at == c * 4 % U32 % 512 && at + 4 <= 512
    ensures v.Next(c) == FromLittleEndian(v.disk(lba)[at..at + 4]) % FAT_VALUES
  {
    hide FromLittleEndian;
  }

  lemma EntryNumber(entries: seq<nat>, c: nat)
    requires c < |entries| && entries[c] < U32
    ensures FromLittleEndian(LittleEndian(entries[c], 4)) == entries[c]
  {
    SmallPowers();
    LittleEndianRoundTrip(entries[c], 4);
  }

  /** Cluster 2 is at the beginning of the data area, and each further one where the one before ends. */
  lemma ClusterReads(l: Layout, image: seq<bv8>, entries: seq<nat>, area: seq<seq<bv8>>, c: nat)
    requires LaidOut(l, image, entries, area) && 2 <= c < |area| + 2
    ensures VolumeOf(l, image).Valid()
    ensures VolumeOf(l, image).ClusterBytes(c) == area[c - 2]
  {
    hide LaidOut, Joined, Layout.DataArea, Layout.Tables, Volume.ClusterBytes, Lies, SectorOf;
    var v, size, data := VolumeOf(l, image), 512 * l.sectorsPerCluster, Joined(area);
    LaidArea(l, image, entries, area);
    JoinedPart(area, size, c - 2);
    PartsGrow(c - 2, size);
    var first := (c - 2) * l.sectorsPerCluster;
    assert PartsEnd(c - 2, size) == 512 * first;
    hide PartsEnd, EvenPieces, Layout.Valid;
    forall i | 0 <= i < size ensures v.ClusterBytes(c)[i] == area[c - 2][i] {
      ClusterByteIs(v, c, i);
      ByteOnDisk(image, l.DataArea(), data, first, l.sectorsPerCluster, i);
    }
  }

  lemma ClusterByteIs(v: Volume, c: nat, i: nat)
    requires v.Valid() && c >= 2 && i < v.ClusterSize()
    ensures v.ClusterBytes(c)[i] == v.disk(v.ClusterLba(c) + i / 512)[i % 512]
  {
  }

  // Byte i of so many sectors in a row.
  lemma ByteOnDisk(image: seq<bv8>, lba: nat, part: seq<bv8>, first: nat, sectors: nat, i: nat)
    requires Lies(image, 512 * lba, part) && 512 * (first + sectors) <= |part| && i < 512 * sectors
    ensures SectorOf(image, lba + first + i / 512)[i % 512] == part[512 * first..512 * (first + sectors)][i]
  {
    hide Lies, SectorOf;
    var q, r := i / 512, i % 512;
    Divided(i, 512);
    DivBelow(i, 512, sectors);
    InSector(image, lba, part, first + q, r, 1);
    var s := SectorOf(image, lba + (first + q));
    assert s[r] == s[r..r + 1][0];
    assert lba + (first + q) == lba + first + q;
  }

  // ---- Files ----

  // The table links the clusters of the list one after another, and ends there or goes on as it likes.
  ghost predicate Linked(entries: seq<nat>, clusters: seq<nat>) {
    && (forall i :: 0 <= i < |clusters| ==> 2 <= clusters[i] < 0x0FFF_FFF8 && clusters[i] < |entries|)
    && forall i :: 0 < i < |clusters| ==> entries[clusters[i - 1]] % 0x1000_0000 == clusters[i]
  }

  // What the clusters of the list hold together.
  function Gathered(area: seq<seq<bv8>>, clusters: seq<nat>): seq<bv8>
    requires forall i :: 0 <= i < |clusters| ==> 2 <= clusters[i] < |area| + 2
  {
    if clusters == [] then [] else area[clusters[0] - 2] + Gathered(area, clusters[1..])
  }

  /** Whatever clusters a file lies in, in whatever order, the chain from the first has its content. */
  lemma {:induction false} ChainHolds(l: Layout, image: seq<bv8>, entries: seq<nat>, area: seq<seq<bv8>>,
                                      clusters: seq<nat>, content: seq<bv8>)
    requires LaidOut(l, image, entries, area) && Linked(entries, clusters) && clusters != []
    requires forall i :: 0 <= i < |clusters| ==> clusters[i] < |area| + 2
    requires content <= Gathered(area, clusters)
    ensures VolumeOf(l, image).Valid() && VolumeOf(l, image).Content(clusters[0], |content|) == content
    decreases |clusters|
  {
    hide Volume.Next, Volume.ClusterBytes, Layout.Valid, LaidOut;
    var v, rest, size := VolumeOf(l, image), clusters[1..], 512 * l.sectorsPerCluster;
    ClusterReads(l, image, entries, area, clusters[0]);
    LaidArea(l, image, entries, area);
    var bytes := v.ClusterBytes(clusters[0]);
    if |content| <= size {
      assert bytes[..|content|] == content;
    } else {
      var tail := content[size..];
      assert Gathered(area, clusters)[size..] == Gathered(area, rest);
      EntryReads(l, image, entries, area, clusters[0]);
      RestLinked(entries, clusters);
      hide Linked;
      ChainHolds(l, image, entries, area, rest, tail);
      assert content == bytes + tail;
    }
  }

  lemma RestLinked(entries: seq<nat>, clusters: seq<nat>)
    requires Linked(entries, clusters) && clusters != []
    ensures Linked(entries, clusters[1..])
    ensures |clusters| > 1 ==> entries[clusters[0]] % FAT_VALUES == clusters[1..][0]
  {
    var rest := clusters[1..];
    forall i | 0 < i < |rest| ensures entries[rest[i - 1]] % FAT_VALUES == rest[i] {
      assert rest[i - 1] == clusters[i] && rest[i] == clusters[i + 1];
    }
    if |clusters| > 1 {
      assert entries[clusters[1 - 1]] % FAT_VALUES == clusters[1];
    }
  }

  /** The code reads back what was written: the volume is mounted from its boot sector, and the file opened
      at its first cluster gives its content, whole or in pieces of any lengths. */
  method FileReadBack(l: Layout, image: seq<bv8>, first: nat, size: nat, lens: seq<nat>, ghost entries: seq<nat>,
                      ghost area: seq<seq<bv8>>, ghost clusters: seq<nat>, ghost content: seq<bv8>)
    returns (whole: array<bv8>, pieces: seq<bv8>)
    requires LaidOut(l, image, entries, area) && Linked(entries, clusters) && clusters != []
    requires forall i :: 0 <= i < |clusters| ==> clusters[i] < |area| + 2
    requires content <= Gathered(area, clusters) && |content| == size < U32 && first == clusters[0]
    ensures whole[..] == content && pieces <= content
  {
    hide LaidOut, Linked, Gathered, MountedFat, Field, Volume.Content, Volume.Link, Volume.LinkIndex;
    var mounted, root := FatInit(DiskOf(image), l.start);
    WrittenMounts(l, image, entries, area);
    ChainHolds(l, image, entries, area, clusters, content);
    var file := new FatFile(mounted.value, first, size);
    whole := new bv8[size];
    var n := file.Read(whole, size);
    assert whole[..] == whole[..n];
    var again := new FatFile(mounted.value, first, size);
    pieces := again.ReadPieces(lens);
  }

  // ---- Directories ----

  // The states of a search that goes on over the first clusters of a list.
  ghost predicate Goes<S(!new)>(area: seq<seq<bv8>>, clusters: seq<nat>, scan: (S, seq<bv8>) -> Scan<S>, states: seq<S>)
    requires forall i :: 0 <= i < |clusters| ==> 2 <= clusters[i] < |area| + 2
  {
    && 1 <= |states| <= |clusters| + 1
    && forall i :: 0 <= i && i + 1 < |states| ==> scan(states[i], area[clusters[i] - 2]) == Continue(states[i + 1])
  }

  /** A search looks through the clusters of a directory in the order of its chain, each with the state that the
      one before it left, and ends with what it finds. */
  lemma {:induction false} SearchFinds<S(!new)>(l: Layout, image: seq<bv8>, entries: seq<nat>, area: seq<seq<bv8>>,
                                         clusters: seq<nat>, scan: (S, seq<bv8>) -> Scan<S>, states: seq<S>, limit: nat)
    requires LaidOut(l, image, entries, area) && Linked(entries, clusters)
    requires forall i :: 0 <= i < |clusters| ==> clusters[i] < |area| + 2
    requires Goes(area, clusters, scan, states) && |states| <= |clusters| && |states| <= limit
    requires !scan(states[|states| - 1], area[clusters[|states| - 1] - 2]).Continue?
    ensures VolumeOf(l, image).Valid()
    ensures Walk(VolumeOf(l, image), scan, states[0], clusters[0], limit) ==
            match scan(states[|states| - 1], area[clusters[|states| - 1] - 2])
              case Found(entry) => Some(entry)
              case _ => None
    decreases |states|
  {
    hide Volume.Next, Volume.ClusterBytes, Layout.Valid, LaidOut;
    var v := VolumeOf(l, image);
    LaidArea(l, image, entries, area);
    ClusterReads(l, image, entries, area, clusters[0]);
    if |states| > 1 {
      var rest, more := clusters[1..], states[1..];
      EntryReads(l, image, entries, area, clusters[0]);
      RestLinked(entries, clusters);
      assert scan(states[0], area[clusters[0] - 2]) == Continue(states[0 + 1]);
      forall i | 0 <= i && i + 1 < |more| ensures scan(more[i], area[rest[i] - 2]) == Continue(more[i + 1]) {
        assert scan(states[i + 1], area[clusters[i + 1] - 2]) == Continue(states[(i + 1) + 1]);
      }
      SearchFinds(l, image, entries, area, rest, scan, more, limit - 1);
    }
  }

  // ---- Writing a file ----

  // A table with the clusters of the list linked, the last one marked as such.
  function Chained(base: seq<nat>, clusters: seq<nat>): (r: seq<nat>)
    requires forall i :: 0 <= i < |clusters| ==> clusters[i] < |base|
    ensures |r| == |base|
    ensures AllWords(base) && AllWords(clusters) ==> AllWords(r)
  {
    if clusters == [] then base
    else Chained(base, clusters[1..])[clusters[0] := if |clusters| == 1 then 0x0FFF_FFFF else clusters[1]]
  }

  predicate AllWords(entries: seq<nat>) {
    forall c :: 0 <= c < |entries| ==> entries[c] < U32
  }

  predicate AllDifferent(clusters: seq<nat>) {
    forall i, j :: 0 <= i < j < |clusters| ==> clusters[i] != clusters[j]
  }

  lemma {:induction false} ChainedLinks(base: seq<nat>, clusters: seq<nat>)
    requires AllDifferent(clusters)
    requires forall i :: 0 <= i < |clusters| ==> 2 <= clusters[i] < FAT32_EOC && clusters[i] < |base|
    ensures Linked(Chained(base, clusters), clusters)
    ensures clusters != [] ==> Chained(base, clusters)[clusters[|clusters| - 1]] == 0x0FFF_FFFF
  {
    if |clusters| > 1 {
      var rest := clusters[1..];
      ChainedLinks(base, rest);
      var after, now := Chained(base, rest), Chained(base, clusters);
      forall i | 0 < i < |clusters| ensures now[clusters[i - 1]] % FAT_VALUES == clusters[i] {
        if i > 1 {
          assert rest[i - 2] == clusters[i - 1] && rest[i - 1] == clusters[i];
          assert after[rest[(i - 1) - 1]] % FAT_VALUES == rest[i - 1];
        }
      }
      assert clusters[|clusters| - 1] == rest[|rest| - 1];
    }
  }

  // The first bytes of a content, filled up with zeros.
  function Filling(content: seq<bv8>, size: nat): (r: seq<bv8>)
    ensures |r| == size
  {
    if |content| >= size then content[..size] else content + Zeros(size - |content|)
  }

  function Remaining(content: seq<bv8>, size: nat): seq<bv8> {
    if |content| >= size then content[size..] else []
  }

  // A data area with the content in the clusters of the list.
  function Filled(base: seq<seq<bv8>>, clusters: seq<nat>, content: seq<bv8>, size: nat): (r: seq<seq<bv8>>)
    requires forall i :: 0 <= i < |clusters| ==> 2 <= clusters[i] < |base| + 2
    ensures |r| == |base|
    decreases |clusters|
  {
    if clusters == [] then base
    else Filled(base, clusters[1..], Remaining(content, size), size)[clusters[0] - 2 := Filling(content, size)]
  }

  lemma {:induction false} FilledHolds(base: seq<seq<bv8>>, clusters: seq<nat>, content: seq<bv8>, size: nat)
    requires AllDifferent(clusters) && forall i :: 0 <= i < |clusters| ==> 2 <= clusters[i] < |base| + 2
    requires EvenPieces(base, size) && |content| <= PartsEnd(|clusters|, size)
    ensures EvenPieces(Filled(base, clusters, content, size), size)
    ensures content <= Gathered(Filled(base, clusters, content, size), clusters)
    decreases |clusters|
  {
    if clusters == [] {
      assert PartsEnd(0, size) == 0;
    } else {
      hide PartsEnd, Filling, Remaining;
      var rest, more := clusters[1..], Remaining(content, size);
      PartsGrow(|rest|, size);
      FillingFront(content, size);
      FilledHolds(base, rest, more, size);
      var after, now := Filled(base, rest, more, size), Filled(base, clusters, content, size);
      GatheredElsewhere(after, now, rest);
      assert Gathered(now, clusters) == Filling(content, size) + Gathered(now, rest);
    }
  }

  lemma FillingFront(content: seq<bv8>, size: nat)
    ensures |Remaining(content, size)| == if |content| >= size then |content| - size else 0
    ensures forall more: seq<bv8> :: Remaining(content, size) <= more ==> content <= Filling(content, size) + more
  {
  }

  lemma {:induction false} GatheredElsewhere(a: seq<seq<bv8>>, b: seq<seq<bv8>>, clusters: seq<nat>)
    requires |a| == |b| && forall i :: 0 <= i < |clusters| ==> 2 <= clusters[i] < |a| + 2
    requires forall i :: 0 <= i < |clusters| ==> a[clusters[i] - 2] == b[clusters[i] - 2]
    ensures Gathered(a, clusters) == Gathered(b, clusters)
    decreases |clusters|
  {
    if clusters != [] {
      GatheredElsewhere(a, b, clusters[1..]);
    }
  }

  /** Any content can be written into any list of distinct clusters that are enough for it, in any order. */
  lemma SomeFileFits(base: seq<nat>, area: seq<seq<bv8>>, clusters: seq<nat>, content: seq<bv8>, size: nat)
    returns (entries: seq<nat>, filled: seq<seq<bv8>>)
    requires AllWords(base) && AllDifferent(clusters) && EvenPieces(area, size) && |content| <= PartsEnd(|clusters|, size)
    requires forall i :: 0 <= i < |clusters| ==>
      2 <= clusters[i] < FAT32_EOC && clusters[i] < |base| && clusters[i] < |area| + 2
    ensures |entries| == |base| && AllWords(entries) && Linked(entries, clusters)
    ensures |filled| == |area| && EvenPieces(filled, size) && content <= Gathered(filled, clusters)
  {
    entries, filled := Chained(base, clusters), Filled(area, clusters, content, size);
    ChainedLinks(base, clusters);
    FilledHolds(area, clusters, content, size);
  }
}
