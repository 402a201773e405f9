/** Files and directories of a FAT32 volume as chains of clusters: a file cursor that reads any number
    of bytes at a time, and a directory walk with a limit on the clusters visited. */
module Fat {
  import opened Bytes

  const SECTOR_SIZE: nat := 512
  const FAT32_EOC: nat := 0x0FFF_FFF8
  const FAT_VALUES: nat := 0x1000_0000

  type Sector = s: seq<bv8> | |s| == 512 witness seq(512, _ => 0)

  // The mounted volume: an ideal array of sectors and the layout read from the boot sector.
  datatype Volume = Volume(disk: nat -> Sector, fatStart: nat, dataStart: nat, sectorsPerCluster: nat, totalSectors: nat)
  {
    predicate Valid() {
      1 <= sectorsPerCluster <= 64 && totalSectors < U32
    }

    function ClusterSize(): (n: nat)
      requires Valid()
      ensures 512 <= n <= 32768
    {
      sectorsPerCluster * SECTOR_SIZE
    }

    function ClusterLba(cluster: nat): nat
      requires cluster >= 2
    {
      dataStart + (cluster - 2) * sectorsPerCluster
    }

    // The table entry of a cluster, without its top four bits.
    function Next(cluster: nat): nat {
      var offset := cluster * 4 % U32;
      var sector := disk((fatStart + offset / SECTOR_SIZE) % U32);
      var at := offset % SECTOR_SIZE;
      EntryInside(cluster);
      FromLittleEndian(sector[at..at + 4]) % FAT_VALUES
    }

    function ClusterBytes(cluster: nat): (r: seq<bv8>)
      requires Valid() && cluster >= 2
      ensures |r| == ClusterSize()
    {
      seq(ClusterSize(), i requires 0 <= i < ClusterSize() => disk(ClusterLba(cluster) + i / 512)[i % 512])
    }

    // A cluster number that continues a chain rather than ending it.
    predicate InChain(cluster: nat) {
      2 <= cluster < FAT32_EOC
    }

    // Link k of the chain, or the value that ended it before.
    function Link(cluster: nat, k: nat): nat
      decreases k
    {
      if k == 0 || !InChain(cluster) then cluster else Link(Next(cluster), k - 1)
    }

    // The first n bytes of a chain, or fewer if it ends before.
    function Content(cluster: nat, n: nat): (r: seq<bv8>)
      requires Valid()
      ensures |r| <= n
      decreases n
    {
      if n == 0 || !InChain(cluster) then []
      else if n <= ClusterSize() then ClusterBytes(cluster)[..n]
      else ClusterBytes(cluster) + Content(Next(cluster), n - ClusterSize())
    }

    lemma {:induction false} LinkNext(cluster: nat, k: nat)
      requires InChain(Link(cluster, k))
      ensures Link(cluster, k + 1) == Next(Link(cluster, k))
      decreases k
    {
      hide Next;
      if k > 0 {
        LinkNext(Next(cluster), k - 1);
      }
    }

    // Where link k begins in the content.
    function Boundary(k: nat): nat
      requires Valid()
    {
      k * ClusterSize()
    }

    lemma BoundaryStep(k: nat)
      requires Valid()
      ensures Boundary(0) == 0 && Boundary(k + 1) == Boundary(k) + ClusterSize()
    {
    }

    lemma BoundaryGrows(j: nat, k: nat)
      requires Valid() && j <= k
      ensures Boundary(j) <= Boundary(k)
    {
      MulMonotone(ClusterSize(), j, k);
    }

    // From a cluster boundary on, the content is that of the chain from there.
    lemma {:induction false} ContentTail(cluster: nat, n: nat, k: nat)
      requires Valid() && Boundary(k) <= |Content(cluster, n)|
      ensures Boundary(k) <= n
      ensures Content(cluster, n)[Boundary(k)..] == Content(Link(cluster, k), n - Boundary(k))
      decreases k
    {
      hide Next, ClusterBytes, Boundary;
      if k == 0 {
        BoundaryStep(0);
        assert Content(cluster, n)[0..] == Content(cluster, n);
      } else {
        BoundaryStep(0);
        BoundaryStep(k - 1);
        if n <= ClusterSize() {
          BoundaryGrows(1, k);
          assert n == ClusterSize() == Boundary(k) && InChain(cluster);
          if k >= 2 {
            BoundaryGrows(2, k);
            BoundaryStep(1);
            assert false;
          }
          assert Content(Link(cluster, 1), 0) == [];
        } else {
          ContentTail(Next(cluster), n - ClusterSize(), k - 1);
          var head, tail := ClusterBytes(cluster), Content(Next(cluster), n - ClusterSize());
          assert (head + tail)[Boundary(k)..] == tail[Boundary(k - 1)..];
        }
      }
    }

    /** The content has every byte of the file exactly when the chain has a cluster for each. */
    lemma {:induction false} ContentComplete(cluster: nat, n: nat)
      requires Valid()
      ensures |Content(cluster, n)| == n <==> Covers(cluster, n)
      decreases n
    {
      hide Next, ClusterBytes, Boundary, InChain, Link;
      BoundaryStep(0);
      assert Link(cluster, 0) == cluster by { LinkZero(cluster); }
      if n == 0 {
      } else if !InChain(cluster) {
        assert Boundary(0) < n;
      } else if n <= ClusterSize() {
        forall k: nat | Boundary(k) < n ensures InChain(Link(cluster, k)) {
          if k >= 1 {
            BoundaryGrows(1, k);
          }
        }
      } else {
        ContentComplete(Next(cluster), n - ClusterSize());
        CoversNext(cluster, n);
      }
    }

    // The link of the chain that holds the byte at an offset, and where in it.
    function LinkIndex(offset: nat): nat
      requires Valid()
    {
      Quotient(offset, ClusterSize())
    }

    function InLink(offset: nat): (r: nat)
      requires Valid()
      ensures r < ClusterSize()
    {
      offset % ClusterSize()
    }

    lemma OffsetSplit(offset: nat)
      requires Valid()
      ensures Boundary(LinkIndex(offset)) + InLink(offset) == offset
    {
      Divided(offset, ClusterSize());
    }

    // The bytes at an offset are those of the cluster there.
    lemma ClusterHere(first: nat, size: nat, offset: nat, n: nat)
      requires Valid() && offset <= |Content(first, size)| && InChain(Link(first, LinkIndex(offset)))
      requires InLink(offset) + n <= ClusterSize() && offset + n <= size && n > 0
      ensures offset + n <= |Content(first, size)|
      ensures Content(first, size)[offset..offset + n] ==
              ClusterBytes(Link(first, LinkIndex(offset)))[InLink(offset)..InLink(offset) + n]
    {
      hide Next, ClusterBytes, Boundary, ClusterSize, Content, Link, LinkIndex, InLink;
      var k, at := LinkIndex(offset), InLink(offset);
      OffsetSplit(offset);
      ContentTail(first, size, k);
      var tail := Content(Link(first, k), size - Boundary(k));
      ClusterFirst(Link(first, k), size - Boundary(k), at, n);
      SliceOfSlice(Content(first, size), Boundary(k), |Content(first, size)|, at, at + n);
    }

    lemma ClusterFirst(cluster: nat, n: nat, at: nat, len: nat)
      requires Valid() && InChain(cluster) && at + len <= ClusterSize() && at + len <= n && len > 0
      ensures at + len <= |Content(cluster, n)|
      ensures Content(cluster, n)[at..at + len] == ClusterBytes(cluster)[at..at + len]
    {
      hide Next, ClusterBytes, ClusterSize;
    }

    // Where the chain has ended, so has the content.
    lemma ChainEnded(first: nat, size: nat, offset: nat)
      requires Valid() && offset <= |Content(first, size)| && !InChain(Link(first, LinkIndex(offset)))
      ensures offset == |Content(first, size)|
    {
      hide Next, ClusterBytes, Boundary, ClusterSize, Link, LinkIndex, InLink, InChain;
      OffsetSplit(offset);
      ContentTail(first, size, LinkIndex(offset));
    }

    lemma LinkZero(cluster: nat)
      ensures Link(cluster, 0) == cluster
    {
    }

    // The chain has a cluster for every byte below n.
    ghost predicate Covers(cluster: nat, n: nat)
      requires Valid()
    {
      forall k: nat :: Boundary(k) < n ==> InChain(Link(cluster, k))
    }

    lemma CoversNext(cluster: nat, n: nat)
      requires Valid() && InChain(cluster) && n > ClusterSize()
      ensures Covers(cluster, n) <==> Covers(Next(cluster), n - ClusterSize())
    {
      hide Next, Boundary, InChain;
      if Covers(cluster, n) {
        forall k: nat | Boundary(k) < n - ClusterSize() ensures InChain(Link(Next(cluster), k)) {
          BoundaryStep(k);
          assert InChain(Link(cluster, k + 1));
        }
      }
      if Covers(Next(cluster), n - ClusterSize()) {
        forall k: nat | Boundary(k) < n ensures InChain(Link(cluster, k)) {
          if k > 0 {
            BoundaryStep(k - 1);
            assert InChain(Link(Next(cluster), k - 1));
          }
        }
      }
    }
  }

  lemma EntryInside(cluster: nat)
    ensures cluster * 4 % U32 % SECTOR_SIZE + 4 <= 512
  {
  }

  // ---- The file cursor ----

  class FatFile {
    const volume: Volume
    const firstCluster: nat
    const fileSize: nat
    var curCluster: nat
    var offset: nat

    ghost predicate Valid()
      reads this
    {
      && volume.Valid() && fileSize < U32
      && offset <= |Bytes()|
      && curCluster == volume.Link(firstCluster, volume.LinkIndex(offset))
    }

    // What the file holds: its cluster chain, cut to the file size.
    ghost function Bytes(): seq<bv8>
      requires volume.Valid()
    {
      volume.Content(firstCluster, fileSize)
    }

    constructor (volume: Volume, firstCluster: nat, fileSize: nat)
      requires volume.Valid() && fileSize < U32
      ensures Valid() && offset == 0
      ensures this.volume == volume && this.firstCluster == firstCluster && this.fileSize == fileSize
    {
      this.volume, this.firstCluster, this.fileSize := volume, firstCluster, fileSize;
      this.curCluster, this.offset := firstCluster, 0;
    }

    /** Reads the next bytes of the file, as many as asked for or as there are. */
    method Read(buf: array<bv8>, len: nat) returns (total: nat)
      requires Valid() && len <= buf.Length
      modifies this, buf
      ensures Valid() && offset == old(offset) + total
      ensures total == if len <= |Bytes()| - old(offset) then len else |Bytes()| - old(offset)
      ensures buf[..total] == Bytes()[old(offset)..old(offset) + total]
      ensures buf[total..] == old(buf[total..])
    {
      hide Volume.Link, Volume.LinkIndex, Volume.Content, Volume.ClusterSize;
      total := 0;
      if offset >= fileSize {
        return;
      }
      var wanted := if len > fileSize - offset then fileSize - offset else len;
      var size := volume.ClusterSize();
      ghost var start := offset;
      while total < wanted && 2 <= curCluster < FAT32_EOC
        invariant Valid() && total <= wanted && offset == start + total
        invariant buf[..total] == Bytes()[start..offset]
        invariant forall j :: total <= j < buf.Length ==> buf[j] == old(buf[j])
        decreases wanted - total
      {
        ghost var was := offset;
        var n := ReadSome(buf, total, wanted - total, size);
        assert Bytes()[start..offset] == Bytes()[start..was] + Bytes()[was..offset];
        assert buf[..total + n] == buf[..total] + buf[total..total + n];
        total := total + n;
      }
      if total < wanted {
        volume.ChainEnded(firstCluster, fileSize, offset);
      }
    }

    // One turn of the loop: the rest of the current cluster, or less.
    method ReadSome(buf: array<bv8>, at: nat, wanted: nat, size: nat) returns (n: nat)
      requires Valid() && size == volume.ClusterSize() && volume.InChain(curCluster)
      requires wanted > 0 && at + wanted <= buf.Length && offset + wanted <= fileSize
      modifies this, buf
      ensures Valid() && 1 <= n <= wanted && offset == old(offset) + n
      ensures buf[..at] == old(buf[..at]) && forall j :: at + n <= j < buf.Length ==> buf[j] == old(buf[j])
      ensures buf[at..at + n] == Bytes()[old(offset)..offset]
    {
      hide Volume.Next, Volume.Content, Volume.ClusterBytes, Volume.ClusterSize;
      var clustOff := offset % size;
      n := size - clustOff;
      if n > wanted {
        n := wanted;
      }
      volume.ClusterHere(firstCluster, fileSize, offset, n);
      CopyFromCluster(buf, at, clustOff, n);
      offset := offset + n;
      if offset % size == 0 {
        CursorCrosses(offset - n, n, size);
        volume.LinkNext(firstCluster, (offset - n) / size);
        curCluster := volume.Next(curCluster);
      } else {
        CursorStays(offset - n, n, size);
      }
    }

    method CopyFromCluster(buf: array<bv8>, at: nat, clustOff: nat, n: nat)
      requires volume.Valid() && curCluster >= 2 && clustOff + n <= volume.ClusterSize() && at + n <= buf.Length
      modifies buf
      ensures buf[..at] == old(buf[..at]) && buf[at + n..] == old(buf[at + n..])
      ensures buf[at..at + n] == volume.ClusterBytes(curCluster)[clustOff..clustOff + n]
    {
      var clustBuf := volume.ClusterBytes(curCluster);
      for i := 0 to n
        modifies buf
        invariant buf[..at] == old(buf[..at]) && buf[at + n..] == old(buf[at + n..])
        invariant buf[at..at + i] == clustBuf[clustOff..clustOff + i]
      {
        buf[at + i] := clustBuf[clustOff + i];
      }
    }

    /** Any number of reads of any lengths give consecutive pieces of the file. */
    method ReadPieces(lens: seq<nat>) returns (all: seq<bv8>)
      requires Valid()
      modifies this
      ensures Valid() && old(offset) + |all| == offset && all == Bytes()[old(offset)..offset]
    {
      hide Volume.Link, Volume.LinkIndex, Volume.Content;
      all := [];
      for i := 0 to |lens|
        invariant Valid() && old(offset) <= offset && all == Bytes()[old(offset)..offset]
      {
        var buf := new bv8[lens[i]];
        var n := Read(buf, lens[i]);
        all := all + buf[..n];
      }
    }
  }

  lemma CursorCrosses(offset: nat, n: nat, size: nat)
    requires size > 0 && offset % size + n <= size && n > 0 && (offset + n) % size == 0
    ensures (offset + n) / size == offset / size + 1
  {
    var q: nat, r: nat := offset / size, offset % size;
    Divided(offset, size);
    assert offset == size * q + r;
    assert size * (q + 1) == size * q + size;
    if r + n < size {
      DivModUnique(offset + n, size, q, r + n);
    } else {
      DivModUnique(offset + n, size, q + 1, 0);
    }
  }

  lemma CursorStays(offset: nat, n: nat, size: nat)
    requires size > 0 && offset % size + n <= size && (offset + n) % size != 0
    ensures (offset + n) / size == offset / size
  {
    var q: nat, r: nat := offset / size, offset % size;
    Divided(offset, size);
    assert offset == size * q + r;
    assert size * (q + 1) == size * q + size;
    if r + n == size {
      DivModUnique(offset + n, size, q + 1, 0);
    } else {
      DivModUnique(offset + n, size, q, r + n);
    }
  }

  /** A read of a file whose chain is complete is short only at the end of the file. */
  lemma ShortOnlyAtEnd(v: Volume, cluster: nat, size: nat, offset: nat, len: nat)
    requires v.Valid() && v.Covers(cluster, size) && offset <= size
    ensures
      var bytes := v.Content(cluster, size);
      var total := if len <= |bytes| - offset then len else |bytes| - offset;
      total < len ==> offset + total == size
  {
    v.ContentComplete(cluster, size);
  }

  // ---- The directory walk ----

  // What looking through one cluster of a directory gives: an entry, the end of the directory, or a
  // state to go on with, such as a long name collected so far.
  datatype Scan<S> = Found(entry: nat) | EndOfDirectory | Continue(state: S)

  // The search with a bound on the clusters looked at.
  function Walk<S>(v: Volume, scan: (S, seq<bv8>) -> Scan<S>, state: S, cluster: nat, limit: nat): Option<nat>
    requires v.Valid()
    decreases limit
  {
    if !v.InChain(cluster) || limit == 0 then None
    else
      match scan(state, v.ClusterBytes(cluster))
      case Found(entry) => Some(entry)
      case EndOfDirectory => None
      case Continue(next) => Walk(v, scan, next, v.Next(cluster), limit - 1)
  }

  // The clusters of the volume.
  function ClusterCount(v: Volume): nat
    requires v.Valid()
  {
    v.totalSectors / v.sectorsPerCluster
  }

  // The number of clusters allowed in one walk, a 32-bit sum.
  function VisitLimit(v: Volume): nat
    requires v.Valid()
  {
    (ClusterCount(v) + 2) % U32
  }

  // The test that ends a walk after so many clusters, in 32-bit arithmetic.
  predicate TooMany(visited: nat, limit: nat) {
    (visited + 1) % U32 > limit
  }

  // The counter passes the limit exactly when the limit is not the largest 32-bit number.
  lemma CounterPasses(limit: nat)
    requires limit < U32
    ensures (exists visited: nat :: visited < U32 && TooMany(visited, limit)) <==> limit + 1 < U32
    ensures limit + 1 < U32 ==> forall visited: nat :: visited <= limit ==> (TooMany(visited, limit) <==> visited == limit)
  {
    if limit + 1 < U32 {
      assert TooMany(limit, limit);
    }
  }

  // Where the loop of the code is: under way, with its 32-bit counter, or stopped with a result.
  datatype Turn<S> = Running(state: S, cluster: nat, visited: nat) | Stopped(result: Option<nat>)

  // One turn of the loop.
  function NextTurn<S>(v: Volume, scan: (S, seq<bv8>) -> Scan<S>, t: Turn<S>): Turn<S>
    requires v.Valid()
  {
    if t.Stopped? then t
    else if !v.InChain(t.cluster) || TooMany(t.visited, VisitLimit(v)) then Stopped(None)
    else
      match scan(t.state, v.ClusterBytes(t.cluster))
      case Found(entry) => Stopped(Some(entry))
      case EndOfDirectory => Stopped(None)
      case Continue(next) => Running(next, v.Next(t.cluster), (t.visited + 1) % U32)
  }

  function AfterTurns<S>(v: Volume, scan: (S, seq<bv8>) -> Scan<S>, start: S, dirCluster: nat, turns: nat): Turn<S>
    requires v.Valid()
  {
    if turns == 0 then Running(start, dirCluster, 0)
    else NextTurn(v, scan, AfterTurns(v, scan, start, dirCluster, turns - 1))
  }

  ghost predicate Stops<S>(v: Volume, scan: (S, seq<bv8>) -> Scan<S>, start: S, dirCluster: nat)
    requires v.Valid()
  {
    exists turns: nat :: AfterTurns(v, scan, start, dirCluster, turns).Stopped?
  }

  /** The loop of the code, which counts the clusters it has visited: it stops, with the result of the
      bounded search. */
  method FindInDir<S>(v: Volume, scan: (S, seq<bv8>) -> Scan<S>, start: S, dirCluster: nat) returns (r: Option<nat>)
    requires v.Valid() && VisitLimit(v) + 1 < U32
    ensures r == Walk(v, scan, start, dirCluster, VisitLimit(v))
    ensures exists turns: nat :: AfterTurns(v, scan, start, dirCluster, turns) == Stopped(r)
  {
    hide Volume.Next, Volume.ClusterBytes, VisitLimit;
    ghost var turns: nat := 0;
    var cluster: nat, state, visited: nat := dirCluster, start, 0;
    var limit := VisitLimit(v);
    CounterPasses(limit);
    while 2 <= cluster < FAT32_EOC
      invariant visited <= limit
      invariant Walk(v, scan, start, dirCluster, limit) == Walk(v, scan, state, cluster, limit - visited)
      invariant AfterTurns(v, scan, start, dirCluster, turns) == Running(state, cluster, visited)
      decreases limit - visited
    {
      turns := turns + 1;
      ghost var turn := AfterTurns(v, scan, start, dirCluster, turns);
      assert turn == NextTurn(v, scan, Running(state, cluster, visited));
      if TooMany(visited, limit) {
        return None;
      }
      visited := (visited + 1) % U32;
      match scan(state, v.ClusterBytes(cluster)) {
        case Found(entry) => return Some(entry);
        case EndOfDirectory => return None;
        case Continue(next) => state := next;
      }
      cluster := v.Next(cluster);
    }
    assert AfterTurns(v, scan, start, dirCluster, turns + 1) == Stopped(None);
    r := None;
  }

  // A cluster that lies inside the volume.
  predicate InVolume(v: Volume, cluster: nat)
    requires v.Valid()
  {
    2 <= cluster < ClusterCount(v) + 2
  }

  // The first n links of a chain are distinct clusters of the volume.
  ghost predicate Sound(v: Volume, cluster: nat, n: nat)
    requires v.Valid()
  {
    && (forall i: nat :: i < n ==> v.InChain(v.Link(cluster, i)) && InVolume(v, v.Link(cluster, i)))
    && (forall i: nat, j: nat :: i < j < n ==> v.Link(cluster, i) != v.Link(cluster, j))
  }

  /** A chain of distinct clusters of the volume is never longer than the volume has clusters, so
      not longer than the limit, if that does not wrap ... */
  lemma SoundChainWithinLimit(v: Volume, cluster: nat, n: nat)
    requires v.Valid() && Sound(v, cluster, n)
    ensures n <= ClusterCount(v)
    ensures ClusterCount(v) + 2 < U32 ==> n <= VisitLimit(v)
  {
    hide Volume.Link, Volume.Next;
    var links: seq<nat> := seq(n, i requires i >= 0 => v.Link(cluster, i));
    Pigeonhole(links, ClusterCount(v));
  }

  // Distinct numbers among bound many, from two on, are at most that many.
  lemma {:induction false} Pigeonhole(s: seq<nat>, bound: nat)
    requires forall i :: 0 <= i < |s| ==> 2 <= s[i] < bound + 2
    requires forall i, j :: 0 <= i < j < |s| ==> s[i] != s[j]
    ensures |s| <= bound
    decreases bound
  {
    if bound == 0 {
      if |s| > 0 {
        FirstInRange(s, bound);
        assert false;
      }
    } else if exists i :: 0 <= i < |s| && s[i] == bound + 1 {
      var i :| 0 <= i < |s| && s[i] == bound + 1;
      Pigeonhole(s[..i] + s[i + 1..], bound - 1);
    } else {
      Pigeonhole(s, bound - 1);
    }
  }

  lemma FirstInRange(s: seq<nat>, bound: nat)
    requires |s| > 0 && forall i :: 0 <= i < |s| ==> 2 <= s[i] < bound + 2
    ensures 2 <= s[0] < bound + 2
  {
  }

  // Once the chain is shorter than both limits, they make no difference.
  lemma {:induction false} LimitIrrelevant<S>(v: Volume, scan: (S, seq<bv8>) -> Scan<S>, state: S, cluster: nat, n: nat,
                                              limit: nat, limit': nat)
    requires v.Valid() && !v.InChain(v.Link(cluster, n)) && n <= limit && n <= limit'
    ensures Walk(v, scan, state, cluster, limit) == Walk(v, scan, state, cluster, limit')
    decreases n
  {
    hide Volume.Next, Volume.ClusterBytes;
    if v.InChain(cluster) {
      match scan(state, v.ClusterBytes(cluster)) {
        case Continue(next) => LimitIrrelevant(v, scan, next, v.Next(cluster), n - 1, limit - 1, limit' - 1);
        case _ =>
      }
    }
  }

  /** ... so the limit never cuts a sound directory short: the walk finds what an unlimited one would. */
  lemma LimitNeverCutsSoundChain<S>(v: Volume, scan: (S, seq<bv8>) -> Scan<S>, state: S, cluster: nat, n: nat, more: nat)
    requires v.Valid() && ClusterCount(v) + 2 < U32
    requires Sound(v, cluster, n) && !v.InChain(v.Link(cluster, n))
    ensures Walk(v, scan, state, cluster, VisitLimit(v)) == Walk(v, scan, state, cluster, VisitLimit(v) + more)
  {
    hide Volume.Link, Volume.Next, Walk, VisitLimit;
    SoundChainWithinLimit(v, cluster, n);
    LimitIrrelevant(v, scan, state, cluster, n, VisitLimit(v), VisitLimit(v) + more);
  }

  // ---- Where the limit wraps ----

  // Every sector of the table says that cluster 2 is followed by cluster 3, and 3 is the last.
  const TO_THREE: seq<bv8> := [3, 0, 0, 0]
  const TO_END: seq<bv8> := [0xF8, 0xFF, 0xFF, 0x0F]
  const TWO_LINKS: Sector := Zeros(8) + TO_THREE + TO_END + Zeros(496)

  function TwoLinkVolume(totalSectors: nat, sectorsPerCluster: nat): Volume {
    Volume(_ => TWO_LINKS, 0, 0, sectorsPerCluster, totalSectors)
  }

  lemma NumberOfFour(b: seq<bv8>)
    requires |b| == 4
    ensures FromLittleEndian(b) == b[0] as nat + 256 * (b[1] as nat + 256 * (b[2] as nat + 256 * b[3] as nat))
  {
    var c := b[1..];
    var d := c[1..];
    var e := d[1..];
    assert e[1..] == [] && FromLittleEndian(e) == e[0] as nat;
    assert FromLittleEndian(d) == d[0] as nat + 256 * FromLittleEndian(e);
    assert FromLittleEndian(c) == c[0] as nat + 256 * FromLittleEndian(d);
  }

  lemma TwoLinksRead(v: Volume)
    requires v.fatStart == 0 && v.disk(0) == TWO_LINKS
    ensures v.Next(2) == 3 && v.Next(3) == FAT32_EOC
  {
    SmallLink();
    LastLink();
    LinksLie();
    hide FromLittleEndian, Volume.Next;
    EntryRead(v, 2);
    EntryRead(v, 3);
  }

  lemma LinksLie()
    ensures TWO_LINKS[8..12] == TO_THREE && TWO_LINKS[12..16] == TO_END
  {
  }

  lemma SmallLink()
    ensures FromLittleEndian(TO_THREE) == 3
  {
    NumberOfFour(TO_THREE);
  }

  lemma LastLink()
    ensures FromLittleEndian(TO_END) == FAT32_EOC
  {
    NumberOfFour(TO_END);
    hide FromLittleEndian;
  }

  lemma EntryRead(v: Volume, cluster: nat)
    requires v.fatStart == 0 && cluster < 128
    ensures v.Next(cluster) == FromLittleEndian(v.disk(0)[4 * cluster..4 * cluster + 4]) % FAT_VALUES
  {
    hide FromLittleEndian;
  }

  lemma TwoLinksSound(v: Volume)
    requires v.Valid() && v.fatStart == 0 && v.disk(0) == TWO_LINKS && ClusterCount(v) >= 2
    ensures Sound(v, 2, 2) && v.InChain(2) && v.Next(2) == 3 && v.InChain(3) && !v.InChain(v.Link(2, 2))
  {
    TwoLinksRead(v);
    hide Volume.Next, FromLittleEndian;
    assert v.Link(2, 0) == 2 && v.Link(3, 0) == 3;
    assert v.Link(2, 1) == 3 && v.Link(3, 1) == FAT32_EOC;
    assert v.Link(2, 2) == FAT32_EOC;
    forall i: nat | i < 2 ensures v.InChain(v.Link(2, i)) && InVolume(v, v.Link(2, i)) {
      assert i == 0 || i == 1;
    }
    forall i: nat, j: nat | i < j < 2 ensures v.Link(2, i) != v.Link(2, j) {
      assert i == 0 && j == 1;
    }
  }

  // The limit is large enough for every sound chain of a volume of these dimensions.
  ghost predicate LimitEnough(totalSectors: nat, sectorsPerCluster: nat) {
    forall v: Volume, cluster: nat, n: nat ::
      v.Valid() && v.totalSectors == totalSectors && v.sectorsPerCluster == sectorsPerCluster && Sound(v, cluster, n) ==>
        n <= VisitLimit(v)
  }

  /** The limit is enough for every sound chain exactly when its sum stays below 2^32. */
  lemma LimitEnoughExactly(totalSectors: nat, sectorsPerCluster: nat)
    requires 1 <= sectorsPerCluster <= 64 && totalSectors < U32
    ensures LimitEnough(totalSectors, sectorsPerCluster) <==> totalSectors / sectorsPerCluster + 2 < U32
  {
    hide Sound;
    var v := TwoLinkVolume(totalSectors, sectorsPerCluster);
    if totalSectors / sectorsPerCluster + 2 < U32 {
      forall v: Volume, cluster: nat, n: nat
        | v.Valid() && v.totalSectors == totalSectors && v.sectorsPerCluster == sectorsPerCluster && Sound(v, cluster, n)
        ensures n <= VisitLimit(v)
      {
        SoundChainWithinLimit(v, cluster, n);
      }
    } else {
      OneSectorEach(totalSectors, sectorsPerCluster);
      TwoLinksSound(v);
      assert v.Valid() && VisitLimit(v) < 2;
    }
  }

  lemma OneSectorEach(totalSectors: nat, sectorsPerCluster: nat)
    requires sectorsPerCluster >= 1 && totalSectors < U32 && totalSectors / sectorsPerCluster + 2 >= U32
    ensures sectorsPerCluster == 1
  {
    Divided(totalSectors, sectorsPerCluster);
    if sectorsPerCluster >= 2 {
      MulMonotone(totalSectors / sectorsPerCluster, 2, sectorsPerCluster);
      assert false;
    }
  }

  // ---- Where the walk never ends ----

  // Every sector of the table says that cluster 2 is followed by itself.
  const SELF_LINK: Sector := [0, 0, 0, 0, 0, 0, 0, 0, 2, 0, 0, 0] + Zeros(500)

  function SelfLinkVolume(totalSectors: nat, sectorsPerCluster: nat): Volume {
    Volume(_ => SELF_LINK, 0, 0, sectorsPerCluster, totalSectors)
  }

  // A search that finds nothing and no end.
  function GoOn(state: nat, bytes: seq<bv8>): Scan<nat> {
    Continue(state)
  }

  lemma SelfLinkRead(v: Volume)
    requires v.fatStart == 0 && v.disk(0) == SELF_LINK
    ensures v.Next(2) == 2
  {
    var a := SELF_LINK[8..12];
    assert a == [2, 0, 0, 0];
    NumberOfFour(a);
    assert FromLittleEndian(a) == 2;
    hide FromLittleEndian, Volume.Next;
    EntryRead(v, 2);
  }

  lemma {:induction false} RunsForever(v: Volume, turns: nat)
    requires v.Valid() && v.Next(2) == 2 && VisitLimit(v) + 1 == U32
    ensures AfterTurns(v, GoOn, 0, 2, turns) == Running(0, 2, turns % U32)
  {
    hide Volume.Next, VisitLimit, Volume.ClusterBytes;
    if turns > 0 {
      RunsForever(v, turns - 1);
      ModOfSum(turns - 1, 1, U32);
    }
  }

  // Under a limit that can be passed, the loop has stopped after one turn more than it allows.
  lemma {:induction false} VisitedCounts<S>(v: Volume, scan: (S, seq<bv8>) -> Scan<S>, start: S, dirCluster: nat, turns: nat)
    requires v.Valid() && VisitLimit(v) + 1 < U32 && turns <= VisitLimit(v) + 1
    ensures
      var t := AfterTurns(v, scan, start, dirCluster, turns);
      t.Stopped? || (t.visited == turns && turns <= VisitLimit(v))
  {
    hide Volume.Next, VisitLimit, Volume.ClusterBytes;
    if turns > 0 {
      VisitedCounts(v, scan, start, dirCluster, turns - 1);
    }
  }

  // The walk stops on every table and for every search.
  ghost predicate AlwaysStops(totalSectors: nat, sectorsPerCluster: nat) {
    forall v: Volume, scan: (nat, seq<bv8>) -> Scan<nat>, start: nat, dirCluster: nat ::
      v.Valid() && v.totalSectors == totalSectors && v.sectorsPerCluster == sectorsPerCluster ==>
        Stops(v, scan, start, dirCluster)
  }

  /** In a volume of given dimensions the directory walk stops on every table, cyclic ones too, and for
      every search, except with one sector per cluster and 2^32 - 3 sectors: there it runs round a circle
      for ever. */
  lemma WalkStopsExactly(totalSectors: nat, sectorsPerCluster: nat)
    requires 1 <= sectorsPerCluster <= 64 && totalSectors < U32
    ensures AlwaysStops(totalSectors, sectorsPerCluster) <==> totalSectors / sectorsPerCluster + 3 != U32
  {
    hide Stops, AfterTurns;
    if totalSectors / sectorsPerCluster + 3 == U32 {
      var v := SelfLinkVolume(totalSectors, sectorsPerCluster);
      SelfLinkRead(v);
      assert VisitLimit(v) + 1 == U32;
      NeverStops(v);
    } else {
      forall v: Volume, scan: (nat, seq<bv8>) -> Scan<nat>, start: nat, dirCluster: nat
        | v.Valid() && v.totalSectors == totalSectors && v.sectorsPerCluster == sectorsPerCluster
        ensures Stops(v, scan, start, dirCluster)
      {
        assert VisitLimit(v) + 1 < U32;
        SomeTurnStops(v, scan, start, dirCluster);
      }
    }
  }

  lemma NeverStops(v: Volume)
    requires v.Valid() && v.Next(2) == 2 && VisitLimit(v) + 1 == U32
    ensures !Stops(v, GoOn, 0, 2)
  {
    hide AfterTurns, VisitLimit, Volume.Next;
    forall turns: nat ensures !AfterTurns(v, GoOn, 0, 2, turns).Stopped? {
      RunsForever(v, turns);
    }
  }

  lemma SomeTurnStops<S>(v: Volume, scan: (S, seq<bv8>) -> Scan<S>, start: S, dirCluster: nat)
    requires v.Valid() && VisitLimit(v) + 1 < U32
    ensures Stops(v, scan, start, dirCluster)
  {
    hide AfterTurns, VisitLimit;
    VisitedCounts(v, scan, start, dirCluster, VisitLimit(v) + 1);
  }

  // A directory whose entry is in its second cluster.
  function SecondCluster(seen: nat, bytes: seq<bv8>): Scan<nat> {
    if seen == 0 then Continue(1) else Found(7)
  }

  /** What goes wrong then: in a volume of 2^32 - 2 or 2^32 - 1 clusters of one sector, an entry in the
      second cluster of a sound directory is not found, though a larger limit would find it. */
  lemma WrappedLimitCutsShort(totalSectors: nat)
    requires totalSectors == U32 - 2 || totalSectors == U32 - 1
    ensures
      var v := TwoLinkVolume(totalSectors, 1);
      && v.Valid() && Sound(v, 2, 2) && !v.InChain(v.Link(2, 2))
      && Walk(v, SecondCluster, 0, 2, VisitLimit(v)) == None
      && Walk(v, SecondCluster, 0, 2, 2) == Some(7)
  {
    var v := TwoLinkVolume(totalSectors, 1);
    TwoLinksSound(v);
    hide Volume.Next, FromLittleEndian, Sound, Volume.Link, Volume.ClusterBytes;
    assert VisitLimit(v) == 0 || VisitLimit(v) == 1;
    assert Walk(v, SecondCluster, 1, 3, 1) == Some(7);
    assert Walk(v, SecondCluster, 1, 3, 0) == None;
  }
}
