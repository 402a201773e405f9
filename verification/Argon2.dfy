/** The memory fill of Argon2: a schedule of passes, slices, lanes and blocks, in which every new
    block is mixed from the one before it and one chosen from a window of earlier blocks. The mixing
    function, the hash and the random words are parameters. */
module Argon2 {
  import opened Bytes

  const SYNC_POINTS := 4
  const TYPE_D := 0
  const TYPE_ID := 2

  // The shape of the memory: lanes of four segments each.
  datatype Shape = Shape(lanes: nat, segment: nat) {
    // Every lane has at least eight blocks, and the byte count of the whole memory fits 32 bits.
    predicate Valid() {
      lanes >= 1 && segment >= 2 && lanes * (segment * 4) * 1024 < U32
    }

    function LaneLength(): nat {
      segment * SYNC_POINTS
    }
  }

  type MemBlock = seq<bv8>
  type Memory = seq<MemBlock>

  // What the fill is computed with: a block is mixed from two others; `word` is the first word of a
  // block and `address` the generated word for a pass, lane, slice and index.

  datatype Mixer = Mixer(mix: (MemBlock, MemBlock) -> MemBlock, xor: (MemBlock, MemBlock) -> MemBlock,
                         word: MemBlock -> nat, address: (nat, nat, nat, nat) -> nat, kind: int)

  // ---- The reference index ----

  // The number of blocks to choose from.
  function RefArea(s: Shape, pass: nat, slice: nat, index: nat, sameLane: bool): int {
    if pass == 0 then
      if slice == 0 then index - 1
      else if sameLane then slice * s.segment + index - 1
      else slice * s.segment - (if index == 0 then 1 else 0)
    else if sameLane then s.LaneLength() - s.segment + index - 1
    else s.LaneLength() - s.segment - (if index == 0 then 1 else 0)
  }

  // Where the window begins.
  function StartPos(s: Shape, pass: nat, slice: nat): nat {
    if pass == 0 || slice == SYNC_POINTS - 1 then 0 else (slice + 1) * s.segment
  }

  // A block position that the loop visits.
  predicate Position(s: Shape, pass: nat, slice: nat, index: nat) {
    slice < 4 && index < s.segment && (pass == 0 && slice == 0 ==> index >= 2)
  }

  lemma RefAreaPositive(s: Shape, pass: nat, slice: nat, index: nat, sameLane: bool)
    requires s.Valid() && Position(s, pass, slice, index) && (pass == 0 && slice == 0 ==> sameLane)
    ensures 1 <= RefArea(s, pass, slice, index, sameLane) < s.LaneLength()
  {
    match slice
    case 0 => case 1 => case 2 => case _ =>
  }

  function IndexAlpha(s: Shape, pass: nat, slice: nat, index: nat, pseudoRand: nat, sameLane: bool): nat
    requires s.Valid() && Position(s, pass, slice, index) && (pass == 0 && slice == 0 ==> sameLane)
    requires pseudoRand < U32
  {
    RefAreaPositive(s, pass, slice, index, sameLane);
    var refArea := RefArea(s, pass, slice, index, sameLane);
    RelativeBelow(pseudoRand, refArea);
    (StartPos(s, pass, slice) + refArea - 1 - Relative(pseudoRand, refArea)) % s.LaneLength()
  }

  // How far back from the end of the window: the square of the word favours the near end.
  function Relative(pseudoRand: nat, refArea: nat): nat {
    refArea * (pseudoRand * pseudoRand / U32) / U32
  }

  lemma RelativeBelow(pseudoRand: nat, refArea: nat)
    requires pseudoRand < U32 && refArea > 0
    ensures Relative(pseudoRand, refArea) < refArea
  {
    var squared := pseudoRand * pseudoRand / U32;
    MulMonotone(pseudoRand, pseudoRand, U32 - 1);
    MulMonotone(U32 - 1, pseudoRand, U32 - 1);
    DivBelow(pseudoRand * pseudoRand, U32, U32);
    MulMonotone(refArea, squared, U32 - 1);
    assert refArea * (U32 - 1) == refArea * U32 - refArea;
    DivBelow(refArea * squared, U32, refArea);
  }

  // The column being written and the one before it, wrapping round to the end of the lane.
  function Current(s: Shape, slice: nat, index: nat): nat {
    slice * s.segment + index
  }

  function Previous(s: Shape, slice: nat, index: nat): int {
    if Current(s, slice, index) == 0 then s.LaneLength() - 1 else Current(s, slice, index) - 1
  }

  predicate InSlice(s: Shape, slice: nat, col: int) {
    slice * s.segment <= col < slice * s.segment + s.segment
  }

  // The reference window of section 3.4.2 of RFC 9106: the blocks of the finished segments, in pass 0
  // those before this one and later the three others; in the lane being written also the blocks of
  // the current segment already made; but never the block just before the one being written.
  predicate InWindow(s: Shape, pass: nat, slice: nat, index: nat, sameLane: bool, col: int) {
    && 0 <= col < s.LaneLength()
    && col != Previous(s, slice, index)
    && ((if pass == 0 then col < slice * s.segment else !InSlice(s, slice, col))
        || (sameLane && slice * s.segment <= col < Current(s, slice, index)))
  }

  /** The window is exactly the columns that the offsets below the reference area reach. */
  lemma WindowExact(s: Shape, pass: nat, slice: nat, index: nat, sameLane: bool, col: int)
    requires s.Valid() && Position(s, pass, slice, index) && (pass == 0 && slice == 0 ==> sameLane)
    ensures InWindow(s, pass, slice, index, sameLane, col) <==>
            exists relative: nat :: relative < RefArea(s, pass, slice, index, sameLane) &&
              Offset(s, pass, slice, index, sameLane, relative) == col
  {
    RefAreaPositive(s, pass, slice, index, sameLane);
    var last := StartPos(s, pass, slice) + RefArea(s, pass, slice, index, sameLane) - 1;
    if InWindow(s, pass, slice, index, sameLane, col) {
      var r := if pass != 0 && col < StartPos(s, pass, slice) then last - col - s.LaneLength() else last - col;
      WindowReached(s, pass, slice, index, sameLane, col, r);
      assert Offset(s, pass, slice, index, sameLane, r) == col;
    }
    forall relative: nat | relative < RefArea(s, pass, slice, index, sameLane)
      ensures InWindow(s, pass, slice, index, sameLane, Offset(s, pass, slice, index, sameLane, relative))
    {
      OffsetInWindow(s, pass, slice, index, sameLane, relative);
    }
  }

  function Offset(s: Shape, pass: nat, slice: nat, index: nat, sameLane: bool, relative: nat): int
    requires s.Valid()
  {
    (StartPos(s, pass, slice) + RefArea(s, pass, slice, index, sameLane) - 1 - relative) % s.LaneLength()
  }

  // The remainder is taken at most once round the lane.
  lemma OffsetForm(s: Shape, pass: nat, slice: nat, index: nat, sameLane: bool, relative: nat)
    requires s.Valid() && Position(s, pass, slice, index) && (pass == 0 && slice == 0 ==> sameLane)
    requires relative < RefArea(s, pass, slice, index, sameLane)
    ensures
      var v := StartPos(s, pass, slice) + RefArea(s, pass, slice, index, sameLane) - 1 - relative;
      && 0 <= v < 2 * s.LaneLength()
      && Offset(s, pass, slice, index, sameLane, relative) == if v < s.LaneLength() then v else v - s.LaneLength()
  {
    RefAreaPositive(s, pass, slice, index, sameLane);
    var v := StartPos(s, pass, slice) + RefArea(s, pass, slice, index, sameLane) - 1 - relative;
    assert StartPos(s, pass, slice) <= s.LaneLength() by {
      MulMonotone(s.segment, slice + 1, 4);
    }
    DivModUnique(v, s.LaneLength(), if v < s.LaneLength() then 0 else 1, if v < s.LaneLength() then v else v - s.LaneLength());
  }

  lemma WindowReached(s: Shape, pass: nat, slice: nat, index: nat, sameLane: bool, col: int, relative: int)
    requires s.Valid() && Position(s, pass, slice, index) && (pass == 0 && slice == 0 ==> sameLane)
    requires InWindow(s, pass, slice, index, sameLane, col)
    requires
      var last := StartPos(s, pass, slice) + RefArea(s, pass, slice, index, sameLane) - 1;
      relative == if pass != 0 && col < StartPos(s, pass, slice) then last - col - s.LaneLength() else last - col
    ensures 0 <= relative < RefArea(s, pass, slice, index, sameLane)
    ensures Offset(s, pass, slice, index, sameLane, relative) == col
  {
    hide Offset;
    SegmentStarts(s.segment);
    assert 0 <= relative < RefArea(s, pass, slice, index, sameLane);
    OffsetForm(s, pass, slice, index, sameLane, relative);
  }

  lemma OffsetInWindow(s: Shape, pass: nat, slice: nat, index: nat, sameLane: bool, relative: nat)
    requires s.Valid() && Position(s, pass, slice, index) && (pass == 0 && slice == 0 ==> sameLane)
    requires relative < RefArea(s, pass, slice, index, sameLane)
    ensures InWindow(s, pass, slice, index, sameLane, Offset(s, pass, slice, index, sameLane, relative))
  {
    hide Offset;
    SegmentStarts(s.segment);
    OffsetForm(s, pass, slice, index, sameLane, relative);
  }

  lemma SegmentStarts(segment: nat)
    ensures 0 * segment == 0 && 1 * segment == segment && 2 * segment == segment + segment
    ensures 3 * segment == segment + segment + segment && 4 * segment == segment + segment + segment + segment
  {
  }

  /** Whatever the random word, the reference index is in the window of RFC 9106. */
  lemma IndexAlphaInWindow(s: Shape, pass: nat, slice: nat, index: nat, pseudoRand: nat, sameLane: bool)
    requires s.Valid() && Position(s, pass, slice, index) && (pass == 0 && slice == 0 ==> sameLane)
    requires pseudoRand < U32
    ensures InWindow(s, pass, slice, index, sameLane, IndexAlpha(s, pass, slice, index, pseudoRand, sameLane))
  {
    hide Relative, RefArea, StartPos, InWindow, Position;
    RefAreaPositive(s, pass, slice, index, sameLane);
    var refArea := RefArea(s, pass, slice, index, sameLane);
    RelativeBelow(pseudoRand, refArea);
    OffsetInWindow(s, pass, slice, index, sameLane, Relative(pseudoRand, refArea));
  }

  // ---- The fill as a function on the memory ----

  // Where the block of a lane and a column is.
  function At(s: Shape, lane: nat, col: nat): nat {
    lane * s.LaneLength() + col
  }

  function Size(s: Shape): nat {
    s.lanes * s.LaneLength()
  }

  lemma AtInside(s: Shape, lane: nat, col: nat)
    requires lane < s.lanes && col < s.LaneLength()
    ensures At(s, lane, col) < Size(s)
  {
    MulMonotone(s.LaneLength(), lane + 1, s.lanes);
  }

  lemma AtInjective(s: Shape, lane: nat, col: nat, lane': nat, col': nat)
    requires s.segment > 0 && col < s.LaneLength() && col' < s.LaneLength()
    requires At(s, lane, col) == At(s, lane', col')
    ensures lane == lane' && col == col'
  {
    DivModUnique(At(s, lane, col), s.LaneLength(), lane, col);
    DivModUnique(At(s, lane, col), s.LaneLength(), lane', col');
  }

  // The block at a lane and a column.
  function Cell(s: Shape, mem: Memory, lane: nat, col: nat): MemBlock
    requires |mem| == Size(s) && lane < s.lanes && col < s.LaneLength()
  {
    AtInside(s, lane, col);
    mem[At(s, lane, col)]
  }

  function Update(s: Shape, mem: Memory, lane: nat, col: nat, b: MemBlock): (r: Memory)
    requires |mem| == Size(s) && lane < s.lanes && col < s.LaneLength()
    ensures |r| == |mem|
  {
    AtInside(s, lane, col);
    mem[At(s, lane, col) := b]
  }

  lemma CellOfUpdate(s: Shape, mem: Memory, lane: nat, col: nat, b: MemBlock, lane': nat, col': nat)
    requires |mem| == Size(s) && lane < s.lanes && col < s.LaneLength() && s.segment > 0
    requires lane' < s.lanes && col' < s.LaneLength()
    ensures Cell(s, Update(s, mem, lane, col, b), lane', col') ==
            if lane == lane' && col == col' then b else Cell(s, mem, lane', col')
  {
    hide At, Size;
    AtInside(s, lane, col);
    AtInside(s, lane', col');
    if At(s, lane, col) == At(s, lane', col') {
      AtInjective(s, lane, col, lane', col');
    }
  }

  // Memories that agree on every cell are equal.
  lemma CellsDetermine(s: Shape, mem: Memory, mem': Memory)
    requires s.segment > 0 && |mem| == Size(s) && |mem'| == Size(s)
    requires forall lane: nat, col: nat :: lane < s.lanes && col < s.LaneLength() ==>
      Cell(s, mem, lane, col) == Cell(s, mem', lane, col)
    ensures mem == mem'
  {
    forall i: nat | i < |mem| ensures mem[i] == mem'[i] {
      var lane, col := i / s.LaneLength(), i % s.LaneLength();
      DivBelow(i, s.LaneLength(), s.lanes);
      assert At(s, lane, col) == i;
      assert Cell(s, mem, lane, col) == Cell(s, mem', lane, col);
    }
  }

  // The 32-bit random word for a block: from the block before it or from the generator.
  function RandomWord(m: Mixer, previous: MemBlock, pass: nat, slice: nat, lane: nat, index: nat): nat {
    (if m.kind == TYPE_D || (m.kind == TYPE_ID && pass >= 1) || (m.kind == TYPE_ID && slice >= 2)
     then m.word(previous) else m.address(pass, lane, slice, index)) % U32
  }

  function RefLane(s: Shape, pass: nat, slice: nat, lane: nat, pseudoRand: nat): (l: nat)
    requires s.lanes > 0 && lane < s.lanes
    ensures l < s.lanes
  {
    if pass == 0 && slice == 0 then lane else pseudoRand / 0x1_0000 % s.lanes
  }

  // A visit: which block of which lane is being made.
  predicate Visit(s: Shape, pass: nat, slice: nat, lane: nat, index: nat) {
    s.Valid() && lane < s.lanes && Position(s, pass, slice, index)
  }

  lemma ColumnsInside(s: Shape, pass: nat, slice: nat, index: nat)
    requires s.Valid() && Position(s, pass, slice, index)
    ensures Current(s, slice, index) < s.LaneLength()
    ensures 0 <= Previous(s, slice, index) < s.LaneLength()
  {
    SegmentStarts(s.segment);
  }

  // The new block, given the block before it and the reference block's place.
  function NewBlock(s: Shape, m: Mixer, mem: Memory, pass: nat, slice: nat, lane: nat, index: nat): MemBlock
    requires Visit(s, pass, slice, lane, index) && |mem| == Size(s)
  {
    ColumnsInside(s, pass, slice, index);
    var previous := Cell(s, mem, lane, Previous(s, slice, index));
    var rand := RandomWord(m, previous, pass, slice, lane, index);
    var refLane := RefLane(s, pass, slice, lane, rand);
    var mixed := m.mix(previous, Cell(s, mem, refLane, IndexAlpha(s, pass, slice, index, rand, refLane == lane)));
    if pass == 0 then mixed else m.xor(Cell(s, mem, lane, Current(s, slice, index)), mixed)
  }

  function Step(s: Shape, m: Mixer, mem: Memory, pass: nat, slice: nat, lane: nat, index: nat): (r: Memory)
    requires Visit(s, pass, slice, lane, index) && |mem| == Size(s)
    ensures |r| == |mem|
  {
    ColumnsInside(s, pass, slice, index);
    Update(s, mem, lane, Current(s, slice, index), NewBlock(s, m, mem, pass, slice, lane, index))
  }

  // The first index of a segment that is computed; the first two blocks of a lane are given.
  function FirstIndex(pass: nat, slice: nat): nat {
    if pass == 0 && slice == 0 then 2 else 0
  }

  // One lane's segment up to, not including, index n.
  function Segment(s: Shape, m: Mixer, mem: Memory, pass: nat, slice: nat, lane: nat, n: nat): (r: Memory)
    requires s.Valid() && slice < 4 && lane < s.lanes && n <= s.segment && |mem| == Size(s)
    ensures |r| == |mem|
    decreases n
  {
    if n <= FirstIndex(pass, slice) then mem
    else Step(s, m, Segment(s, m, mem, pass, slice, lane, n - 1), pass, slice, lane, n - 1)
  }

  // Whole segments, lane after lane in the order given.
  function InOrder(s: Shape, m: Mixer, mem: Memory, pass: nat, slice: nat, order: seq<nat>): (r: Memory)
    requires s.Valid() && slice < 4 && |mem| == Size(s) && forall i :: 0 <= i < |order| ==> order[i] < s.lanes
    ensures |r| == |mem|
    decreases |order|
  {
    if order == [] then mem
    else
      var last := order[|order| - 1];
      Segment(s, m, InOrder(s, m, mem, pass, slice, order[..|order| - 1]), pass, slice, last, s.segment)
  }

  function LanesUpTo(n: nat): (r: seq<nat>)
    ensures |r| == n && forall i :: 0 <= i < n ==> r[i] == i
  {
    seq(n, i => i)
  }

  // ---- Lanes do not disturb each other within a slice ----

  // Where each lane of the slice has got to.
  ghost predicate Progress(s: Shape, pass: nat, slice: nat, p: seq<nat>) {
    |p| == s.lanes && forall l :: 0 <= l < |p| ==> FirstIndex(pass, slice) <= p[l] <= s.segment
  }

  // The memory in which each lane has been advanced on its own, from the memory before the slice.
  ghost predicate LanesAlone(s: Shape, m: Mixer, mem0: Memory, mem: Memory, pass: nat, slice: nat, p: seq<nat>)
    requires s.Valid() && slice < 4 && |mem0| == Size(s) && Progress(s, pass, slice, p)
  {
    |mem| == Size(s) &&
    forall lane: nat, col: nat :: lane < s.lanes && col < s.LaneLength() ==>
      Cell(s, mem, lane, col) == Cell(s, Segment(s, m, mem0, pass, slice, lane, p[lane]), lane, col)
  }

  // A lane's segment writes only there.
  lemma {:induction false} SegmentFrame(s: Shape, m: Mixer, mem: Memory, pass: nat, slice: nat, lane: nat, n: nat,
                                           lane': nat, col': nat)
    requires s.Valid() && slice < 4 && lane < s.lanes && n <= s.segment && |mem| == Size(s)
    requires lane' < s.lanes && col' < s.LaneLength() && (lane != lane' || !InSlice(s, slice, col'))
    ensures Cell(s, Segment(s, m, mem, pass, slice, lane, n), lane', col') == Cell(s, mem, lane', col')
    decreases n
  {
    hide Cell, Update, NewBlock;
    if n > FirstIndex(pass, slice) {
      SegmentFrame(s, m, mem, pass, slice, lane, n - 1, lane', col');
      var before := Segment(s, m, mem, pass, slice, lane, n - 1);
      ColumnsInside(s, pass, slice, n - 1);
      CellOfUpdate(s, before, lane, Current(s, slice, n - 1), NewBlock(s, m, before, pass, slice, lane, n - 1), lane', col');
    }
  }

  // Advancing one lane by one block is the same whatever the other lanes have done in this slice.
  lemma StepAlone(s: Shape, m: Mixer, mem0: Memory, mem: Memory, pass: nat, slice: nat, p: seq<nat>, lane: nat)
    requires s.Valid() && slice < 4 && |mem0| == Size(s) && Progress(s, pass, slice, p)
    requires LanesAlone(s, m, mem0, mem, pass, slice, p)
    requires lane < s.lanes && p[lane] < s.segment
    ensures NewBlock(s, m, mem, pass, slice, lane, p[lane]) ==
            NewBlock(s, m, Segment(s, m, mem0, pass, slice, lane, p[lane]), pass, slice, lane, p[lane])
  {
    hide Cell, IndexAlpha, RandomWord, Segment, InWindow;
    var index := p[lane];
    var alone := Segment(s, m, mem0, pass, slice, lane, index);
    ColumnsInside(s, pass, slice, index);
    var prev: nat, cur := Previous(s, slice, index), Current(s, slice, index);
    assert Cell(s, mem, lane, prev) == Cell(s, alone, lane, prev);
    assert Cell(s, mem, lane, cur) == Cell(s, alone, lane, cur);
    var rand := RandomWord(m, Cell(s, mem, lane, prev), pass, slice, lane, index);
    assert rand < U32 by { RandomWordFits(m, Cell(s, mem, lane, prev), pass, slice, lane, index); }
    var refLane := RefLane(s, pass, slice, lane, rand);
    var refCol := IndexAlpha(s, pass, slice, index, rand, refLane == lane);
    IndexAlphaInWindow(s, pass, slice, index, rand, refLane == lane);
    assert refCol < s.LaneLength() by { WindowInside(s, pass, slice, index, refLane == lane, refCol); }
    if refLane == lane {
      assert Cell(s, mem, lane, refCol) == Cell(s, alone, lane, refCol);
    } else {
      OtherLanesOutside(s, pass, slice, index, refCol);
      SegmentFrame(s, m, mem0, pass, slice, refLane, p[refLane], refLane, refCol);
      SegmentFrame(s, m, mem0, pass, slice, lane, index, refLane, refCol);
      assert Cell(s, mem, refLane, refCol) == Cell(s, alone, refLane, refCol);
    }
  }

  lemma RandomWordFits(m: Mixer, previous: MemBlock, pass: nat, slice: nat, lane: nat, index: nat)
    ensures RandomWord(m, previous, pass, slice, lane, index) < U32
  {
  }

  lemma WindowInside(s: Shape, pass: nat, slice: nat, index: nat, sameLane: bool, col: int)
    requires InWindow(s, pass, slice, index, sameLane, col)
    ensures 0 <= col < s.LaneLength()
  {
  }

  // No lane reads a block that another lane writes in the same slice.
  lemma OtherLanesOutside(s: Shape, pass: nat, slice: nat, index: nat, col: int)
    requires s.Valid() && InWindow(s, pass, slice, index, false, col)
    ensures !InSlice(s, slice, col)
  {
  }

  lemma AdvanceOne(s: Shape, m: Mixer, mem0: Memory, mem: Memory, pass: nat, slice: nat, p: seq<nat>, lane: nat)
    requires s.Valid() && slice < 4 && |mem0| == Size(s) && Progress(s, pass, slice, p)
    requires LanesAlone(s, m, mem0, mem, pass, slice, p)
    requires lane < s.lanes && p[lane] < s.segment
    ensures Progress(s, pass, slice, p[lane := p[lane] + 1])
    ensures LanesAlone(s, m, mem0, Step(s, m, mem, pass, slice, lane, p[lane]), pass, slice, p[lane := p[lane] + 1])
  {
    hide Cell, Update, NewBlock;
    var index, p' := p[lane], p[lane := p[lane] + 1];
    var alone := Segment(s, m, mem0, pass, slice, lane, index);
    StepAlone(s, m, mem0, mem, pass, slice, p, lane);
    ColumnsInside(s, pass, slice, index);
    var b := NewBlock(s, m, mem, pass, slice, lane, index);
    var mem' := Step(s, m, mem, pass, slice, lane, index);
    forall l: nat, c: nat | l < s.lanes && c < s.LaneLength()
      ensures Cell(s, mem', l, c) == Cell(s, Segment(s, m, mem0, pass, slice, l, p'[l]), l, c)
    {
      CellOfUpdate(s, mem, lane, Current(s, slice, index), b, l, c);
      CellOfUpdate(s, alone, lane, Current(s, slice, index), b, l, c);
      assert Cell(s, mem, l, c) == Cell(s, Segment(s, m, mem0, pass, slice, l, p[l]), l, c);
    }
  }

  // ---- Every schedule of a slice leaves the same memory ----

  // A schedule names, block after block, the lane that moves; the blocks of one lane are made in order.
  ghost function ProgressOf(s: Shape, pass: nat, slice: nat, schedule: seq<nat>): (p: seq<nat>)
    ensures |p| == s.lanes
    decreases |schedule|
  {
    if schedule == [] then seq(s.lanes, _ => FirstIndex(pass, slice))
    else
      var n := |schedule| - 1;
      var p := ProgressOf(s, pass, slice, schedule[..n]);
      if schedule[n] < s.lanes then p[schedule[n] := p[schedule[n]] + 1] else p
  }

  // A schedule that keeps every lane inside its segment.
  ghost predicate Legal(s: Shape, pass: nat, slice: nat, schedule: seq<nat>)
    decreases |schedule|
  {
    schedule == [] ||
    var n := |schedule| - 1;
    && Legal(s, pass, slice, schedule[..n])
    && schedule[n] < s.lanes && ProgressOf(s, pass, slice, schedule[..n])[schedule[n]] < s.segment
  }

  ghost predicate Complete(s: Shape, pass: nat, slice: nat, schedule: seq<nat>) {
    && Legal(s, pass, slice, schedule)
    && ProgressOf(s, pass, slice, schedule) == seq(s.lanes, _ => s.segment)
  }

  // The memory after the visits of a schedule.
  ghost function Interleaved(s: Shape, m: Mixer, mem: Memory, pass: nat, slice: nat, schedule: seq<nat>): (r: Memory)
    requires s.Valid() && slice < 4 && |mem| == Size(s) && Legal(s, pass, slice, schedule)
    ensures |r| == |mem|
    decreases |schedule|
  {
    if schedule == [] then mem
    else
      var n := |schedule| - 1;
      LegalProgress(s, pass, slice, schedule[..n]);
      Step(s, m, Interleaved(s, m, mem, pass, slice, schedule[..n]), pass, slice, schedule[n],
           ProgressOf(s, pass, slice, schedule[..n])[schedule[n]])
  }

  lemma {:induction false} LegalProgress(s: Shape, pass: nat, slice: nat, schedule: seq<nat>)
    requires s.Valid() && Legal(s, pass, slice, schedule)
    ensures Progress(s, pass, slice, ProgressOf(s, pass, slice, schedule))
    decreases |schedule|
  {
    if schedule != [] {
      LegalProgress(s, pass, slice, schedule[..|schedule| - 1]);
    }
  }

  lemma {:induction false} InterleavedAlone(s: Shape, m: Mixer, mem: Memory, pass: nat, slice: nat, schedule: seq<nat>)
    requires s.Valid() && slice < 4 && |mem| == Size(s) && Legal(s, pass, slice, schedule)
    ensures Progress(s, pass, slice, ProgressOf(s, pass, slice, schedule))
    ensures LanesAlone(s, m, mem, Interleaved(s, m, mem, pass, slice, schedule), pass, slice,
                       ProgressOf(s, pass, slice, schedule))
    decreases |schedule|
  {
    hide Cell, Step;
    LegalProgress(s, pass, slice, schedule);
    if schedule != [] {
      var n := |schedule| - 1;
      InterleavedAlone(s, m, mem, pass, slice, schedule[..n]);
      AdvanceOne(s, m, mem, Interleaved(s, m, mem, pass, slice, schedule[..n]), pass, slice,
                 ProgressOf(s, pass, slice, schedule[..n]), schedule[n]);
    }
  }

  // Running one lane's segment to index n on a memory where that lane has not moved.
  lemma {:induction false} SegmentAlone(s: Shape, m: Mixer, mem0: Memory, mem: Memory, pass: nat, slice: nat,
                                        p: seq<nat>, lane: nat, n: nat)
    requires s.Valid() && slice < 4 && |mem0| == Size(s) && |mem| == Size(s) && Progress(s, pass, slice, p)
    requires LanesAlone(s, m, mem0, mem, pass, slice, p)
    requires lane < s.lanes && p[lane] == FirstIndex(pass, slice) <= n <= s.segment
    ensures Progress(s, pass, slice, p[lane := n])
    ensures LanesAlone(s, m, mem0, Segment(s, m, mem, pass, slice, lane, n), pass, slice, p[lane := n])
    decreases n
  {
    hide Cell, Step, LanesAlone;
    if n == FirstIndex(pass, slice) {
      assert p[lane := n] == p;
    } else {
      SegmentAlone(s, m, mem0, mem, pass, slice, p, lane, n - 1);
      AdvanceOne(s, m, mem0, Segment(s, m, mem, pass, slice, lane, n - 1), pass, slice, p[lane := n - 1], lane);
      assert p[lane := n - 1][lane := n] == p[lane := n];
    }
  }

  // The lanes of an order done so far are at the end of their segments, the others at the start.
  ghost function OrderProgress(s: Shape, pass: nat, slice: nat, order: seq<nat>): (p: seq<nat>)
    ensures |p| == s.lanes
  {
    seq(s.lanes, l => if l in order then s.segment else FirstIndex(pass, slice))
  }

  ghost predicate Distinct(order: seq<nat>) {
    forall i, j :: 0 <= i < j < |order| ==> order[i] != order[j]
  }

  lemma {:induction false} InOrderAlone(s: Shape, m: Mixer, mem: Memory, pass: nat, slice: nat, order: seq<nat>)
    requires s.Valid() && slice < 4 && |mem| == Size(s)
    requires Distinct(order) && forall i :: 0 <= i < |order| ==> order[i] < s.lanes
    ensures Progress(s, pass, slice, OrderProgress(s, pass, slice, order))
    ensures LanesAlone(s, m, mem, InOrder(s, m, mem, pass, slice, order), pass, slice,
                       OrderProgress(s, pass, slice, order))
    decreases |order|
  {
    hide Cell, Step;
    if order == [] {
    } else {
      hide LanesAlone;
      var n := |order| - 1;
      var front, last := order[..n], order[n];
      InOrderAlone(s, m, mem, pass, slice, front);
      var p := OrderProgress(s, pass, slice, front);
      assert last !in front;
      SegmentAlone(s, m, mem, InOrder(s, m, mem, pass, slice, front), pass, slice, p, last, s.segment);
      assert order == front + [last];
      assert p[last := s.segment] == OrderProgress(s, pass, slice, order);
    }
  }

  lemma AllLanesCover(s: Shape, pass: nat, slice: nat, order: seq<nat>)
    requires order == LanesUpTo(s.lanes) || forall l: nat :: l < s.lanes ==> l in order
    ensures OrderProgress(s, pass, slice, order) == seq(s.lanes, _ => s.segment)
  {
    var p := OrderProgress(s, pass, slice, order);
    forall l | 0 <= l < s.lanes ensures p[l] == s.segment {
      if order == LanesUpTo(s.lanes) {
        assert order[l] == l;
      }
      assert l in order;
    }
  }

  // Two memories in which every lane has been advanced alone by the same amounts are the same.
  lemma AloneDetermines(s: Shape, m: Mixer, mem0: Memory, mem: Memory, mem': Memory, pass: nat, slice: nat, p: seq<nat>)
    requires s.Valid() && slice < 4 && |mem0| == Size(s) && Progress(s, pass, slice, p)
    requires LanesAlone(s, m, mem0, mem, pass, slice, p) && LanesAlone(s, m, mem0, mem', pass, slice, p)
    ensures mem == mem'
  {
    hide Cell, Segment;
    CellsDetermine(s, mem, mem');
  }

  /** Within a slice, every interleaving of the lanes, block by block, leaves the memory that the
      sequential loop leaves: the loop computes what parallel lanes would. */
  lemma ParallelIsSequential(s: Shape, m: Mixer, mem: Memory, pass: nat, slice: nat, schedule: seq<nat>)
    requires s.Valid() && slice < 4 && |mem| == Size(s) && Complete(s, pass, slice, schedule)
    ensures Interleaved(s, m, mem, pass, slice, schedule) == InOrder(s, m, mem, pass, slice, LanesUpTo(s.lanes))
  {
    hide LanesAlone, InOrder, Interleaved, Legal, Cell;
    var lanes := LanesUpTo(s.lanes);
    InterleavedAlone(s, m, mem, pass, slice, schedule);
    InOrderAlone(s, m, mem, pass, slice, lanes);
    AllLanesCover(s, pass, slice, lanes);
    AloneDetermines(s, m, mem, Interleaved(s, m, mem, pass, slice, schedule),
                    InOrder(s, m, mem, pass, slice, lanes), pass, slice, ProgressOf(s, pass, slice, schedule));
  }

  /** In particular the order in which whole lanes are processed does not matter. */
  lemma LaneOrderIrrelevant(s: Shape, m: Mixer, mem: Memory, pass: nat, slice: nat, order: seq<nat>)
    requires s.Valid() && slice < 4 && |mem| == Size(s)
    requires Distinct(order) && forall i :: 0 <= i < |order| ==> order[i] < s.lanes
    requires forall l: nat :: l < s.lanes ==> l in order
    ensures InOrder(s, m, mem, pass, slice, order) == InOrder(s, m, mem, pass, slice, LanesUpTo(s.lanes))
  {
    hide LanesAlone, InOrder, Cell;
    var lanes := LanesUpTo(s.lanes);
    InOrderAlone(s, m, mem, pass, slice, order);
    InOrderAlone(s, m, mem, pass, slice, lanes);
    AllLanesCover(s, pass, slice, order);
    AllLanesCover(s, pass, slice, lanes);
    AloneDetermines(s, m, mem, InOrder(s, m, mem, pass, slice, order), InOrder(s, m, mem, pass, slice, lanes),
                    pass, slice, OrderProgress(s, pass, slice, lanes));
  }

  // ---- No uninitialised block is ever mixed in ----

  // The two memories have the same blocks in the first bound[l] columns of every lane l.
  ghost predicate SameBelow(s: Shape, mem: Memory, mem': Memory, bound: seq<nat>)
    requires |mem| == Size(s) && |mem'| == Size(s) && |bound| == s.lanes
  {
    forall lane: nat, col: nat :: lane < s.lanes && col < bound[lane] && col < s.LaneLength() ==>
      Cell(s, mem, lane, col) == Cell(s, mem', lane, col)
  }

  // In pass 0 a step reads only columns already made, so it extends what two memories have in common.
  lemma StepExtends(s: Shape, m: Mixer, mem: Memory, mem': Memory, slice: nat, lane: nat, index: nat, bound: seq<nat>)
    requires Visit(s, 0, slice, lane, index) && |mem| == Size(s) && |mem'| == Size(s) && |bound| == s.lanes
    requires SameBelow(s, mem, mem', bound)
    requires bound[lane] == Current(s, slice, index) && forall l :: 0 <= l < s.lanes ==> bound[l] >= slice * s.segment
    ensures SameBelow(s, Step(s, m, mem, 0, slice, lane, index), Step(s, m, mem', 0, slice, lane, index),
                      bound[lane := bound[lane] + 1])
  {
    hide Cell, Update, IndexAlpha, RandomWord;
    var cur := Current(s, slice, index);
    ColumnsInside(s, 0, slice, index);
    FirstColumns(s, slice, index);
    var prev: nat := Previous(s, slice, index);
    assert Cell(s, mem, lane, prev) == Cell(s, mem', lane, prev);
    var rand := RandomWord(m, Cell(s, mem, lane, prev), 0, slice, lane, index);
    RandomWordFits(m, Cell(s, mem, lane, prev), 0, slice, lane, index);
    var refLane := RefLane(s, 0, slice, lane, rand);
    var refCol := IndexAlpha(s, 0, slice, index, rand, refLane == lane);
    IndexAlphaInWindow(s, 0, slice, index, rand, refLane == lane);
    assert refCol < bound[refLane];
    assert Cell(s, mem, refLane, refCol) == Cell(s, mem', refLane, refCol);
    var b := NewBlock(s, m, mem, 0, slice, lane, index);
    assert b == NewBlock(s, m, mem', 0, slice, lane, index);
    forall l: nat, c: nat | l < s.lanes && c < bound[lane := cur + 1][l] && c < s.LaneLength()
      ensures Cell(s, Update(s, mem, lane, cur, b), l, c) == Cell(s, Update(s, mem', lane, cur, b), l, c)
    {
      CellOfUpdate(s, mem, lane, cur, b, l, c);
      CellOfUpdate(s, mem', lane, cur, b, l, c);
    }
  }

  lemma FirstColumns(s: Shape, slice: nat, index: nat)
    requires s.Valid() && Position(s, 0, slice, index)
    ensures 1 <= Current(s, slice, index) && Previous(s, slice, index) == Current(s, slice, index) - 1
  {
    SegmentStarts(s.segment);
  }

  lemma {:induction false} SegmentExtends(s: Shape, m: Mixer, mem: Memory, mem': Memory, slice: nat, lane: nat, n: nat,
                                          bound: seq<nat>)
    requires s.Valid() && slice < 4 && lane < s.lanes && FirstIndex(0, slice) <= n <= s.segment
    requires |mem| == Size(s) && |mem'| == Size(s) && |bound| == s.lanes && SameBelow(s, mem, mem', bound)
    requires bound[lane] == slice * s.segment + FirstIndex(0, slice)
    requires forall l :: 0 <= l < s.lanes ==> bound[l] >= slice * s.segment
    ensures SameBelow(s, Segment(s, m, mem, 0, slice, lane, n), Segment(s, m, mem', 0, slice, lane, n),
                      bound[lane := slice * s.segment + n])
    decreases n
  {
    hide SameBelow, Step;
    var here := slice * s.segment;
    if n == FirstIndex(0, slice) {
      assert bound[lane := here + n] == bound;
    } else {
      SegmentExtends(s, m, mem, mem', slice, lane, n - 1, bound);
      var b := bound[lane := here + (n - 1)];
      StepExtends(s, m, Segment(s, m, mem, 0, slice, lane, n - 1), Segment(s, m, mem', 0, slice, lane, n - 1),
                  slice, lane, n - 1, b);
      assert b[lane := b[lane] + 1] == bound[lane := here + n];
    }
  }

  function Reached(s: Shape, slice: nat, done: bool): nat {
    slice * s.segment + (if done then s.segment else FirstIndex(0, slice))
  }

  // The columns two memories have in common when the first n lanes of a slice are done.
  ghost function SliceBound(s: Shape, slice: nat, n: nat): (r: seq<nat>)
    ensures |r| == s.lanes
  {
    seq<nat>(s.lanes, l => Reached(s, slice, l < n))
  }

  lemma {:induction false} LanesExtend(s: Shape, m: Mixer, mem: Memory, mem': Memory, slice: nat, n: nat)
    requires s.Valid() && slice < 4 && n <= s.lanes && |mem| == Size(s) && |mem'| == Size(s)
    requires SameBelow(s, mem, mem', SliceBound(s, slice, 0))
    ensures SameBelow(s, InOrder(s, m, mem, 0, slice, LanesUpTo(n)), InOrder(s, m, mem', 0, slice, LanesUpTo(n)),
                      SliceBound(s, slice, n))
    decreases n
  {
    hide SameBelow, Segment;
    if n > 0 {
      LanesExtend(s, m, mem, mem', slice, n - 1);
      var lanes := LanesUpTo(n);
      assert lanes[..n - 1] == LanesUpTo(n - 1) && lanes[n - 1] == n - 1;
      var bound := SliceBound(s, slice, n - 1);
      assert forall l :: 0 <= l < s.lanes ==> bound[l] == Reached(s, slice, l < n - 1);
      SegmentExtends(s, m, InOrder(s, m, mem, 0, slice, LanesUpTo(n - 1)), InOrder(s, m, mem', 0, slice, LanesUpTo(n - 1)),
                     slice, n - 1, s.segment, bound);
      assert bound[n - 1 := Reached(s, slice, true)] == SliceBound(s, slice, n);
    }
  }

  // ---- Passes ----

  // The first n slices of a pass.
  function Slices(s: Shape, m: Mixer, mem: Memory, pass: nat, n: nat): (r: Memory)
    requires s.Valid() && n <= 4 && |mem| == Size(s)
    ensures |r| == |mem|
    decreases n
  {
    if n == 0 then mem
    else InOrder(s, m, Slices(s, m, mem, pass, n - 1), pass, n - 1, LanesUpTo(s.lanes))
  }

  function Passes(s: Shape, m: Mixer, mem: Memory, n: nat): (r: Memory)
    requires s.Valid() && |mem| == Size(s)
    ensures |r| == |mem|
    decreases n
  {
    if n == 0 then mem else Slices(s, m, Passes(s, m, mem, n - 1), n - 1, 4)
  }

  // A schedule for every slice of every pass, under which each lane finishes its segment.
  ghost predicate AllComplete(s: Shape, schedules: (nat, nat) -> seq<nat>) {
    forall pass: nat, slice: nat :: slice < 4 ==> Complete(s, pass, slice, schedules(pass, slice))
  }

  // The first n slices of a pass, and whole passes, with the lanes interleaved as scheduled.
  ghost function ParallelSlices(s: Shape, m: Mixer, mem: Memory, schedules: (nat, nat) -> seq<nat>, pass: nat, n: nat): (r: Memory)
    requires s.Valid() && n <= 4 && |mem| == Size(s) && AllComplete(s, schedules)
    ensures |r| == |mem|
    decreases n
  {
    if n == 0 then mem
    else
      assert Complete(s, pass, n - 1, schedules(pass, n - 1));
      Interleaved(s, m, ParallelSlices(s, m, mem, schedules, pass, n - 1), pass, n - 1, schedules(pass, n - 1))
  }

  ghost function ParallelPasses(s: Shape, m: Mixer, mem: Memory, schedules: (nat, nat) -> seq<nat>, n: nat): (r: Memory)
    requires s.Valid() && |mem| == Size(s) && AllComplete(s, schedules)
    ensures |r| == |mem|
    decreases n
  {
    if n == 0 then mem
    else ParallelSlices(s, m, ParallelPasses(s, m, mem, schedules, n - 1), schedules, n - 1, 4)
  }

  // There are such schedules: one lane after another is one.
  ghost function WithTurns(schedule: seq<nat>, lane: nat, n: nat): seq<nat> {
    if n == 0 then schedule else WithTurns(schedule, lane, n - 1) + [lane]
  }

  lemma {:induction false} TurnsLegal(s: Shape, pass: nat, slice: nat, schedule: seq<nat>, lane: nat, n: nat)
    requires Legal(s, pass, slice, schedule) && lane < s.lanes
    requires ProgressOf(s, pass, slice, schedule)[lane] + n <= s.segment
    ensures Legal(s, pass, slice, WithTurns(schedule, lane, n))
    ensures
      var p := ProgressOf(s, pass, slice, schedule);
      ProgressOf(s, pass, slice, WithTurns(schedule, lane, n)) == p[lane := p[lane] + n]
    decreases n
  {
    hide Legal, ProgressOf;
    if n > 0 {
      hide WithTurns;
      var p, earlier := ProgressOf(s, pass, slice, schedule), WithTurns(schedule, lane, n - 1);
      TurnsLegal(s, pass, slice, schedule, lane, n - 1);
      var q := ProgressOf(s, pass, slice, earlier);
      assert q == p[lane := p[lane] + (n - 1)];
      OneMoreTurn(s, pass, slice, earlier, lane);
      assert q[lane := q[lane] + 1] == p[lane := p[lane] + n];
      TurnAdded(schedule, lane, n);
    }
  }

  lemma TurnAdded(schedule: seq<nat>, lane: nat, n: nat)
    requires n > 0
    ensures WithTurns(schedule, lane, n) == WithTurns(schedule, lane, n - 1) + [lane]
  {
  }

  lemma OneMoreTurn(s: Shape, pass: nat, slice: nat, schedule: seq<nat>, lane: nat)
    requires Legal(s, pass, slice, schedule) && lane < s.lanes
    requires ProgressOf(s, pass, slice, schedule)[lane] < s.segment
    ensures Legal(s, pass, slice, schedule + [lane])
    ensures
      var p := ProgressOf(s, pass, slice, schedule);
      ProgressOf(s, pass, slice, schedule + [lane]) == p[lane := p[lane] + 1]
  {
    assert (schedule + [lane])[..|schedule|] == schedule;
  }

  ghost function LaneByLane(s: Shape, pass: nat, slice: nat, lanes: nat): seq<nat>
    requires FirstIndex(pass, slice) <= s.segment
  {
    if lanes == 0 then []
    else WithTurns(LaneByLane(s, pass, slice, lanes - 1), lanes - 1, s.segment - FirstIndex(pass, slice))
  }

  // The progress when the first lanes have finished and the others have not begun.
  ghost function Standing(s: Shape, pass: nat, slice: nat, lanes: nat): (p: seq<nat>)
    requires lanes <= s.lanes
    ensures |p| == s.lanes
  {
    seq(lanes, _ => s.segment) + seq(s.lanes - lanes, _ => FirstIndex(pass, slice))
  }

  lemma {:induction false} LanesFinish(s: Shape, pass: nat, slice: nat, lanes: nat)
    requires FirstIndex(pass, slice) <= s.segment && lanes <= s.lanes
    ensures Legal(s, pass, slice, LaneByLane(s, pass, slice, lanes))
    ensures ProgressOf(s, pass, slice, LaneByLane(s, pass, slice, lanes)) == Standing(s, pass, slice, lanes)
    decreases lanes
  {
    hide FirstIndex, Legal, ProgressOf, WithTurns, Standing;
    if lanes == 0 {
      NoneFinished(s, pass, slice);
    } else {
      var n := s.segment - FirstIndex(pass, slice);
      LanesFinish(s, pass, slice, lanes - 1);
      OneMoreFinished(s, pass, slice, lanes);
      TurnsLegal(s, pass, slice, LaneByLane(s, pass, slice, lanes - 1), lanes - 1, n);
    }
  }

  lemma NoneFinished(s: Shape, pass: nat, slice: nat)
    ensures Legal(s, pass, slice, [])
    ensures ProgressOf(s, pass, slice, []) == Standing(s, pass, slice, 0)
  {
  }

  lemma OneMoreFinished(s: Shape, pass: nat, slice: nat, lanes: nat)
    requires 0 < lanes <= s.lanes
    ensures Standing(s, pass, slice, lanes - 1)[lanes - 1] == FirstIndex(pass, slice)
    ensures Standing(s, pass, slice, lanes - 1)[lanes - 1 := s.segment] == Standing(s, pass, slice, lanes)
  {
    hide FirstIndex;
  }

  lemma SomeSchedules(s: Shape) returns (schedules: (nat, nat) -> seq<nat>)
    requires s.Valid()
    ensures AllComplete(s, schedules)
  {
    schedules := (pass: nat, slice: nat) => LaneByLane(s, pass, slice, s.lanes);
    forall pass: nat, slice: nat | slice < 4 ensures Complete(s, pass, slice, schedules(pass, slice)) {
      LanesFinish(s, pass, slice, s.lanes);
      assert Standing(s, pass, slice, s.lanes) == seq(s.lanes, _ => s.segment);
    }
  }

  lemma {:induction false} ParallelSlicesAreSequential(s: Shape, m: Mixer, mem: Memory,
                                                       schedules: (nat, nat) -> seq<nat>, pass: nat, n: nat)
    requires s.Valid() && n <= 4 && |mem| == Size(s) && AllComplete(s, schedules)
    ensures ParallelSlices(s, m, mem, schedules, pass, n) == Slices(s, m, mem, pass, n)
    decreases n
  {
    hide Interleaved, InOrder, Complete, Shape.Valid;
    if n > 0 {
      ParallelSlicesAreSequential(s, m, mem, schedules, pass, n - 1);
      assert Complete(s, pass, n - 1, schedules(pass, n - 1));
      ParallelIsSequential(s, m, Slices(s, m, mem, pass, n - 1), pass, n - 1, schedules(pass, n - 1));
    }
  }

  /** Over whole runs: however the lanes are interleaved in every slice of every pass, the memory at the
      end is the one that the sequential loops leave. */
  lemma {:induction false} ParallelRunIsSequential(s: Shape, m: Mixer, mem: Memory, schedules: (nat, nat) -> seq<nat>,
                                                   passes: nat)
    requires s.Valid() && |mem| == Size(s) && AllComplete(s, schedules)
    ensures ParallelPasses(s, m, mem, schedules, passes) == Passes(s, m, mem, passes)
    decreases passes
  {
    hide ParallelSlices, Slices, AllComplete, Shape.Valid;
    if passes > 0 {
      ParallelRunIsSequential(s, m, mem, schedules, passes - 1);
      ParallelSlicesAreSequential(s, m, Passes(s, m, mem, passes - 1), schedules, passes - 1, 4);
    }
  }

  lemma {:induction false} SlicesExtend(s: Shape, m: Mixer, mem: Memory, mem': Memory, n: nat)
    requires s.Valid() && n <= 4 && |mem| == Size(s) && |mem'| == Size(s)
    requires SameBelow(s, mem, mem', seq(s.lanes, _ => 2))
    ensures SameBelow(s, Slices(s, m, mem, 0, n), Slices(s, m, mem', 0, n),
                      seq(s.lanes, _ => if n == 0 then 2 else n * s.segment))
    decreases n
  {
    hide SameBelow, InOrder;
    if n > 0 {
      SlicesExtend(s, m, mem, mem', n - 1);
      SegmentStarts(s.segment);
      assert Reached(s, n - 1, false) == if n == 1 then 2 else (n - 1) * s.segment;
      assert Reached(s, n - 1, true) == n * s.segment;
      assert SliceBound(s, n - 1, 0) == seq(s.lanes, _ => if n == 1 then 2 else (n - 1) * s.segment);
      LanesExtend(s, m, Slices(s, m, mem, 0, n - 1), Slices(s, m, mem', 0, n - 1), n - 1, s.lanes);
      assert SliceBound(s, n - 1, s.lanes) == seq(s.lanes, _ => if n == 0 then 2 else n * s.segment);
    }
  }

  /** The result depends on the first two blocks of every lane only: whatever else the memory held
      before, no run ever mixes in a block that was not computed. */
  lemma OldContentsIrrelevant(s: Shape, m: Mixer, mem: Memory, mem': Memory, passes: nat)
    requires s.Valid() && |mem| == Size(s) && |mem'| == Size(s) && passes >= 1
    requires forall lane: nat, col: nat :: lane < s.lanes && col < 2 ==> Cell(s, mem, lane, col) == Cell(s, mem', lane, col)
    ensures Passes(s, m, mem, passes) == Passes(s, m, mem', passes)
    decreases passes
  {
    hide Cell, Slices;
    if passes == 1 {
      SlicesExtend(s, m, mem, mem', 4);
      CellsDetermine(s, Slices(s, m, mem, 0, 4), Slices(s, m, mem', 0, 4));
      assert Passes(s, m, mem, 0) == mem && Passes(s, m, mem', 0) == mem';
    } else {
      OldContentsIrrelevant(s, m, mem, mem', passes - 1);
    }
  }

  // ---- The code ----

  // The blocks asked for, at least eight a lane, in 32-bit arithmetic.
  function BlocksAsked(memoryKb: nat, lanes: nat): nat {
    var least := 8 * lanes % U32;
    if memoryKb < least then least else memoryKb
  }

  // The blocks of a segment; the code divides by the product, which must not have wrapped to 0.
  function SegmentLength(memoryKb: nat, lanes: nat): nat
    requires lanes * SYNC_POINTS % U32 != 0
  {
    var length := Quotient(BlocksAsked(memoryKb, lanes), lanes * SYNC_POINTS % U32);
    if length == 0 then 1 else length
  }

  /** The segments have at least two blocks and the memory fits into what is asked for, as the largest
      multiple that does, exactly when eight times the number of lanes is below 2^32. */
  lemma ShapeFits(memoryKb: nat, lanes: nat)
    requires 1 <= lanes < U32 && memoryKb < U32 && lanes * SYNC_POINTS % U32 != 0
    ensures
      var blocks, segment := BlocksAsked(memoryKb, lanes), SegmentLength(memoryKb, lanes);
      (segment >= 2 && lanes * (segment * 4) <= blocks < lanes * ((segment + 1) * 4)) <==> 8 * lanes < U32
  {
    var blocks, segment := BlocksAsked(memoryKb, lanes), SegmentLength(memoryKb, lanes);
    if 8 * lanes < U32 {
      ShapeOf(blocks, lanes);
      hide Quotient;
      assert lanes * SYNC_POINTS % U32 == lanes * 4;
      assert segment == Quotient(blocks, lanes * 4);
    } else if segment >= 2 {
      MulMonotone(lanes, 8, segment * 4);
    }
  }

  lemma ShapeOf(blocks: nat, lanes: nat)
    requires lanes >= 1 && blocks >= 8 * lanes
    ensures
      var segment := Quotient(blocks, lanes * 4);
      segment >= 2 && lanes * (segment * 4) <= blocks < lanes * ((segment + 1) * 4)
  {
    var q, d := blocks / (lanes * 4), lanes * 4;
    Divided(blocks, d);
    if q < 2 {
      MulMonotone(d, q, 1);
      assert false;
    }
    assert d * q == lanes * (q * 4) && d * (q + 1) == lanes * ((q + 1) * 4);
    assert d * (q + 1) == d * q + d;
  }

  // The block that one turn of the innermost loop makes.
  method MakeBlock(s: Shape, m: Mixer, b: array<MemBlock>, pass: nat, slice: nat, lane: nat, idx: nat)
    returns (block: MemBlock)
    requires Visit(s, pass, slice, lane, idx) && b.Length == Size(s)
    ensures block == NewBlock(s, m, b[..], pass, slice, lane, idx)
  {
    hide IndexAlpha, RandomWord, InWindow, Size, At, Cell;
    var laneLength := s.segment * SYNC_POINTS;
    var cur := slice * s.segment + idx;
    ColumnsInside(s, pass, slice, idx);
    var prevIdx := if cur == 0 then laneLength - 1 else cur - 1;
    CellIs(s, b[..], lane, prevIdx);
    var previous := b[At(s, lane, prevIdx)];
    var pseudoRand := RandomWord(m, previous, pass, slice, lane, idx);
    RandomWordFits(m, previous, pass, slice, lane, idx);
    var refLane := if pass == 0 && slice == 0 then lane else pseudoRand / 0x1_0000 % s.lanes;
    assert refLane == RefLane(s, pass, slice, lane, pseudoRand);
    var refIdx := IndexAlpha(s, pass, slice, idx, pseudoRand, refLane == lane);
    IndexAlphaInWindow(s, pass, slice, idx, pseudoRand, refLane == lane);
    WindowInside(s, pass, slice, idx, refLane == lane, refIdx);
    CellIs(s, b[..], refLane, refIdx);
    block := m.mix(previous, b[At(s, refLane, refIdx)]);
    if pass != 0 {
      CellIs(s, b[..], lane, cur);
      block := m.xor(b[At(s, lane, cur)], block);
    }
  }

  // One turn of the innermost loop.
  method FillBlock(s: Shape, m: Mixer, b: array<MemBlock>, pass: nat, slice: nat, lane: nat, idx: nat)
    requires Visit(s, pass, slice, lane, idx) && b.Length == Size(s)
    modifies b
    ensures b[..] == Step(s, m, old(b[..]), pass, slice, lane, idx)
  {
    hide NewBlock, Size, At;
    var block := MakeBlock(s, m, b, pass, slice, lane, idx);
    ColumnsInside(s, pass, slice, idx);
    var cur := slice * s.segment + idx;
    AtInside(s, lane, cur);
    b[At(s, lane, cur)] := block;
  }

  method FillSegment(s: Shape, m: Mixer, b: array<MemBlock>, pass: nat, slice: nat, lane: nat)
    requires s.Valid() && b.Length == Size(s) && slice < 4 && lane < s.lanes
    modifies b
    ensures b[..] == Segment(s, m, old(b[..]), pass, slice, lane, s.segment)
  {
    hide Step, Size;
    var startIdx := if pass == 0 && slice == 0 then 2 else 0;
    for idx := startIdx to s.segment
      invariant b[..] == Segment(s, m, old(b[..]), pass, slice, lane, idx)
    {
      FillBlock(s, m, b, pass, slice, lane, idx);
    }
  }

  method FillSlice(s: Shape, m: Mixer, b: array<MemBlock>, pass: nat, slice: nat)
    requires s.Valid() && b.Length == Size(s) && slice < 4
    modifies b
    ensures b[..] == InOrder(s, m, old(b[..]), pass, slice, LanesUpTo(s.lanes))
  {
    hide Segment, Size, Shape.Valid;
    for lane := 0 to s.lanes
      invariant b[..] == InOrder(s, m, old(b[..]), pass, slice, LanesUpTo(lane))
    {
      var lanes := LanesUpTo(lane + 1);
      assert lanes[..lane] == LanesUpTo(lane) && lanes[lane] == lane;
      FillSegment(s, m, b, pass, slice, lane);
    }
  }

  method Fill(s: Shape, m: Mixer, b: array<MemBlock>, passes: nat)
    requires s.Valid() && b.Length == Size(s)
    modifies b
    ensures b[..] == Passes(s, m, old(b[..]), passes)
  {
    hide InOrder, Size;
    for pass := 0 to passes
      invariant b[..] == Passes(s, m, old(b[..]), pass)
    {
      ghost var before := b[..];
      for slice := 0 to SYNC_POINTS
        invariant b[..] == Slices(s, m, before, pass, slice)
      {
        FillSlice(s, m, b, pass, slice);
      }
    }
  }

  // The exclusive or of the last blocks of the first n lanes.
  function LastBlocks(s: Shape, m: Mixer, mem: Memory, n: nat): MemBlock
    requires s.Valid() && |mem| == Size(s) && 1 <= n <= s.lanes
  {
    var last := Cell(s, mem, n - 1, s.LaneLength() - 1);
    if n == 1 then last else m.xor(LastBlocks(s, m, mem, n - 1), last)
  }

  method PlaceFirstBlocks(s: Shape, first: (nat, nat) -> MemBlock, b: array<MemBlock>)
    requires s.Valid() && b.Length == Size(s)
    modifies b
    ensures GivenBlocks(s, b[..], first, s.lanes)
  {
    hide Cell, GivenBlocks, Size;
    NoneGiven(s, b[..], first);
    for l := 0 to s.lanes
      invariant GivenBlocks(s, b[..], first, l)
    {
      ghost var was := b[..];
      AtInside(s, l, 0);
      AtInside(s, l, 1);
      b[l * (s.segment * SYNC_POINTS)] := first(l, 0);
      b[l * (s.segment * SYNC_POINTS) + 1] := first(l, 1);
      GivenBlocksStep(s, was, b[..], first, l);
    }
  }

  method XorLastBlocks(s: Shape, m: Mixer, b: array<MemBlock>) returns (final: MemBlock)
    requires s.Valid() && b.Length == Size(s)
    ensures final == LastBlocks(s, m, b[..], s.lanes)
  {
    hide Cell, Size;
    var laneLength := s.segment * SYNC_POINTS;
    CellIs(s, b[..], 0, laneLength - 1);
    final := b[0 * laneLength + laneLength - 1];
    for l := 1 to s.lanes
      invariant final == LastBlocks(s, m, b[..], l)
    {
      CellIs(s, b[..], l, laneLength - 1);
      final := m.xor(final, b[l * laneLength + laneLength - 1]);
    }
  }

  /** The memory fill from start to finish: place the first blocks, make the passes, combine the last
      blocks. What the memory held before has no influence. */
  method Run(s: Shape, m: Mixer, first: (nat, nat) -> MemBlock, b: array<MemBlock>, passes: nat)
    returns (final: MemBlock)
    requires s.Valid() && b.Length == Size(s) && passes >= 1
    modifies b
    ensures forall mem: Memory :: |mem| == Size(s) && GivenBlocks(s, mem, first, s.lanes) ==>
      final == LastBlocks(s, m, Passes(s, m, mem, passes), s.lanes)
  {
    hide Passes, Cell, LastBlocks;
    PlaceFirstBlocks(s, first, b);
    ghost var start := b[..];
    Fill(s, m, b, passes);
    final := XorLastBlocks(s, m, b);
    forall mem: Memory | |mem| == Size(s) && GivenBlocks(s, mem, first, s.lanes)
      ensures Passes(s, m, mem, passes) == b[..]
    {
      OldContentsIrrelevant(s, m, mem, start, passes);
    }
  }

  // The first two blocks of the first n lanes are the ones given.
  ghost predicate GivenBlocks(s: Shape, mem: Memory, first: (nat, nat) -> MemBlock, n: nat)
    requires s.Valid() && |mem| == Size(s) && n <= s.lanes
  {
    forall lane: nat, col: nat :: lane < n && col < 2 ==> Cell(s, mem, lane, col) == first(lane, col)
  }

  lemma GivenBlocksStep(s: Shape, was: Memory, now: Memory, first: (nat, nat) -> MemBlock, l: nat)
    requires s.Valid() && |was| == Size(s) && l < s.lanes && GivenBlocks(s, was, first, l)
    requires At(s, l, 1) < |was| && now == was[At(s, l, 0) := first(l, 0)][At(s, l, 1) := first(l, 1)]
    ensures GivenBlocks(s, now, first, l + 1)
  {
    hide At, Size;
    var mid := Update(s, was, l, 0, first(l, 0));
    assert now == Update(s, mid, l, 1, first(l, 1));
    forall lane: nat, col: nat | lane < l + 1 && col < 2 ensures Cell(s, now, lane, col) == first(lane, col) {
      CellOfUpdate(s, was, l, 0, first(l, 0), lane, col);
      CellOfUpdate(s, mid, l, 1, first(l, 1), lane, col);
    }
  }

  lemma NoneGiven(s: Shape, mem: Memory, first: (nat, nat) -> MemBlock)
    requires s.Valid() && |mem| == Size(s)
    ensures GivenBlocks(s, mem, first, 0)
  {
  }

  lemma CellIs(s: Shape, mem: Memory, lane: nat, col: nat)
    requires s.Valid() && |mem| == Size(s) && lane < s.lanes && col < s.LaneLength()
    ensures At(s, lane, col) < |mem| && Cell(s, mem, lane, col) == mem[At(s, lane, col)]
  {
    AtInside(s, lane, col);
  }
}
