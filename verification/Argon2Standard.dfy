/** The step of the memory fill as section 3.4 of RFC 9106 words it: by inequalities for the numbers drawn
    from the random word, and by the order in which blocks were made for the choice from the window. */
module Argon2Standard {
  import opened Bytes
  import opened Argon2

  // When a column was last written before the block being made: later columns of the pass before, then
  // those of this pass.
  function MadeWhen(s: Shape, slice: nat, index: nat, col: int): int {
    if col < Current(s, slice, index) then col + s.LaneLength() else col
  }

  ghost function Window(s: Shape, pass: nat, slice: nat, index: nat, sameLane: bool): set<int> {
    set c: int | 0 <= c < s.LaneLength() && InWindow(s, pass, slice, index, sameLane, c)
  }

  // The columns of the window made after a given one.
  ghost function MadeAfter(s: Shape, pass: nat, slice: nat, index: nat, sameLane: bool, col: int): set<int> {
    set c: int | c in Window(s, pass, slice, index, sameLane) && MadeWhen(s, slice, index, c) > MadeWhen(s, slice, index, col)
  }

  // When the newest column of the window was made.
  function NewestMade(s: Shape, pass: nat, slice: nat, index: nat, sameLane: bool): int {
    var start := StartPos(s, pass, slice);
    (if start == 0 then s.LaneLength() else start) + RefArea(s, pass, slice, index, sameLane) - 1
  }

  // Going back by one offset is going back by one block in the order of making.
  lemma OffsetsGoBack(s: Shape, pass: nat, slice: nat, index: nat, sameLane: bool, relative: nat)
    requires s.Valid() && Position(s, pass, slice, index) && (pass == 0 && slice == 0 ==> sameLane)
    requires relative < RefArea(s, pass, slice, index, sameLane)
    ensures
      var col := Offset(s, pass, slice, index, sameLane, relative);
      && col in Window(s, pass, slice, index, sameLane)
      && MadeWhen(s, slice, index, col) == NewestMade(s, pass, slice, index, sameLane) - relative
  {
    hide Offset;
    SegmentStarts(s.segment);
    OffsetForm(s, pass, slice, index, sameLane, relative);
    OffsetInWindow(s, pass, slice, index, sameLane, relative);
  }

  // The newest n columns of the window.
  ghost function Newest(s: Shape, pass: nat, slice: nat, index: nat, sameLane: bool, n: nat): set<int>
    requires s.Valid()
  {
    if n == 0 then {} else Newest(s, pass, slice, index, sameLane, n - 1) + {Offset(s, pass, slice, index, sameLane, n - 1)}
  }

  lemma {:induction false} NewestAre(s: Shape, pass: nat, slice: nat, index: nat, sameLane: bool, n: nat)
    requires s.Valid() && Position(s, pass, slice, index) && (pass == 0 && slice == 0 ==> sameLane)
    requires n <= RefArea(s, pass, slice, index, sameLane)
    ensures |Newest(s, pass, slice, index, sameLane, n)| == n
    ensures forall c :: c in Newest(s, pass, slice, index, sameLane, n) <==>
      c in Window(s, pass, slice, index, sameLane) &&
      MadeWhen(s, slice, index, c) > NewestMade(s, pass, slice, index, sameLane) - n
    decreases n
  {
    hide Offset, RefArea, MadeWhen, NewestMade, Window, Position;
    if n == 0 {
      forall c | c in Window(s, pass, slice, index, sameLane)
        ensures MadeWhen(s, slice, index, c) <= NewestMade(s, pass, slice, index, sameLane)
      {
        var r := OffsetOf(s, pass, slice, index, sameLane, c);
      }
    } else {
      NewestAre(s, pass, slice, index, sameLane, n - 1);
      OffsetsGoBack(s, pass, slice, index, sameLane, n - 1);
      var newest := NewestMade(s, pass, slice, index, sameLane);
      forall c | c in Window(s, pass, slice, index, sameLane) && MadeWhen(s, slice, index, c) == newest - (n - 1)
        ensures c == Offset(s, pass, slice, index, sameLane, n - 1)
      {
        var r := OffsetOf(s, pass, slice, index, sameLane, c);
      }
    }
  }

  // Every column of the window is at some offset.
  lemma OffsetOf(s: Shape, pass: nat, slice: nat, index: nat, sameLane: bool, col: int) returns (r: nat)
    requires s.Valid() && Position(s, pass, slice, index) && (pass == 0 && slice == 0 ==> sameLane)
    requires col in Window(s, pass, slice, index, sameLane)
    ensures r < RefArea(s, pass, slice, index, sameLane) && Offset(s, pass, slice, index, sameLane, r) == col
    ensures MadeWhen(s, slice, index, col) == NewestMade(s, pass, slice, index, sameLane) - r
  {
    hide Offset, RefArea, MadeWhen, NewestMade, InWindow, Position;
    WindowExact(s, pass, slice, index, sameLane, col);
    r :| r < RefArea(s, pass, slice, index, sameLane) && Offset(s, pass, slice, index, sameLane, r) == col;
    OffsetsGoBack(s, pass, slice, index, sameLane, r);
  }

  lemma SameSets(a: set<int>, b: set<int>)
    requires forall c: int :: c in a <==> c in b
    ensures a == b
  {
    forall c | c in a ensures c in b {
    }
    forall c | c in b ensures c in a {
    }
  }

  /** The reference area is the number of columns in the window. */
  lemma AreaIsWindow(s: Shape, pass: nat, slice: nat, index: nat, sameLane: bool)
    requires s.Valid() && Position(s, pass, slice, index) && (pass == 0 && slice == 0 ==> sameLane)
    ensures |Window(s, pass, slice, index, sameLane)| == RefArea(s, pass, slice, index, sameLane)
  {
    hide Offset, RefArea, MadeWhen, NewestMade, Window, Position;
    RefAreaPositive(s, pass, slice, index, sameLane);
    var n: nat := RefArea(s, pass, slice, index, sameLane);
    NewestAre(s, pass, slice, index, sameLane, n);
    forall c | c in Window(s, pass, slice, index, sameLane) ensures c in Newest(s, pass, slice, index, sameLane, n) {
      var r := OffsetOf(s, pass, slice, index, sameLane, c);
    }
    SameSets(Window(s, pass, slice, index, sameLane), Newest(s, pass, slice, index, sameLane, n));
  }

  // So many columns of the window were made after the one at an offset.
  lemma MadeAfterOffset(s: Shape, pass: nat, slice: nat, index: nat, sameLane: bool, col: int, r: nat)
    requires s.Valid() && Position(s, pass, slice, index) && (pass == 0 && slice == 0 ==> sameLane)
    requires col in Window(s, pass, slice, index, sameLane) && r < RefArea(s, pass, slice, index, sameLane)
    requires MadeWhen(s, slice, index, col) == NewestMade(s, pass, slice, index, sameLane) - r
    ensures |MadeAfter(s, pass, slice, index, sameLane, col)| == r
  {
    hide Offset, RefArea, MadeWhen, NewestMade, Window, Position;
    NewestAre(s, pass, slice, index, sameLane, r);
    SameSets(MadeAfter(s, pass, slice, index, sameLane, col), Newest(s, pass, slice, index, sameLane, r));
  }

  // Numbers that are a quotient by 2^32.
  ghost predicate High(n: nat, q: nat) {
    q * U32 <= n < (q + 1) * U32
  }

  lemma HighIs(n: nat, q: nat)
    requires High(n, q)
    ensures n / U32 == q
  {
    DivModUnique(n, U32, q, n - q * U32);
  }

  /** Section 3.4.2 of RFC 9106: with x the high word of the square of the random word, and y the high word
      of x times the size of the window, the block taken is the one of the window after which exactly y
      others were made. */
  lemma IndexIsStandard(s: Shape, pass: nat, slice: nat, index: nat, rand: nat, sameLane: bool, x: nat, y: nat, col: int)
    requires s.Valid() && Position(s, pass, slice, index) && (pass == 0 && slice == 0 ==> sameLane) && rand < U32
    requires High(rand * rand, x) && High(|Window(s, pass, slice, index, sameLane)| * x, y)
    ensures col == IndexAlpha(s, pass, slice, index, rand, sameLane) <==>
            col in Window(s, pass, slice, index, sameLane) && |MadeAfter(s, pass, slice, index, sameLane, col)| == y
  {
    RefAreaPositive(s, pass, slice, index, sameLane);
    var area := RefArea(s, pass, slice, index, sameLane);
    AreaIsWindow(s, pass, slice, index, sameLane);
    HighIs(rand * rand, x);
    HighIs(area * x, y);
    RelativeBelow(rand, area);
    assert Relative(rand, area) == y;
    assert IndexAlpha(s, pass, slice, index, rand, sameLane) == Offset(s, pass, slice, index, sameLane, y);
    hide Relative, RefArea, IndexAlpha, MadeWhen, NewestMade, Window, Offset, Position, MadeAfter;
    OffsetsGoBack(s, pass, slice, index, sameLane, y);
    MadeAfterOffset(s, pass, slice, index, sameLane, Offset(s, pass, slice, index, sameLane, y), y);
    if col in Window(s, pass, slice, index, sameLane) && |MadeAfter(s, pass, slice, index, sameLane, col)| == y {
      var r := OffsetOf(s, pass, slice, index, sameLane, col);
      MadeAfterOffset(s, pass, slice, index, sameLane, col, r);
    }
  }

  /** A segment makes every block but the first two of a lane, in the first pass, and every block in the later
      passes. */
  lemma SegmentMakesAll(s: Shape, pass: nat, slice: nat, index: nat)
    requires slice < 4 && index < s.segment
    ensures FirstIndex(pass, slice) <= index <==> !(pass == 0 && slice == 0 && index < 2)
  {
  }

  // ---- The whole step ----

  // Whether the random word is taken from the block before (section 3.4.1): always in Argon2d, never in
  // Argon2i, and in Argon2id except in the first half of the first pass.
  predicate FromBlock(kind: int, pass: nat, slice: nat) {
    kind == 0 || (kind == 2 && !(pass == 0 && slice < 2))
  }

  // The low 32 bits of a word.
  ghost predicate Low(word: nat, rand: nat) {
    rand < U32 && exists high: nat :: word == Joint(high, rand)
  }

  function Joint(high: nat, low: nat): nat {
    high * U32 + low
  }

  // The lane the code takes: the lane itself in the first slice, otherwise the high half of the random
  // word modulo the number of lanes.
  ghost predicate LaneChosen(s: Shape, pass: nat, slice: nat, lane: nat, rand: nat, chosen: nat) {
    if pass == 0 && slice == 0 then chosen == lane
    else chosen < s.lanes && exists q: nat, low: nat :: low < 0x1_0000 && rand == Drawn(s, q, chosen, low)
  }

  function Drawn(s: Shape, q: nat, chosen: nat, low: nat): nat {
    (q * s.lanes + chosen) * 0x1_0000 + low
  }

  // The column before, round the lane.
  predicate JustBefore(s: Shape, cur: nat, prev: nat) {
    prev < s.LaneLength() && (prev + 1 == cur || (cur == 0 && prev + 1 == s.LaneLength()))
  }

  lemma RandomWordIs(m: Mixer, previous: MemBlock, pass: nat, slice: nat, lane: nat, index: nat, rand: nat)
    requires Low(if FromBlock(m.kind, pass, slice) then m.word(previous) else m.address(pass, lane, slice, index), rand)
    ensures RandomWord(m, previous, pass, slice, lane, index) == rand
  {
    var word := if FromBlock(m.kind, pass, slice) then m.word(previous) else m.address(pass, lane, slice, index);
    var high: nat :| word == Joint(high, rand);
    DivModUnique(word, U32, high, rand);
  }

  lemma LaneIs(s: Shape, pass: nat, slice: nat, lane: nat, rand: nat, chosen: nat)
    requires s.lanes > 0 && lane < s.lanes && LaneChosen(s, pass, slice, lane, rand, chosen)
    ensures RefLane(s, pass, slice, lane, rand) == chosen < s.lanes && (pass == 0 && slice == 0 ==> chosen == lane)
  {
    if !(pass == 0 && slice == 0) {
      var q: nat, low: nat :| low < 0x1_0000 && rand == Drawn(s, q, chosen, low);
      DivModUnique(rand, 0x1_0000, q * s.lanes + chosen, low);
      DivModUnique(q * s.lanes + chosen, s.lanes, q, chosen);
    }
  }

  /** One step of the fill: the block after a given one in a lane is mixed from it and from the block that
      the random word selects; in later passes it is combined with what was there. */
  lemma StepIsStandard(s: Shape, m: Mixer, mem: Memory, pass: nat, slice: nat, lane: nat, index: nat,
                       prev: nat, rand: nat, chosen: nat, x: nat, y: nat, col: nat)
    requires Visit(s, pass, slice, lane, index) && |mem| == s.lanes * s.LaneLength()
    requires JustBefore(s, slice * s.segment + index, prev) && At(s, lane, prev) < |mem|
    requires Low(if FromBlock(m.kind, pass, slice) then m.word(mem[At(s, lane, prev)])
                 else m.address(pass, lane, slice, index), rand)
    requires LaneChosen(s, pass, slice, lane, rand, chosen)
    requires High(rand * rand, x) && High(|Window(s, pass, slice, index, chosen == lane)| * x, y)
    requires col in Window(s, pass, slice, index, chosen == lane)
    requires |MadeAfter(s, pass, slice, index, chosen == lane, col)| == y
    ensures
      var cur := slice * s.segment + index;
      && At(s, lane, cur) < |mem| && At(s, chosen, col) < |mem|
      && var mixed := m.mix(mem[At(s, lane, prev)], mem[At(s, chosen, col)]);
         Step(s, m, mem, pass, slice, lane, index) ==
         mem[At(s, lane, cur) := if pass == 0 then mixed else m.xor(mem[At(s, lane, cur)], mixed)]
  {
    hide Window, MadeAfter, High, Low, LaneChosen, FromBlock, IndexAlpha, RefLane, RandomWord, At, InWindow;
    ColumnsInside(s, pass, slice, index);
    CellIs(s, mem, lane, prev);
    CellIs(s, mem, lane, slice * s.segment + index);
    RandomWordIs(m, mem[At(s, lane, prev)], pass, slice, lane, index, rand);
    LaneIs(s, pass, slice, lane, rand, chosen);
    RandomWordFits(m, mem[At(s, lane, prev)], pass, slice, lane, index);
    IndexIsStandard(s, pass, slice, index, rand, chosen == lane, x, y, col);
    IndexAlphaInWindow(s, pass, slice, index, rand, chosen == lane);
    WindowInside(s, pass, slice, index, chosen == lane, col);
    CellIs(s, mem, chosen, col);
  }

  // Such numbers are drawn at every step.
  lemma StepDraws(s: Shape, m: Mixer, mem: Memory, pass: nat, slice: nat, lane: nat, index: nat)
    returns (prev: nat, rand: nat, chosen: nat, x: nat, y: nat, col: nat)
    requires Visit(s, pass, slice, lane, index) && |mem| == s.lanes * s.LaneLength()
    ensures JustBefore(s, slice * s.segment + index, prev) && At(s, lane, prev) < |mem|
    ensures Low(if FromBlock(m.kind, pass, slice) then m.word(mem[At(s, lane, prev)])
                else m.address(pass, lane, slice, index), rand)
    ensures LaneChosen(s, pass, slice, lane, rand, chosen)
    ensures High(rand * rand, x) && High(|Window(s, pass, slice, index, chosen == lane)| * x, y)
    ensures col in Window(s, pass, slice, index, chosen == lane)
    ensures |MadeAfter(s, pass, slice, index, chosen == lane, col)| == y
  {
    hide Window, MadeAfter, IndexAlpha, At, InWindow;
    ColumnsInside(s, pass, slice, index);
    prev := Previous(s, slice, index);
    CellIs(s, mem, lane, prev);
    var word := if FromBlock(m.kind, pass, slice) then m.word(mem[At(s, lane, prev)]) else m.address(pass, lane, slice, index);
    Divided(word, U32);
    rand := word % U32;
    assert word == Joint(word / U32, rand);
    chosen := if pass == 0 && slice == 0 then lane else rand / 0x1_0000 % s.lanes;
    LaneDrawn(s, pass, slice, lane, rand, chosen);
    var w := |Window(s, pass, slice, index, chosen == lane)|;
    x, y := rand * rand / U32, w * (rand * rand / U32) / U32;
    Divided(rand * rand, U32);
    Divided(w * x, U32);
    var found := IndexAlpha(s, pass, slice, index, rand, chosen == lane);
    hide High;
    IndexIsStandard(s, pass, slice, index, rand, chosen == lane, x, y, found);
    col := found;
  }

  lemma LaneDrawn(s: Shape, pass: nat, slice: nat, lane: nat, rand: nat, chosen: nat)
    requires s.lanes > 0 && chosen == if pass == 0 && slice == 0 then lane else rand / 0x1_0000 % s.lanes
    ensures LaneChosen(s, pass, slice, lane, rand, chosen)
  {
    var half, low := rand / 0x1_0000, rand % 0x1_0000;
    Divided(rand, 0x1_0000);
    Divided(half, s.lanes);
    if !(pass == 0 && slice == 0) {
      assert rand == Drawn(s, half / s.lanes, chosen, low);
    }
  }

  // ---- The order of the steps ----

  // A place in the order: lanes change after segments, slices after lanes, passes after slices.
  datatype Turn = Turn(pass: nat, slice: nat, lane: nat, index: nat)

  function TurnNumber(s: Shape, pass: nat, slice: nat, lane: nat, index: nat): nat {
    ((pass * 4 + slice) * s.lanes + lane) * s.segment + index
  }

  function TurnAt(s: Shape, k: nat): Turn
    requires s.lanes > 0 && s.segment > 0
  {
    Turn(k / s.segment / s.lanes / 4, k / s.segment / s.lanes % 4, k / s.segment % s.lanes, k % s.segment)
  }

  lemma TurnIs(s: Shape, pass: nat, slice: nat, lane: nat, index: nat)
    requires slice < 4 && lane < s.lanes && index < s.segment
    ensures TurnAt(s, TurnNumber(s, pass, slice, lane, index)) == Turn(pass, slice, lane, index)
  {
    var q := (pass * 4 + slice) * s.lanes + lane;
    DivModUnique(TurnNumber(s, pass, slice, lane, index), s.segment, q, index);
    DivModUnique(q, s.lanes, pass * 4 + slice, lane);
    DivModUnique(pass * 4 + slice, 4, pass, slice);
  }

  // The memory after so many turns of one counter; the first two blocks of a lane are given.
  function Counted(s: Shape, m: Mixer, mem: Memory, turns: nat): (r: Memory)
    requires s.Valid() && |mem| == Size(s)
    ensures |r| == |mem|
  {
    if turns == 0 then mem else OneTurn(s, m, Counted(s, m, mem, turns - 1), TurnAt(s, turns - 1))
  }

  function OneTurn(s: Shape, m: Mixer, mem: Memory, t: Turn): (r: Memory)
    requires s.Valid() && |mem| == Size(s)
    ensures |r| == |mem|
  {
    if t.lane >= s.lanes || t.slice >= 4 || t.index >= s.segment || (t.pass == 0 && t.slice == 0 && t.index < 2) then mem
    else Step(s, m, mem, t.pass, t.slice, t.lane, t.index)
  }

  lemma CountedStep(s: Shape, m: Mixer, mem: Memory, turns: nat)
    requires s.Valid() && |mem| == Size(s)
    ensures Counted(s, m, mem, turns + 1) == OneTurn(s, m, Counted(s, m, mem, turns), TurnAt(s, turns))
  {
    hide OneTurn, TurnAt;
  }

  lemma {:induction false} SegmentCounted(s: Shape, m: Mixer, mem: Memory, pass: nat, slice: nat, lane: nat, n: nat)
    requires s.Valid() && |mem| == Size(s) && slice < 4 && lane < s.lanes && n <= s.segment
    ensures Counted(s, m, mem, TurnNumber(s, pass, slice, lane, n)) ==
            Segment(s, m, Counted(s, m, mem, TurnNumber(s, pass, slice, lane, 0)), pass, slice, lane, n)
    decreases n
  {
    hide Counted, Step, TurnAt, Shape.Valid, Size;
    if n > 0 {
      SegmentCounted(s, m, mem, pass, slice, lane, n - 1);
      TurnIs(s, pass, slice, lane, n - 1);
      CountedStep(s, m, mem, TurnNumber(s, pass, slice, lane, n - 1));
      NextIndex(s, pass, slice, lane, n - 1);
      hide TurnNumber;
    }
  }

  lemma NextIndex(s: Shape, pass: nat, slice: nat, lane: nat, index: nat)
    ensures TurnNumber(s, pass, slice, lane, index + 1) == TurnNumber(s, pass, slice, lane, index) + 1
    ensures TurnNumber(s, pass, slice, lane, s.segment) == TurnNumber(s, pass, slice, lane + 1, 0)
    ensures TurnNumber(s, pass, slice, s.lanes, 0) == TurnNumber(s, pass, slice + 1, 0, 0)
    ensures TurnNumber(s, pass, 4, 0, 0) == TurnNumber(s, pass + 1, 0, 0, 0)
  {
  }

  lemma {:induction false} LanesCounted(s: Shape, m: Mixer, mem: Memory, pass: nat, slice: nat, n: nat)
    requires s.Valid() && |mem| == Size(s) && slice < 4 && n <= s.lanes
    ensures Counted(s, m, mem, TurnNumber(s, pass, slice, n, 0)) ==
            InOrder(s, m, Counted(s, m, mem, TurnNumber(s, pass, slice, 0, 0)), pass, slice, LanesUpTo(n))
    decreases n
  {
    hide Counted, Segment, TurnNumber, Shape.Valid, Size;
    if n > 0 {
      LanesCounted(s, m, mem, pass, slice, n - 1);
      SegmentCounted(s, m, mem, pass, slice, n - 1, s.segment);
      NextIndex(s, pass, slice, n - 1, 0);
      var lanes := LanesUpTo(n);
      assert lanes[..n - 1] == LanesUpTo(n - 1) && lanes[n - 1] == n - 1;
    }
  }

  lemma {:induction false} SlicesCounted(s: Shape, m: Mixer, mem: Memory, pass: nat, n: nat)
    requires s.Valid() && |mem| == Size(s) && n <= 4
    ensures Counted(s, m, mem, TurnNumber(s, pass, n, 0, 0)) ==
            Slices(s, m, Counted(s, m, mem, TurnNumber(s, pass, 0, 0, 0)), pass, n)
    decreases n
  {
    hide Counted, InOrder, TurnNumber, Shape.Valid, Size;
    if n > 0 {
      SlicesCounted(s, m, mem, pass, n - 1);
      LanesCounted(s, m, mem, pass, n - 1, s.lanes);
      NextIndex(s, pass, n - 1, 0, 0);
    }
  }

  /** The nested loops are one count through all places in order: the index runs fastest, then the lane, the
      slice and the pass. */
  lemma {:induction false} PassesAreCounted(s: Shape, m: Mixer, mem: Memory, n: nat)
    requires s.Valid() && |mem| == Size(s)
    ensures Passes(s, m, mem, n) == Counted(s, m, mem, TurnsOf(s, n))
    decreases n
  {
    hide Slices, TurnNumber, Shape.Valid, Size, TurnsOf;
    FirstOfPass(s, n);
    if n > 0 {
      hide Counted;
      FirstOfPass(s, n - 1);
      PassesAreCounted(s, m, mem, n - 1);
      SlicesCounted(s, m, mem, n - 1, 4);
      NextIndex(s, n - 1, 0, 0, 0);
    }
  }

  // All the blocks of so many passes.
  function TurnsOf(s: Shape, passes: nat): nat {
    passes * 4 * s.lanes * s.segment
  }

  lemma FirstOfPass(s: Shape, n: nat)
    ensures TurnNumber(s, n, 0, 0, 0) == TurnsOf(s, n) && TurnsOf(s, 0) == 0
  {
  }

  /** Eight blocks a lane are the least, and otherwise as many as asked for. */
  lemma BlocksAskedIs(memoryKb: nat, lanes: nat)
    requires 8 * lanes < U32
    ensures BlocksAsked(memoryKb, lanes) == memoryKb || BlocksAsked(memoryKb, lanes) == 8 * lanes
    ensures BlocksAsked(memoryKb, lanes) >= memoryKb && BlocksAsked(memoryKb, lanes) >= 8 * lanes
  {
  }

  // ---- The final block ----

  function XorAll(m: Mixer, blocks: seq<MemBlock>): MemBlock
    requires blocks != []
  {
    var n := |blocks| - 1;
    if n == 0 then blocks[0] else m.xor(XorAll(m, blocks[..n]), blocks[n])
  }

  // The blocks at the ends of the lanes.
  function EndsOfLanes(s: Shape, mem: Memory, n: nat): (r: seq<MemBlock>)
    requires |mem| == s.lanes * s.LaneLength() && n <= s.lanes && s.segment > 0
    ensures |r| == n
  {
    seq(n, l requires 0 <= l < n => EndOfLane(s, mem, l))
  }

  function EndOfLane(s: Shape, mem: Memory, lane: nat): MemBlock
    requires |mem| == s.lanes * s.LaneLength() && lane < s.lanes && s.segment > 0
  {
    MulMonotone(s.LaneLength(), lane + 1, s.lanes);
    MulMonotone(s.LaneLength(), 1, lane + 1);
    mem[(lane + 1) * s.LaneLength() - 1]
  }

  /** What is combined at the end are the blocks just before each multiple of the lane length. */
  lemma {:induction false} LastBlocksAreEnds(s: Shape, m: Mixer, mem: Memory, n: nat)
    requires s.Valid() && |mem| == s.lanes * s.LaneLength() && 1 <= n <= s.lanes
    ensures LastBlocks(s, m, mem, n) == XorAll(m, EndsOfLanes(s, mem, n))
    decreases n
  {
    hide EndOfLane, Cell;
    LastCell(s, mem, n - 1);
    if n > 1 {
      LastBlocksAreEnds(s, m, mem, n - 1);
      assert EndsOfLanes(s, mem, n)[..n - 1] == EndsOfLanes(s, mem, n - 1);
    }
  }

  lemma LastCell(s: Shape, mem: Memory, lane: nat)
    requires s.Valid() && |mem| == s.lanes * s.LaneLength() && lane < s.lanes
    ensures Cell(s, mem, lane, s.LaneLength() - 1) == EndOfLane(s, mem, lane)
  {
    assert (lane + 1) * s.LaneLength() == lane * s.LaneLength() + s.LaneLength();
  }
}
