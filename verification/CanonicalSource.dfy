/** Placing normalized blocks in one ASCII canonical source, and projecting a
    span over a group of blocks into that source. */
module CanonicalSource {
  import opened Basics
  import opened BlockWalk

  datatype Block = Block(id: nat, text: string)

  datatype BlockPosition = BlockPosition(text: string, globalStart: nat, sourceGapBefore: nat)

  datatype Index = Index(blocks: seq<BlockPosition>, positions: map<nat, nat>)

  datatype MapError = EmptyText | DuplicateId | BeyondSource | DoesNotMap | NotConsumed

  function StartsWith(text: string, prefix: string): bool {
    prefix <= text
  }

  function BlockEnd(b: BlockPosition): nat { b.globalStart + |b.text| }

  /** The blocks lie in the source one after another, from its beginning to
      `end`, with a gap of at most one space before each block but the first. */
  ghost predicate Tiled(source: string, blocks: seq<BlockPosition>, end: nat) {
    && end <= |source|
    && (blocks == [] ==> end == 0)
    && (blocks != [] ==>
          BlockEnd(blocks[|blocks| - 1]) == end
          && blocks[0].globalStart == blocks[0].sourceGapBefore == 0)
    && (forall k | 0 <= k < |blocks| ::
          blocks[k].text != [] && BlockEnd(blocks[k]) <= |source|
            && source[blocks[k].globalStart..BlockEnd(blocks[k])] == blocks[k].text)
    && (forall k | 0 < k < |blocks| :: NextTo(source, blocks[k - 1], blocks[k]))
  }

  ghost predicate NextTo(source: string, left: BlockPosition, right: BlockPosition) {
    && right.sourceGapBefore <= 1
    && right.globalStart == BlockEnd(left) + right.sourceGapBefore
    && (right.sourceGapBefore == 1 ==> BlockEnd(left) < |source| && source[BlockEnd(left)] == ' ')
  }

  /** The index names each listed block by its own position. */
  ghost predicate Names(index: Index, blocks: seq<Block>) {
    && |index.blocks| == |blocks|
    && (forall k | 0 <= k < |blocks| :: index.blocks[k].text == blocks[k].text)
    && (forall k | 0 <= k < |blocks| :: blocks[k].id in index.positions && index.positions[blocks[k].id] == k)
    && (forall id | id in index.positions :: index.positions[id] < |blocks| && blocks[index.positions[id]].id == id)
  }

  /** Where the next block starts, or nothing when it neither follows at once nor after one space. */
  function NextGap(remaining: string, text: string, position: nat): Option<nat> {
    if StartsWith(remaining, text) then Some(0)
    else if position > 0 && StartsWith(remaining, " ") && StartsWith(remaining[1..], text) then Some(1)
    else None
  }

  ghost predicate DistinctIds(blocks: seq<Block>) {
    forall k, l | 0 <= k < l < |blocks| :: blocks[k].id != blocks[l].id
  }

  function TextsOf(blocks: seq<Block>): seq<string> {
    seq(|blocks|, k requires 0 <= k < |blocks| => blocks[k].text)
  }

  function SpansOf(blocks: seq<BlockPosition>): seq<Span> {
    seq(|blocks|, k requires 0 <= k < |blocks| => Span(blocks[k].globalStart, BlockEnd(blocks[k])))
  }

  /** An all-space block is taken at once, and an existing tiling is missed. */
  lemma BlankBlockMissed()
    ensures var source, texts := "a    b", ["a", "  ", "b"];
      Tileable(source, texts, ' ') && !Walkable(source, texts, ' ')
  {
    var source, texts := "a    b", ["a", "  ", "b"];
    assert Joined(texts[..1]) == "a" by {
      JoinedEnd(texts, 0);
    }
    assert texts[2..] == ["b"] && Joined(["b"]) == "b" + Joined([]);
    assert Missed(texts, 1, ' ') == source;
    MissedIsTileable(texts, 1, ' ');
    assert Nonblank("b", ' ') by {
      assert "b"[0] != ' ';
    }
    forall other ensures !TilesTightly(source, texts, ' ', other) {
      MissedIsNotWalkable(texts, 1, ' ', other);
    }
  }

  /** The state of the walk before block `position`. */
  ghost predicate Placing(source: string, blocks: seq<Block>, position: nat, index: Index, cursor: nat) {
    && position == |index.blocks| <= |blocks|
    && Tiled(source, index.blocks, cursor)
    && Names(index, blocks[..position])
    && cursor == EndOf(SpansOf(index.blocks), position)
    && Walked(source, TextsOf(blocks), ' ', SpansOf(index.blocks))
  }

  lemma PlacingStart(source: string, blocks: seq<Block>)
    ensures Placing(source, blocks, 0, Index([], map[]), 0)
  {
    WalkStarts(source, TextsOf(blocks), ' ');
    assert SpansOf([]) == [];
  }

  /** A block placed after a gap goes on in the one possible way. */
  lemma PlacingStep(source: string, blocks: seq<Block>, position: nat, index: Index, cursor: nat, gap: nat)
    requires Placing(source, blocks, position, index, cursor) && position < |blocks| && cursor <= |source|
    requires var block := blocks[position];
      block.text != [] && block.id !in index.positions && NextGap(source[cursor..], block.text, position) == Some(gap)
    ensures var block := blocks[position];
      var placed := BlockPosition(block.text, cursor + gap, gap);
      var more := Index(index.blocks + [placed], index.positions[block.id := position]);
      Placing(source, blocks, position + 1, more, BlockEnd(placed))
  {
    hide Tiled, Names, Walked;
    var block := blocks[position];
    var placed := BlockPosition(block.text, cursor + gap, gap);
    assert blocks[..position + 1] == blocks[..position] + [block];
    TiledStep(source, index.blocks, cursor, placed);
    NamesStep(index, blocks[..position], block, placed);
    SpansStep(source, blocks, index.blocks, placed, gap);
  }

  lemma SpansStep(source: string, blocks: seq<Block>, indexed: seq<BlockPosition>, placed: BlockPosition, gap: nat)
    requires |indexed| < |blocks| && Walked(source, TextsOf(blocks), ' ', SpansOf(indexed))
    requires var cursor := EndOf(SpansOf(indexed), |indexed|); var text := blocks[|indexed|].text;
      && cursor <= |source| && text != [] && NextGap(source[cursor..], text, |indexed|) == Some(gap)
      && placed == BlockPosition(text, cursor + gap, gap)
    ensures Walked(source, TextsOf(blocks), ' ', SpansOf(indexed + [placed]))
    ensures EndOf(SpansOf(indexed + [placed]), |indexed| + 1) == BlockEnd(placed)
  {
    hide Walked;
    SameGap(source, SpansOf(indexed), placed.text);
    WalkStep(source, TextsOf(blocks), ' ', SpansOf(indexed), gap);
    assert SpansOf(indexed + [placed]) == Onward(SpansOf(indexed), gap, |placed.text|);
  }

  /** The lookup finds the gap there is. */
  lemma SameGap(source: string, spans: seq<Span>, text: string)
    requires EndOf(spans, |spans|) <= |source|
    ensures var found := NextGap(source[EndOf(spans, |spans|)..], text, |spans|);
      forall gap: nat :: GapIs(source, ' ', spans, text, gap) <==> found == Some(gap)
  {
    var remaining := source[EndOf(spans, |spans|)..];
    assert StartsWith(remaining, " ") && StartsWith(remaining[1..], text) <==> " " + text <= remaining by {
      if StartsWith(remaining, " ") {
        assert remaining == " " + remaining[1..];
      }
    }
  }

  /** A block that is empty or not found leaves no way to place them all. */
  lemma PlacingStuck(source: string, blocks: seq<Block>, position: nat, index: Index, cursor: nat)
    requires Placing(source, blocks, position, index, cursor) && position < |blocks| && cursor <= |source|
    requires blocks[position].text == [] || NextGap(source[cursor..], blocks[position].text, position) == None
    ensures !Walkable(source, TextsOf(blocks), ' ')
  {
    hide Tiled, Names, Walked, TilesTightly;
    SameGap(source, SpansOf(index.blocks), blocks[position].text);
    forall other ensures !TilesTightly(source, TextsOf(blocks), ' ', other) {
      WalkStuck(source, TextsOf(blocks), ' ', SpansOf(index.blocks), other);
    }
  }

  lemma PlacingEnds(source: string, blocks: seq<Block>, index: Index, cursor: nat)
    requires Placing(source, blocks, |blocks|, index, cursor)
    ensures cursor == |source| ==> TilesTightly(source, TextsOf(blocks), ' ', SpansOf(index.blocks))
    ensures cursor != |source| ==> !Walkable(source, TextsOf(blocks), ' ')
  {
    hide Tiled, Names, Walked, TilesTightly;
    forall other {
      WalkEnds(source, TextsOf(blocks), ' ', SpansOf(index.blocks), other);
    }
  }

  lemma NamesDiffer(index: Index, blocks: seq<Block>)
    requires Names(index, blocks)
    ensures DistinctIds(blocks)
  {}

  lemma KnownIdRepeats(index: Index, blocks: seq<Block>, position: nat)
    requires position < |blocks| && Names(index, blocks[..position]) && blocks[position].id in index.positions
    ensures !DistinctIds(blocks)
  {}

  lemma CursorInside(source: string, indexed: seq<BlockPosition>, cursor: nat)
    requires Tiled(source, indexed, cursor)
    ensures cursor <= |source|
  {}

  /** The mapping tiles the whole source tightly and names every block once; it exists
      exactly when the ids differ and there is a tight tiling. The cursor never passes
      the end of the source. */
  method MapCanonicalBlocks(source: string, blocks: seq<Block>) returns (r: Result<Index, MapError>)
    ensures r.Ok? ==> Tiled(source, r.value.blocks, |source|) && Names(r.value, blocks)
    ensures r.Ok? ==> TilesTightly(source, TextsOf(blocks), ' ', SpansOf(r.value.blocks))
    ensures r.Ok? <==> DistinctIds(blocks) && Walkable(source, TextsOf(blocks), ' ')
    ensures r != Err(BeyondSource)
  {
    hide Tiled, Names, Walked, TilesTightly, NextGap, DistinctIds;
    var indexed: seq<BlockPosition> := [];
    var positions: map<nat, nat> := map[];
    var cursor: nat := 0;
    PlacingStart(source, blocks);
    for position := 0 to |blocks|
      invariant Placing(source, blocks, position, Index(indexed, positions), cursor)
    {
      var block := blocks[position];
      CursorInside(source, indexed, cursor);
      if block.text == [] {
        PlacingStuck(source, blocks, position, Index(indexed, positions), cursor);
        return Err(EmptyText);
      }
      if block.id in positions {
        KnownIdRepeats(Index(indexed, positions), blocks, position);
        return Err(DuplicateId);
      }
      if cursor > |source| {
        return Err(BeyondSource);
      }
      var gap := NextGap(source[cursor..], block.text, position);
      if gap.None? {
        PlacingStuck(source, blocks, position, Index(indexed, positions), cursor);
        return Err(DoesNotMap);
      }
      PlacingStep(source, blocks, position, Index(indexed, positions), cursor, gap.value);
      var placed := BlockPosition(block.text, cursor + gap.value, gap.value);
      positions := positions[block.id := position];
      indexed := indexed + [placed];
      cursor := BlockEnd(placed);
    }
    PlacingEnds(source, blocks, Index(indexed, positions), cursor);
    if cursor != |source| {
      return Err(NotConsumed);
    }
    assert blocks[..|blocks|] == blocks;
    NamesDiffer(Index(indexed, positions), blocks);
    r := Ok(Index(indexed, positions));
  }

  lemma TiledStep(source: string, indexed: seq<BlockPosition>, cursor: nat, placed: BlockPosition)
    requires Tiled(source, indexed, cursor) && placed.text != []
    requires NextGap(source[cursor..], placed.text, |indexed|) == Some(placed.sourceGapBefore)
    requires placed.globalStart == cursor + placed.sourceGapBefore
    ensures Tiled(source, indexed + [placed], BlockEnd(placed))
  {
    var remaining := source[cursor..];
    if placed.sourceGapBefore == 0 {
      assert remaining[..|placed.text|] == source[cursor..BlockEnd(placed)];
    } else {
      assert remaining[0] == ' ';
      assert remaining[1..][..|placed.text|] == source[placed.globalStart..BlockEnd(placed)];
    }
  }

  lemma NamesStep(index: Index, blocks: seq<Block>, block: Block, placed: BlockPosition)
    requires Names(index, blocks) && block.id !in index.positions && placed.text == block.text
    ensures Names(Index(index.blocks + [placed], index.positions[block.id := |blocks|]), blocks + [block])
  {}

  // ---------- groups of blocks ----------

  datatype Separator = Concatenate | Space | PerBoundary(first: bool, second: bool)

  /** The separator at an inter-block boundary; a per-boundary pattern belongs to a three-block group. */
  function At(separator: Separator, boundary: nat): Separator
    requires separator.PerBoundary? ==> boundary < 2
  {
    match separator
    case PerBoundary(first, second) => if (if boundary == 0 then first else second) then Space else Concatenate
    case _ => separator
  }

  /** A boundary has a space when all do, or when its own place in the pattern says so. */
  lemma SpaceAtBoundary(separator: Separator, boundary: nat)
    requires separator.PerBoundary? ==> boundary < 2
    ensures At(separator, boundary) in {Space, Concatenate}
    ensures At(separator, boundary) == Space <==>
      separator == Space || (separator.PerBoundary? && [separator.first, separator.second][boundary])
  {}

  function NeedsGroupSpace(left: string, right: string): bool {
    !(left != [] && left[|left| - 1] == ' ') && !(right != [] && right[0] == ' ')
  }

  ghost predicate NoSpaceAt(text: string, i: int) { 0 <= i < |text| ==> text[i] != ' ' }

  /** A space is put where none stands on either side of the joint. */
  lemma SpaceAtJoint(left: string, right: string)
    ensures var joined := left + right;
      NeedsGroupSpace(left, right) <==> NoSpaceAt(joined, |left| - 1) && NoSpaceAt(joined, |left|)
  {
    var joined := left + right;
    assert left != [] ==> joined[|left| - 1] == left[|left| - 1];
    assert right != [] ==> joined[|left|] == right[0];
  }

  /** What stands between blocks n - 1 and n of a group. */
  function Joint(group: seq<BlockPosition>, separator: Separator, n: nat): string
    requires 0 < n < |group| && (separator.PerBoundary? ==> |group| == 3)
  {
    if At(separator, n - 1) == Space && NeedsGroupSpace(group[n - 1].text, group[n].text) then " " else ""
  }

  /** The separator-joined text of the first n blocks of a group. */
  function GroupText(group: seq<BlockPosition>, separator: Separator, n: nat): string
    requires 0 < n <= |group| && (separator.PerBoundary? ==> |group| == 3)
  {
    if n == 1 then group[0].text
    else GroupText(group, separator, n - 1) + Joint(group, separator, n - 1) + group[n - 1].text
  }

  /** The positions of all ids, when they are known and run consecutively. */
  function OrderedGroup(index: Index, ids: seq<nat>): Option<seq<BlockPosition>> {
    if ids == [] || exists k | 0 <= k < |ids| :: ids[k] !in index.positions then None
    else if exists k | 0 <= k < |ids| - 1 :: index.positions[ids[k]] + 1 != index.positions[ids[k + 1]] then None
    else if exists k | 0 <= k < |ids| :: index.positions[ids[k]] >= |index.blocks| then None
    else Some(seq(|ids|, k requires 0 <= k < |ids| => index.blocks[index.positions[ids[k]]]))
  }

  lemma {:induction false} OrderedGroupIsSlice(index: Index, ids: seq<nat>)
    requires OrderedGroup(index, ids).Some?
    ensures var first := index.positions[ids[0]];
      first + |ids| <= |index.blocks| && OrderedGroup(index, ids).value == index.blocks[first..first + |ids|]
  {
    var first := index.positions[ids[0]];
    forall k: nat | k < |ids| ensures index.positions[ids[k]] == first + k {
      Consecutive(index, ids, k);
    }
    assert index.positions[ids[|ids| - 1]] == first + |ids| - 1;
  }

  /** The ids are those of the blocks from this one on. */
  ghost predicate IdsFrom(index: Index, ids: seq<nat>, first: nat) {
    && ids != [] && first + |ids| <= |index.blocks|
    && forall k | 0 <= k < |ids| :: ids[k] in index.positions && index.positions[ids[k]] == first + k
  }

  /** A group is found exactly when its ids are those of consecutive blocks, and it is these blocks. */
  lemma OrderedGroupMeans(index: Index, ids: seq<nat>, group: seq<BlockPosition>)
    ensures OrderedGroup(index, ids) == Some(group)
      <==> exists first: nat :: IdsFrom(index, ids, first) && group == index.blocks[first..first + |ids|]
  {
    if OrderedGroup(index, ids) == Some(group) {
      OrderedGroupIsSlice(index, ids);
      var first := index.positions[ids[0]];
      forall k: nat | k < |ids| ensures index.positions[ids[k]] == first + k {
        Consecutive(index, ids, k);
      }
      assert IdsFrom(index, ids, first);
    }
    if first: nat :| IdsFrom(index, ids, first) && group == index.blocks[first..first + |ids|] {
      assert forall k | 0 <= k < |ids| - 1 :: index.positions[ids[k]] + 1 == index.positions[ids[k + 1]];
      OrderedGroupIsSlice(index, ids);
      assert index.positions[ids[0]] == first;
    }
  }

  lemma {:induction false} Consecutive(index: Index, ids: seq<nat>, k: nat)
    requires k < |ids| && OrderedGroup(index, ids).Some?
    ensures index.positions[ids[k]] == index.positions[ids[0]] + k
  {
    if k > 0 {
      Consecutive(index, ids, k - 1);
      assert index.positions[ids[k - 1]] + 1 == index.positions[ids[k - 1 + 1]];
    }
  }

  // ---------- projecting a span ----------

  /** Every gap found in the source is the joint the separator prescribes. */
  ghost predicate GapsAgree(group: seq<BlockPosition>, separator: Separator, n: nat)
    requires n <= |group| && (separator.PerBoundary? ==> |group| == 3)
  {
    forall k | 0 < k < n :: group[k].sourceGapBefore == |Joint(group, separator, k)|
  }

  lemma FirstBlock(group: seq<BlockPosition>, separator: Separator)
    requires group != [] && (separator.PerBoundary? ==> |group| == 3)
    ensures GapsAgree(group, separator, 1) && GroupText(group, separator, 1) == group[0].text
  {}

  /** One more boundary, in the gaps and in the joined length. */
  lemma BoundaryStep(group: seq<BlockPosition>, separator: Separator, boundary: nat)
    requires boundary + 1 < |group| && (separator.PerBoundary? ==> |group| == 3)
    ensures GapsAgree(group, separator, boundary + 2)
      <==>
        GapsAgree(group, separator, boundary + 1)
        && group[boundary + 1].sourceGapBefore == |Joint(group, separator, boundary + 1)|
    ensures GapsAgree(group, separator, |group|) ==>
      group[boundary + 1].sourceGapBefore == |Joint(group, separator, boundary + 1)|
    ensures |GroupText(group, separator, boundary + 2)|
      == |GroupText(group, separator, boundary + 1)| + |Joint(group, separator, boundary + 1)|
         + |group[boundary + 1].text|
  {}

  method ProjectGroupSpan(start: nat, end: nat, group: seq<BlockPosition>, separator: Option<Separator>)
    returns (r: Option<Span>)
    requires separator.Some? && separator.value.PerBoundary? ==> |group| == 3
    ensures |group| >= 1 && separator.Some? ==>
      (r.Some? <==>
         GapsAgree(group, separator.value, |group|)
         && start < end <= |GroupText(group, separator.value, |group|)|)
    ensures |group| == 1 ==> (r.Some? <==> start < end <= |group[0].text|)
    ensures |group| == 0 || (|group| > 1 && separator.None?) ==> r.None?
    ensures r.Some? ==> r.value == Span(group[0].globalStart + start, group[0].globalStart + end)
  {
    hide GapsAgree, GroupText;
    if group == [] {
      return None;
    }
    if separator.Some? {
      FirstBlock(group, separator.value);
    }
    var groupScalars := |group[0].text|;
    for boundary := 0 to |group| - 1
      invariant separator.Some? ==> GapsAgree(group, separator.value, boundary + 1)
      invariant separator.Some? ==> groupScalars == |GroupText(group, separator.value, boundary + 1)|
      invariant separator.None? ==> boundary == 0 && groupScalars == |group[0].text|
    {
      if separator.None? {
        return None;
      }
      var separatorScalars :=
        if At(separator.value, boundary) == Space
          && NeedsGroupSpace(group[boundary].text, group[boundary + 1].text) then 1 else 0;
      assert separatorScalars == |Joint(group, separator.value, boundary + 1)|;
      BoundaryStep(group, separator.value, boundary);
      if group[boundary + 1].sourceGapBefore != separatorScalars {
        return None;
      }
      groupScalars := groupScalars + separatorScalars + |group[boundary + 1].text|;
    }
    if start >= end || end > groupScalars {
      return None;
    }
    r := Some(Span(group[0].globalStart + start, group[0].globalStart + end));
  }

  /** Where the gaps agree, the source itself reads as the joined group text. */
  lemma {:induction false} GroupTextInSource(source: string, blocks: seq<BlockPosition>, end: nat,
                                             first: nat, last: nat, separator: Separator, n: nat)
    requires Tiled(source, blocks, end) && first < last <= |blocks| && 0 < n <= last - first
    requires separator.PerBoundary? ==> last - first == 3
    requires GapsAgree(blocks[first..last], separator, n)
    ensures var group := blocks[first..last];
      var from, to := group[0].globalStart, BlockEnd(group[n - 1]);
      from <= to <= |source| && source[from..to] == GroupText(group, separator, n)
  {
    var group := blocks[first..last];
    if n > 1 {
      GroupTextInSource(source, blocks, end, first, last, separator, n - 1);
      var left, right := blocks[first + n - 2], blocks[first + n - 1];
      assert group[n - 2] == left && group[n - 1] == right;
      assert NextTo(source, left, right);
      var from, a, b, c := group[0].globalStart, BlockEnd(left), right.globalStart, BlockEnd(right);
      assert right.sourceGapBefore == |Joint(group, separator, n - 1)|;
      JointReads(source, left, right, Joint(group, separator, n - 1));
      ThreeSlices(source, from, a, b, c);
    }
  }

  /** A gap of the joint's length holds the joint. */
  lemma JointReads(source: string, left: BlockPosition, right: BlockPosition, joint: string)
    requires NextTo(source, left, right) && right.sourceGapBefore == |joint| && (joint == "" || joint == " ")
    requires right.globalStart <= |source|
    ensures source[BlockEnd(left)..right.globalStart] == joint
  {}

  lemma ThreeSlices(s: string, from: nat, a: nat, b: nat, c: nat)
    requires from <= a <= b <= c <= |s|
    ensures s[from..c] == s[from..a] + s[a..b] + s[b..c]
  {}

  /** Whenever a group span projects, the source at the projected range reads
      exactly as the joined group text at the local range. */
  lemma ProjectionReadsGroup(source: string, index: Index, ids: seq<nat>, separator: Separator, start: nat, end: nat)
    requires Tiled(source, index.blocks, |source|) && OrderedGroup(index, ids).Some?
    requires separator.PerBoundary? ==> |ids| == 3
    requires var group := OrderedGroup(index, ids).value;
      GapsAgree(group, separator, |group|) && start < end <= |GroupText(group, separator, |group|)|
    ensures var group := OrderedGroup(index, ids).value;
      var from := group[0].globalStart;
      from + end <= |source|
      && source[from + start..from + end] == GroupText(group, separator, |group|)[start..end]
  {
    hide Tiled, GapsAgree, GroupText;
    OrderedGroupIsSlice(index, ids);
    var first := index.positions[ids[0]];
    GroupSlice(source, index.blocks, first, first + |ids|, separator, start, end);
  }

  lemma GroupSlice(source: string, blocks: seq<BlockPosition>, first: nat, last: nat, separator: Separator, start: nat,
                   end: nat)
    requires Tiled(source, blocks, |source|) && first < last <= |blocks|
    requires separator.PerBoundary? ==> last - first == 3
    requires GapsAgree(blocks[first..last], separator, last - first)
    requires start < end <= |GroupText(blocks[first..last], separator, last - first)|
    ensures var from := blocks[first].globalStart;
      from + end <= |source|
      && source[from + start..from + end] == GroupText(blocks[first..last], separator, last - first)[start..end]
  {
    hide Tiled, GapsAgree, GroupText;
    GroupTextInSource(source, blocks, |source|, first, last, separator, last - first);
    SubSlice(source, blocks[first].globalStart, BlockEnd(blocks[last - 1]), start, end);
  }

  lemma SubSlice(s: string, from: nat, to: nat, a: nat, b: nat)
    requires from <= to <= |s| && a <= b <= to - from
    ensures s[from..to][a..b] == s[from + a..from + b]
  {
    var x, y := s[from..to][a..b], s[from + a..from + b];
    forall k | 0 <= k < |x| ensures x[k] == y[k] {
      assert x[k] == s[from..to][a + k];
    }
  }

  /** When a local range projects: the blocks are known and consecutive, a separator is
      given exactly for several blocks, the gaps agree with it, and the range is a
      nonempty one of the joined text. */
  ghost predicate Projects(index: Index, ids: seq<nat>, separator: Option<Separator>, start: nat, end: nat)
    requires separator.Some? && separator.value.PerBoundary? ==> |ids| == 3
  {
    && OrderedGroup(index, ids).Some? && (separator.None? <==> |ids| == 1)
    && var group := OrderedGroup(index, ids).value;
    var s := if separator.Some? then separator.value else Concatenate;
    GapsAgree(group, s, |group|) && start < end <= |GroupText(group, s, |group|)|
  }

  /** A span over a group of blocks, projected into the source: either nothing,
      or a range that reads as the group text does locally. */
  method GlobalSpan(source: string, index: Index, ids: seq<nat>, separator: Option<Separator>, start: nat, end: nat)
    returns (r: Option<Span>)
    requires Tiled(source, index.blocks, |source|)
    requires separator.Some? && separator.value.PerBoundary? ==> |ids| == 3
    ensures r.Some? <==> Projects(index, ids, separator, start, end)
    ensures r.Some? ==>
      && var group := OrderedGroup(index, ids).value;
      && var text := GroupText(group, if separator.Some? then separator.value else Concatenate, |group|);
      && start < end <= |text| && r.value.start < r.value.end <= |source|
      && source[r.value.start..r.value.end] == text[start..end]
  {
    hide Tiled, GapsAgree, GroupText;
    var group := OrderedGroup(index, ids);
    if group.None? {
      return None;
    }
    if !((|ids| == 1 && separator.None?) || (|ids| > 1 && separator.Some?)) {
      return None;
    }
    if separator.None? {
      FirstBlock(group.value, Concatenate);
    }
    r := ProjectGroupSpan(start, end, group.value, separator);
    if r.Some? {
      ProjectionReadsGroup(source, index, ids, if separator.Some? then separator.value else Concatenate, start, end);
    }
  }
}
