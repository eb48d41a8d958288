/** Scalar spans of normalized blocks inside a canonical source of any Unicode text,
    found by comparing UTF-8 bytes while counting characters beside. */
module BlockSpans {
  import opened Basics
  import opened Utf8
  import opened BlockWalk

  datatype Failure = EmptyText | StartsBeyond | Unmapped | BytesLeft | ScalarsLeft

  /** The byte cursor stands exactly where the scalar cursor does. */
  ghost predicate CursorsAgree(source: Text, byteCursor: nat, scalarCursor: nat) {
    scalarCursor <= |source| && byteCursor == |Bytes(source[..scalarCursor])|
  }

  /** Advancing over a gap and a text found there keeps the cursors together. */
  lemma Advance(source: Text, byteCursor: nat, scalarCursor: nat, piece: Text)
    requires CursorsAgree(source, byteCursor, scalarCursor) && piece <= source[scalarCursor..]
    ensures CursorsAgree(source, byteCursor + |Bytes(piece)|, scalarCursor + |piece|)
  {
    hide Encode;
    PieceSlices(source, scalarCursor, piece);
    BytesJoin(source[..scalarCursor], piece);
  }

  /** Comparing bytes at agreeing cursors finds a text, or a space and a text, exactly where it stands. */
  lemma FoundByBytes(source: Text, byteCursor: nat, scalarCursor: nat, text: Text)
    requires CursorsAgree(source, byteCursor, scalarCursor)
    ensures byteCursor <= |Bytes(source)|
    ensures var remaining := Bytes(source)[byteCursor..]; var ahead := source[scalarCursor..];
      && (Bytes(text) <= remaining <==> text <= ahead)
      && ([0x20] <= remaining && Bytes(text) <= remaining[1..] <==> [SPACE] + text <= ahead)
  {
    hide Encode;
    BytesFrom(source, scalarCursor);
    PrefixByBytes(text, source[scalarCursor..]);
    PrefixByBytes([SPACE] + text, source[scalarCursor..]);
    SpaceFirst(text);
    var remaining := Bytes(source)[byteCursor..];
    assert [0x20] <= remaining && Bytes(text) <= remaining[1..] <==> [0x20] + Bytes(text) <= remaining by {
      if [0x20] <= remaining {
        assert remaining == [0x20] + remaining[1..];
      }
    }
  }

  lemma SpaceFirst(text: Text)
    ensures Bytes([SPACE] + text) == [0x20] + Bytes(text)
  {
    BytesJoin([SPACE], text);
    assert Bytes([SPACE]) == [0x20];
  }

  /** The loop's variables. */
  datatype Cursor = Cursor(spans: seq<Span>, byteAt: nat, scalarAt: nat)

  /** Both cursors move over the gap and the text, in their own units. */
  function Past(c: Cursor, text: Text, gap: nat): Cursor {
    var start := c.scalarAt + gap;
    Cursor(c.spans + [Span(start, start + |text|)], c.byteAt + gap + |Bytes(text)|, c.scalarAt + gap + |text|)
  }

  /** Everything known before the next text is looked for. */
  ghost predicate Mapped(source: Text, texts: seq<Text>, c: Cursor) {
    && Walked(source, texts, SPACE, c.spans)
    && c.scalarAt == EndOf(c.spans, |c.spans|) && CursorsAgree(source, c.byteAt, c.scalarAt)
  }

  lemma CursorsMove(source: Text, c: Cursor, text: Text, gap: nat)
    requires c.scalarAt == EndOf(c.spans, |c.spans|)
    requires CursorsAgree(source, c.byteAt, c.scalarAt) && GapIs(source, SPACE, c.spans, text, gap)
    ensures CursorsAgree(source, Past(c, text, gap).byteAt, Past(c, text, gap).scalarAt)
  {
    hide Encode;
    if gap == 0 {
      Advance(source, c.byteAt, c.scalarAt, text);
    } else {
      SpaceFirst(text);
      Advance(source, c.byteAt, c.scalarAt, [SPACE] + text);
      assert |Bytes([SPACE] + text)| == 1 + |Bytes(text)|;
    }
  }

  lemma MappedStep(source: Text, texts: seq<Text>, c: Cursor, gap: nat)
    requires |c.spans| < |texts| && Mapped(source, texts, c)
    requires texts[|c.spans|] != [] && GapIs(source, SPACE, c.spans, texts[|c.spans|], gap)
    ensures Mapped(source, texts, Past(c, texts[|c.spans|], gap))
  {
    hide Encode, CursorsAgree, FoundSoFar, Forced;
    CursorsMove(source, c, texts[|c.spans|], gap);
    WalkStep(source, texts, SPACE, c.spans, gap);
    assert Past(c, texts[|c.spans|], gap).spans == Onward(c.spans, gap, |texts[|c.spans|]|);
  }

  /** The lookup of one block at the cursors. */
  method FindGap(source: Text, bytes: seq<nat>, ghost c: Cursor, byteCursor: nat, position: nat, text: Text)
    returns (r: Result<nat, Failure>)
    requires bytes == Bytes(source) && position == |c.spans| && byteCursor == c.byteAt
    requires c.scalarAt == EndOf(c.spans, |c.spans|) && CursorsAgree(source, c.byteAt, c.scalarAt)
    ensures r.Ok? ==> GapIs(source, SPACE, c.spans, text, r.value)
    ensures r.Err? ==> r == Err(Unmapped) && forall gap: nat :: !GapIs(source, SPACE, c.spans, text, gap)
  {
    hide Encode;
    FoundByBytes(source, byteCursor, c.scalarAt, text);
    if byteCursor > |bytes| {
      return Err(StartsBeyond);
    }
    var remaining := bytes[byteCursor..];
    if Bytes(text) <= remaining {
      r := Ok(0);
    } else if position > 0 && [0x20] <= remaining && Bytes(text) <= remaining[1..] {
      r := Ok(1);
    } else {
      r := Err(Unmapped);
    }
  }

  /** The two checks after the last block: the second never fires. */
  lemma LastChecks(source: Text, texts: seq<Text>, c: Cursor)
    requires |c.spans| == |texts| && Mapped(source, texts, c)
    ensures c.byteAt == |Bytes(source)| <==> c.scalarAt == |source|
  {
    hide Encode, Walked;
    if c.byteAt == |Bytes(source)| {
      CursorUnique(source, c.scalarAt);
    }
    if c.scalarAt == |source| {
      assert source[..c.scalarAt] == source;
    }
  }

  /** The walk returns the tight tiling, or there is none. */
  method BlockGlobalSpans(source: Text, texts: seq<Text>) returns (r: Result<seq<Span>, Failure>)
    ensures r.Ok? ==> TilesTightly(source, texts, SPACE, r.value)
    ensures r.Err? ==> !Walkable(source, texts, SPACE)
    ensures r != Err(StartsBeyond) && r != Err(ScalarsLeft)
  {
    hide Encode, Bytes, Walked, CursorsAgree, TilesTightly, GapIs;
    var bytes := Bytes(source);
    var c := Cursor([], 0, 0);
    StartsMapped(source, texts);
    for position := 0 to |texts|
      invariant |c.spans| == position && Mapped(source, texts, c)
    {
      var text := texts[position];
      if text == [] {
        forall other ensures !TilesTightly(source, texts, SPACE, other) {
          WalkStuck(source, texts, SPACE, c.spans, other);
        }
        return Err(EmptyText);
      }
      var gap := FindGap(source, bytes, c, c.byteAt, position, text);
      if gap.Err? {
        forall other ensures !TilesTightly(source, texts, SPACE, other) {
          WalkStuck(source, texts, SPACE, c.spans, other);
        }
        return Err(gap.error);
      }
      MappedStep(source, texts, c, gap.value);
      c := Past(c, text, gap.value);
    }
    LastChecks(source, texts, c);
    WalkEnds(source, texts, SPACE, c.spans, []);
    forall other | c.scalarAt != |source| ensures !TilesTightly(source, texts, SPACE, other) {
      WalkEnds(source, texts, SPACE, c.spans, other);
    }
    if c.byteAt != |bytes| {
      return Err(BytesLeft);
    }
    if c.scalarAt != |source| {
      return Err(ScalarsLeft);
    }
    r := Ok(c.spans);
  }

  lemma StartsMapped(source: Text, texts: seq<Text>)
    ensures Mapped(source, texts, Cursor([], 0, 0))
  {
    WalkStarts(source, texts, SPACE);
  }

  /** A text that is itself a space can be missed though a tiling exists. */
  lemma SpaceTextMissed()
    ensures var source, texts: seq<Text> := [0x61, SPACE, SPACE], [[0x61], [SPACE]];
      Tileable(source, texts, SPACE) && !Walkable(source, texts, SPACE)
  {
    var source, texts: seq<Text> := [0x61, SPACE, SPACE], [[0x61], [SPACE]];
    assert Joined(texts[..1]) == [0x61] by {
      JoinedEnd(texts, 0);
    }
    assert Missed(texts, 1, SPACE) == source;
    MissedIsTileable(texts, 1, SPACE);
    forall other ensures !TilesTightly(source, texts, SPACE, other) {
      MissedIsNotWalkable(texts, 1, SPACE, other);
    }
  }
}
