/** Laying texts over a source one after another. */
module BlockWalk {
  // Each text follows at once or after one separator: the walk that prefers no gap, every
  // tiling there is, and when the walk misses one. Characters are of any type.

  import opened Basics

  /** Where the text after the first i would begin if it touched them. */
  function EndOf(spans: seq<Span>, i: nat): nat
    requires i <= |spans|
  {
    if i == 0 then 0 else spans[i - 1].end
  }

  /** Span i slices to text i and follows its predecessor at once or after one separator. */
  ghost predicate Placed<T>(source: seq<T>, texts: seq<seq<T>>, space: T, spans: seq<Span>, i: nat)
    requires i < |spans| && i < |texts|
  {
    var from := EndOf(spans, i);
    && from <= spans[i].start <= spans[i].end <= |source|
    && source[spans[i].start..spans[i].end] == texts[i]
    && (spans[i].start == from || (i > 0 && spans[i].start == from + 1 && source[from] == space))
  }

  ghost predicate PlacedSoFar<T>(source: seq<T>, texts: seq<seq<T>>, space: T, spans: seq<Span>) {
    |spans| <= |texts| && forall i | 0 <= i < |spans| :: Placed(source, texts, space, spans, i)
  }

  /** The texts tile the source, with gaps of at most one separator. */
  ghost predicate Tiles<T>(source: seq<T>, texts: seq<seq<T>>, space: T, spans: seq<Span>) {
    |spans| == |texts| && PlacedSoFar(source, texts, space, spans) && EndOf(spans, |spans|) == |source|
  }

  /** A gap is taken only where the text does not stand without one. */
  ghost predicate NoNeedlessGap<T>(source: seq<T>, texts: seq<seq<T>>, spans: seq<Span>, i: nat)
    requires i < |spans| && i < |texts|
  {
    && EndOf(spans, i) <= |source| && texts[i] != []
    && (texts[i] <= source[EndOf(spans, i)..] ==> spans[i].start == EndOf(spans, i))
  }

  /** What the walk has found so far: every text placed, none empty, with no needless gap. */
  ghost predicate FoundSoFar<T>(source: seq<T>, texts: seq<seq<T>>, space: T, spans: seq<Span>) {
    && PlacedSoFar(source, texts, space, spans)
    && forall i | 0 <= i < |spans| :: NoNeedlessGap(source, texts, spans, i)
  }

  ghost predicate TilesTightly<T>(source: seq<T>, texts: seq<seq<T>>, space: T, spans: seq<Span>) {
    Tiles(source, texts, space, spans) && FoundSoFar(source, texts, space, spans)
  }

  // ---------- the walk ----------

  /** There is only one way to go on. */
  ghost predicate Forced<T>(source: seq<T>, texts: seq<seq<T>>, space: T, spans: seq<Span>) {
    forall other | TilesTightly(source, texts, space, other) :: |spans| <= |other| && other[..|spans|] == spans
  }

  /** Everything known before the next text is looked for. */
  ghost predicate Walked<T>(source: seq<T>, texts: seq<seq<T>>, space: T, spans: seq<Span>) {
    && FoundSoFar(source, texts, space, spans) && Forced(source, texts, space, spans)
    && EndOf(spans, |spans|) <= |source|
  }

  /** The gap before a text: none, or one separator unless it is the first text. */
  ghost predicate GapIs<T>(source: seq<T>, space: T, spans: seq<Span>, text: seq<T>, gap: nat)
    requires EndOf(spans, |spans|) <= |source|
  {
    var ahead := source[EndOf(spans, |spans|)..];
    (gap == 0 && text <= ahead) || (gap == 1 && !(text <= ahead) && spans != [] && [space] + text <= ahead)
  }

  /** The spans with one more text of the given length after the gap. */
  function Onward(spans: seq<Span>, gap: nat, length: nat): seq<Span> {
    var start := EndOf(spans, |spans|) + gap;
    spans + [Span(start, start + length)]
  }

  lemma PieceSlices<T>(source: seq<T>, at: nat, piece: seq<T>)
    requires at <= |source| && piece <= source[at..]
    ensures source[..at] + piece == source[..at + |piece|] && source[at..at + |piece|] == piece
  {
    assert source[at..][..|piece|] == piece;
  }

  lemma WalkStarts<T>(source: seq<T>, texts: seq<seq<T>>, space: T)
    ensures Walked(source, texts, space, [])
  {}

  /** Whether a text stands after the gap, be the gap needed or not. */
  ghost predicate Stands<T>(source: seq<T>, space: T, spans: seq<Span>, text: seq<T>, gap: nat) {
    && EndOf(spans, |spans|) <= |source|
    && var ahead := source[EndOf(spans, |spans|)..];
    (gap == 0 && text <= ahead) || (gap == 1 && spans != [] && [space] + text <= ahead)
  }

  lemma StandsSlices<T>(source: seq<T>, space: T, spans: seq<Span>, text: seq<T>, gap: nat)
    requires Stands(source, space, spans, text, gap)
    ensures var from := EndOf(spans, |spans|);
      && gap <= 1 && from + gap + |text| <= |source| && source[from + gap..from + gap + |text|] == text
      && (gap == 1 ==> spans != [] && source[from] == space)
      && source[from + gap + |text|..] == source[from..][gap + |text|..]
  {
    var from := EndOf(spans, |spans|);
    if gap == 0 {
      PieceSlices(source, from, text);
    } else {
      PieceSlices(source, from, [space] + text);
      var slice := source[from..from + 1 + |text|];
      assert slice[0] == space && slice[1..] == text;
    }
  }

  lemma FoundMore<T>(source: seq<T>, texts: seq<seq<T>>, space: T, spans: seq<Span>, gap: nat)
    requires |spans| < |texts| && Walked(source, texts, space, spans)
    requires texts[|spans|] != [] && GapIs(source, space, spans, texts[|spans|], gap)
    ensures FoundSoFar(source, texts, space, Onward(spans, gap, |texts[|spans|]|))
  {
    var more := Onward(spans, gap, |texts[|spans|]|);
    StandsSlices(source, space, spans, texts[|spans|], gap);
    forall i | 0 <= i < |more|
      ensures Placed(source, texts, space, more, i) && NoNeedlessGap(source, texts, more, i)
    {
      assert EndOf(more, i) == EndOf(spans, i);
      if i < |spans| {
        assert Placed(source, texts, space, spans, i) && NoNeedlessGap(source, texts, spans, i);
      }
    }
  }

  /** Any tight tiling that begins with the spans so far places the next text at one of the two places looked at. */
  lemma NextPlace<T>(source: seq<T>, texts: seq<seq<T>>, space: T, spans: seq<Span>, other: seq<Span>)
    requires |spans| < |texts| && TilesTightly(source, texts, space, other) && other[..|spans|] == spans
    ensures EndOf(spans, |spans|) <= |source| && texts[|spans|] != []
    ensures exists gap: nat ::
      && GapIs(source, space, spans, texts[|spans|], gap)
      && other[..|spans| + 1] == Onward(spans, gap, |texts[|spans|]|)
  {
    var k := |spans|;
    assert Placed(source, texts, space, other, k) && NoNeedlessGap(source, texts, other, k);
    assert EndOf(other, k) == EndOf(spans, k) by {
      if k > 0 {
        assert other[k - 1] == other[..k][k - 1];
      }
    }
    var from, text := EndOf(spans, k), texts[k];
    var gap: nat := other[k].start - from;
    if gap == 1 {
      assert source[from..from + 1 + |text|] == [source[from]] + source[from + 1..from + 1 + |text|];
    }
    assert GapIs(source, space, spans, text, gap);
    assert other[..k + 1] == other[..k] + [other[k]];
  }

  lemma OneGap<T>(source: seq<T>, space: T, spans: seq<Span>, text: seq<T>, gap: nat, other: nat)
    requires EndOf(spans, |spans|) <= |source|
    requires GapIs(source, space, spans, text, gap) && GapIs(source, space, spans, text, other)
    ensures gap == other
  {}

  /** The walk goes on in the one possible way. */
  lemma WalkStep<T>(source: seq<T>, texts: seq<seq<T>>, space: T, spans: seq<Span>, gap: nat)
    requires |spans| < |texts| && Walked(source, texts, space, spans)
    requires texts[|spans|] != [] && GapIs(source, space, spans, texts[|spans|], gap)
    ensures Walked(source, texts, space, Onward(spans, gap, |texts[|spans|]|))
  {
    var text, more := texts[|spans|], Onward(spans, gap, |texts[|spans|]|);
    FoundMore(source, texts, space, spans, gap);
    StandsSlices(source, space, spans, text, gap);
    forall other | TilesTightly(source, texts, space, other) ensures |more| <= |other| && other[..|more|] == more {
      NextPlace(source, texts, space, spans, other);
      var found: nat :| GapIs(source, space, spans, text, found)
        && other[..|spans| + 1] == Onward(spans, found, |text|);
      OneGap(source, space, spans, text, gap, found);
    }
  }

  /** A text that is empty or stands at neither place ends all hope of a tight tiling. */
  lemma WalkStuck<T>(source: seq<T>, texts: seq<seq<T>>, space: T, spans: seq<Span>, other: seq<Span>)
    requires |spans| < |texts| && Walked(source, texts, space, spans)
    requires texts[|spans|] == [] || forall gap: nat :: !GapIs(source, space, spans, texts[|spans|], gap)
    ensures !TilesTightly(source, texts, space, other)
  {
    if TilesTightly(source, texts, space, other) {
      NextPlace(source, texts, space, spans, other);
      assert false;
    }
  }

  /** After the last text the walk has found the tight tiling, or there is none. */
  lemma WalkEnds<T>(source: seq<T>, texts: seq<seq<T>>, space: T, spans: seq<Span>, other: seq<Span>)
    requires |spans| == |texts| && Walked(source, texts, space, spans)
    ensures EndOf(spans, |spans|) == |source| ==> TilesTightly(source, texts, space, spans)
    ensures EndOf(spans, |spans|) != |source| ==> !TilesTightly(source, texts, space, other)
  {
    assert |other| == |spans| ==> other[..|spans|] == other;
  }

  // ---------- when the walk misses a tiling ----------

  ghost predicate Nonblank<T>(text: seq<T>, space: T) {
    exists k :: 0 <= k < |text| && text[k] != space
  }

  /** Every text after the first holds something else than separators. */
  ghost predicate LaterNonblank<T>(texts: seq<seq<T>>, space: T) {
    forall i | 0 < i < |texts| :: Nonblank(texts[i], space)
  }

  ghost predicate Tileable<T>(source: seq<T>, texts: seq<seq<T>>, space: T) {
    exists spans :: Tiles(source, texts, space, spans)
  }

  /** What the walk finds when it succeeds. */
  ghost predicate Walkable<T>(source: seq<T>, texts: seq<seq<T>>, space: T) {
    exists spans :: TilesTightly(source, texts, space, spans)
  }

  /** Only a text of nothing but separators stands both here and one separator later. */
  lemma {:induction false} BothPlacesBlank<T>(ahead: seq<T>, text: seq<T>, space: T, k: nat)
    requires text <= ahead && ahead != [] && ahead[0] == space && text <= ahead[1..] && k < |text|
    ensures text[k] == space
  {
    if k > 0 {
      BothPlacesBlank(ahead, text, space, k - 1);
      assert text[k - 1] == ahead[1..][k - 1] == ahead[k];
    }
  }

  /** With no blank text after the first, every tiling is the one the walk finds. */
  lemma NonblankIsTight<T>(source: seq<T>, texts: seq<seq<T>>, space: T, spans: seq<Span>)
    requires LaterNonblank(texts, space) && (forall i | 0 <= i < |texts| :: texts[i] != [])
    requires Tiles(source, texts, space, spans)
    ensures TilesTightly(source, texts, space, spans)
  {
    forall i | 0 <= i < |spans| ensures NoNeedlessGap(source, texts, spans, i) {
      assert Placed(source, texts, space, spans, i);
      var from, text := EndOf(spans, i), texts[i];
      if spans[i].start == from + 1 && text <= source[from..] {
        assert source[from..][1..][..|text|] == text;
        var k :| 0 <= k < |text| && text[k] != space;
        BothPlacesBlank(source[from..], text, space, k);
        assert false;
      }
    }
  }

  function Joined<T>(texts: seq<seq<T>>): seq<T> {
    if texts == [] then [] else texts[0] + Joined(texts[1..])
  }

  lemma {:induction false} JoinedEnd<T>(texts: seq<seq<T>>, k: nat)
    requires k < |texts|
    ensures Joined(texts[..k + 1]) == Joined(texts[..k]) + texts[k]
  {
    if k == 0 {
      assert texts[..1][1..] == [];
    } else {
      var rest := texts[1..];
      JoinedEnd(rest, k - 1);
      assert texts[..k + 1][1..] == rest[..k] && texts[..k][1..] == rest[..k - 1];
    }
  }

  lemma PlacedMore<T>(source: seq<T>, texts: seq<seq<T>>, space: T, spans: seq<Span>, span: Span)
    requires |spans| < |texts| && PlacedSoFar(source, texts, space, spans)
    requires var from := EndOf(spans, |spans|);
      && from <= span.start <= span.end <= |source| && source[span.start..span.end] == texts[|spans|]
      && (span.start == from || (spans != [] && span.start == from + 1 && source[from] == space))
    ensures PlacedSoFar(source, texts, space, spans + [span])
  {
    var more := spans + [span];
    forall i | 0 <= i < |more| ensures Placed(source, texts, space, more, i) {
      assert EndOf(more, i) == EndOf(spans, i);
      assert i < |spans| ==> Placed(source, texts, space, spans, i);
    }
  }

  lemma PlaceNext<T>(source: seq<T>, texts: seq<seq<T>>, space: T, spans: seq<Span>, gap: nat)
    requires |spans| < |texts| && PlacedSoFar(source, texts, space, spans)
    requires Stands(source, space, spans, texts[|spans|], gap)
    ensures PlacedSoFar(source, texts, space, Onward(spans, gap, |texts[|spans|]|))
    ensures var from := EndOf(spans, |spans|); var end := from + gap + |texts[|spans|]|;
      end <= |source| && source[end..] == source[from..][gap + |texts[|spans|]|..]
  {
    hide PlacedSoFar, Stands;
    var start := EndOf(spans, |spans|) + gap;
    StandsSlices(source, space, spans, texts[|spans|], gap);
    PlacedMore(source, texts, space, spans, Span(start, start + |texts[|spans|]|));
  }

  /** Texts that stand joined in the source can be placed without gaps. */
  lemma {:induction false} PlaceRun<T>(source: seq<T>, texts: seq<seq<T>>, space: T, spans: seq<Span>, m: nat)
    returns (more: seq<Span>)
    requires |spans| <= m <= |texts| && PlacedSoFar(source, texts, space, spans) && EndOf(spans, |spans|) <= |source|
    requires Joined(texts[|spans|..m]) <= source[EndOf(spans, |spans|)..]
    ensures |more| == m && PlacedSoFar(source, texts, space, more)
    ensures EndOf(more, m) == EndOf(spans, |spans|) + |Joined(texts[|spans|..m])| <= |source|
    decreases m - |spans|
  {
    if |spans| == m {
      more := spans;
    } else {
      var k, from := |spans|, EndOf(spans, |spans|);
      var run := texts[k..m];
      assert run[0] == texts[k] && run[1..] == texts[k + 1..m];
      assert Joined(run) == texts[k] + Joined(run[1..]);
      assert source[from..][..|Joined(run)|] == Joined(run);
      PlaceNext(source, texts, space, spans, 0);
      assert source[from + |texts[k]|..] == source[from..][|texts[k]|..];
      more := PlaceRun(source, texts, space, Onward(spans, 0, |texts[k]|), m);
    }
  }

  /** What follows text k in the source that the walk misses. */
  function Rest<T>(texts: seq<seq<T>>, k: nat, space: T): seq<T>
    requires k < |texts|
  {
    if k + 1 == |texts| then [] else [space] + Joined(texts[k + 1..])
  }

  /** The texts joined, with one separator before text k and one behind it. */
  function Missed<T>(texts: seq<seq<T>>, k: nat, space: T): seq<T>
    requires k < |texts|
  {
    Joined(texts[..k]) + ([space] + texts[k] + Rest(texts, k, space))
  }

  lemma MissedIsTileable<T>(texts: seq<seq<T>>, k: nat, space: T)
    requires 0 < k < |texts|
    ensures Tileable(Missed(texts, k, space), texts, space)
  {
    hide PlacedSoFar, Joined;
    var source, front := Missed(texts, k, space), Joined(texts[..k]);
    assert texts[0..k] == texts[..k] && source[0..] == source && source[..|front|] == front;
    NothingPlaced(source, texts, space);
    var spans := PlaceRun(source, texts, space, [], k);
    assert source[|front|..] == [space] + texts[k] + Rest(texts, k, space);
    PlaceNext(source, texts, space, spans, 1);
    spans := Onward(spans, 1, |texts[k]|);
    assert source[EndOf(spans, k + 1)..] == Rest(texts, k, space);
    spans := PlaceRest(source, texts, space, spans, k);
    assert Tiles(source, texts, space, spans);
  }

  lemma NothingPlaced<T>(source: seq<T>, texts: seq<seq<T>>, space: T)
    ensures PlacedSoFar(source, texts, space, [])
  {}

  /** The texts after text k stand joined behind one more separator. */
  lemma PlaceRest<T>(source: seq<T>, texts: seq<seq<T>>, space: T, spans: seq<Span>, k: nat) returns (more: seq<Span>)
    requires k < |texts| && |spans| == k + 1 && PlacedSoFar(source, texts, space, spans)
    requires EndOf(spans, k + 1) <= |source| && source[EndOf(spans, k + 1)..] == Rest(texts, k, space)
    ensures |more| == |texts| && PlacedSoFar(source, texts, space, more) && EndOf(more, |texts|) == |source|
  {
    hide PlacedSoFar, Rest, Joined;
    more := spans;
    if k + 1 < |texts| {
      RestSplits(texts, k, space);
      PlaceNext(source, texts, space, spans, 1);
      more := Onward(spans, 1, |texts[k + 1]|);
      more := PlaceRun(source, texts, space, more, |texts|);
    } else {
      NoRest(texts, k, space);
    }
  }

  lemma NoRest<T>(texts: seq<seq<T>>, k: nat, space: T)
    requires k + 1 == |texts|
    ensures Rest(texts, k, space) == []
  {}

  lemma RestSplits<T>(texts: seq<seq<T>>, k: nat, space: T)
    requires k + 1 < |texts|
    ensures var front := [space] + texts[k + 1]; var rest := Rest(texts, k, space);
      front <= rest && rest[|front|..] == Joined(texts[k + 2..|texts|])
  {
    var tail := texts[k + 1..];
    assert tail[0] == texts[k + 1] && tail[1..] == texts[k + 2..|texts|];
    var front, back := [space] + texts[k + 1], Joined(tail[1..]);
    assert Joined(tail) == texts[k + 1] + back;
    assert Rest(texts, k, space) == front + back;
  }

  /** Texts standing joined at the beginning are placed joined by every tight tiling. */
  lemma {:induction false} TightRun<T>(source: seq<T>, texts: seq<seq<T>>, space: T, k: nat, other: seq<Span>)
    requires k <= |texts| && TilesTightly(source, texts, space, other) && Joined(texts[..k]) <= source
    ensures EndOf(other, k) == |Joined(texts[..k])|
  {
    if k > 0 {
      var i := k - 1;
      JoinedEnd(texts, i);
      var front, text := Joined(texts[..i]), texts[i];
      assert source[..|front|] == front;
      TightRun(source, texts, space, i, other);
      assert Placed(source, texts, space, other, i) && NoNeedlessGap(source, texts, other, i);
      assert source[|front|..][..|text|] == (front + text)[|front|..];
    }
  }

  lemma {:induction false} FirstNonspace<T>(text: seq<T>, space: T) returns (s: nat)
    requires Nonblank(text, space)
    ensures s < |text| && text[s] != space && forall i | 0 <= i < s :: text[i] == space
  {
    if text[0] != space {
      s := 0;
    } else {
      var k :| 0 <= k < |text| && text[k] != space;
      assert text[1..][k - 1] == text[k];
      s := FirstNonspace(text[1..], space);
      s := s + 1;
      assert forall i | 0 < i < s :: text[i] == text[1..][i - 1];
    }
  }

  /** Behind two separators a nonblank text stands neither at once nor after one of them. */
  lemma TwoSeparators<T>(ahead: seq<T>, text: seq<T>, space: T, at: nat)
    requires Nonblank(text, space) && [space, space] + text <= ahead && at <= 1
    ensures !(text <= ahead[at..])
  {
    var s := FirstNonspace(text, space);
    var front := [space, space] + text;
    assert ahead[at..][s] == ahead[at + s] == front[at + s] == space;
  }

  /** The walk takes a blank text k at once; one separator more than it can pass is left. */
  lemma BlankTakenAtOnce<T>(texts: seq<seq<T>>, k: nat, space: T, other: seq<Span>)
    requires 0 < k < |texts| && !Nonblank(texts[k], space)
    requires TilesTightly(Missed(texts, k, space), texts, space, other)
    ensures EndOf(other, k + 1) < |Missed(texts, k, space)|
    ensures Missed(texts, k, space)[EndOf(other, k + 1)..] == [space] + Rest(texts, k, space)
  {
    hide Joined, Rest;
    var source, front, blank, rest := Missed(texts, k, space), Joined(texts[..k]), texts[k], Rest(texts, k, space);
    TightRun(source, texts, space, k, other);
    assert Placed(source, texts, space, other, k) && NoNeedlessGap(source, texts, other, k);
    assert [space] + blank == blank + [space];
    assert source == front + (blank + ([space] + rest)) == front + blank + ([space] + rest);
    assert source[|front|..] == blank + ([space] + rest);
  }

  /** So the walk cannot go on, or ends too early. */
  lemma MissedIsNotWalkable<T>(texts: seq<seq<T>>, k: nat, space: T, other: seq<Span>)
    requires 0 < k < |texts| && !Nonblank(texts[k], space)
    requires forall i | k < i < |texts| :: Nonblank(texts[i], space)
    ensures !TilesTightly(Missed(texts, k, space), texts, space, other)
  {
    hide Missed;
    var source := Missed(texts, k, space);
    if TilesTightly(source, texts, space, other) {
      BlankTakenAtOnce(texts, k, space, other);
      if k + 1 < |texts| {
        NextIsStuck(source, texts, k + 1, space, other);
      }
      assert false;
    }
  }

  lemma NextIsStuck<T>(source: seq<T>, texts: seq<seq<T>>, n: nat, space: T, other: seq<Span>)
    requires 0 < n < |texts| && Nonblank(texts[n], space) && TilesTightly(source, texts, space, other)
    requires EndOf(other, n) <= |source|
    ensures source[EndOf(other, n)..] != [space] + ([space] + Joined(texts[n..]))
  {
    var from, text := EndOf(other, n), texts[n];
    assert Placed(source, texts, space, other, n);
    var at: nat := other[n].start - from;
    assert source[from..][at..][..|text|] == source[from + at..from + at + |text|];
    if source[from..] == [space] + ([space] + Joined(texts[n..])) {
      assert source[from..] == [space, space] + text + Joined(texts[n..][1..]);
      TwoSeparators(source[from..], text, space, at);
    }
  }

  lemma {:induction false} LastBlank<T>(texts: seq<seq<T>>, space: T, n: nat) returns (k: nat)
    requires n <= |texts| && forall i | n <= i < |texts| :: Nonblank(texts[i], space)
    requires exists i :: 0 < i < n && !Nonblank(texts[i], space)
    ensures 0 < k < |texts| && !Nonblank(texts[k], space)
    ensures forall i | k < i < |texts| :: Nonblank(texts[i], space)
    decreases n
  {
    if Nonblank(texts[n - 1], space) {
      k := LastBlank(texts, space, n - 1);
    } else {
      k := n - 1;
    }
  }

  /** Of nonempty texts the walk finds a tiling of every source that has one exactly
      when every text after the first holds something else than separators. */
  lemma NeverMissesExactlyWhenNonblank<T(!new)>(texts: seq<seq<T>>, space: T)
    requires forall i | 0 <= i < |texts| :: texts[i] != []
    ensures LaterNonblank(texts, space)
      <==> forall source :: Tileable(source, texts, space) ==> Walkable(source, texts, space)
  {
    if LaterNonblank(texts, space) {
      forall source | Tileable(source, texts, space) ensures Walkable(source, texts, space) {
        var spans :| Tiles(source, texts, space, spans);
        NonblankIsTight(source, texts, space, spans);
      }
    } else {
      var k := LastBlank(texts, space, |texts|);
      MissedIsTileable(texts, k, space);
      forall other ensures !TilesTightly(Missed(texts, k, space), texts, space, other) {
        MissedIsNotWalkable(texts, k, space, other);
      }
      assert !Walkable(Missed(texts, k, space), texts, space);
    }
  }
}
