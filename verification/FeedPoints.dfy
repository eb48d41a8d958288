/** Where a report cut into chunks is fed to its summaries, and when the cut shows. */
module FeedPoints {
  import opened Basics
  import opened Compactor
  import opened CompactReport

  function Concat(chunks: seq<Bytes>): Bytes {
    if chunks == [] then [] else chunks[0] + Concat(chunks[1..])
  }

  // ---------- marks ----------

  /** So many bytes are outstanding before some read of these chunks, or after the last. */
  ghost predicate Mark(chunks: seq<Bytes>, u: nat) {
    u == |Concat(chunks)| || (chunks != [] && Mark(chunks[1..], u))
  }

  lemma {:induction false} MarkAtMost(chunks: seq<Bytes>, u: nat)
    requires Mark(chunks, u)
    ensures u <= |Concat(chunks)|
  {
    if u != |Concat(chunks)| {
      MarkAtMost(chunks[1..], u);
    }
  }

  /** The chunks left have the stream's marks. */
  ghost predicate InStep(stream: seq<Bytes>, chunks: seq<Bytes>) {
    forall u: nat | u <= |Concat(chunks)| :: Mark(stream, u) <==> Mark(chunks, u)
  }

  lemma StillInStep(stream: seq<Bytes>, chunks: seq<Bytes>)
    requires InStep(stream, chunks) && chunks != [] && chunks[0] != []
    ensures InStep(stream, chunks[1..])
  {}

  /** Between two reads lies no mark. */
  lemma NextMark(stream: seq<Bytes>, chunks: seq<Bytes>, u: nat)
    requires InStep(stream, chunks) && chunks != []
    requires Mark(stream, u) && |Concat(chunks[1..])| < u <= |Concat(chunks)|
    ensures u == |Concat(chunks)|
  {
    assert Mark(chunks, u);
    if u != |Concat(chunks)| {
      MarkAtMost(chunks[1..], u);
    }
  }

  // ---------- feed points ----------

  /** The array's bracket and its next c bytes end in an unfinished line over the bound. */
  ghost predicate TooLong(cfg: Config, rest: Bytes, c: nat)
    requires c <= |rest|
  {
    |PendingOf("[" + rest[..c])| > cfg.bounds.sampleBytes
  }

  /** Of an array of e bytes this much can be fed at some read: nothing yet, everything, or
      all but a terminator's length of what was read before its end was. */
  predicate Feedable(indent: nat, e: nat, c: nat) {
    c == 0 || c == e || c + |Terminator(indent)| < e
  }

  /** This much is fed when the text is read in these chunks. */
  ghost predicate FedAt(indent: nat, rest: Bytes, e: nat, chunks: seq<Bytes>, c: nat)
    requires e <= |rest|
  {
    c == 0 || c == e || (c + |Terminator(indent)| < e && Mark(chunks, |rest| - |Terminator(indent)| - c))
  }

  /** Reading the array in these chunks meets an unfinished line over the bound. */
  ghost predicate Shows(cfg: Config, indent: nat, rest: Bytes, e: nat, chunks: seq<Bytes>)
    requires e <= |rest|
  {
    exists c: nat :: c <= e && FedAt(indent, rest, e, chunks, c) && TooLong(cfg, rest, c)
  }

  /** Some cut of the text makes reading the array meet an unfinished line over the bound. */
  ghost predicate Can(cfg: Config, indent: nat, rest: Bytes, e: nat)
    requires e <= |rest|
  {
    exists c: nat :: c <= e && Feedable(indent, e, c) && TooLong(cfg, rest, c)
  }

  /** Reading some array of the text in these chunks does. */
  ghost predicate Exposed(cfg: Config, text: Bytes, chunks: seq<Bytes>)
    decreases |text|
  {
    match SplitAtHead(text)
    case None => false
    case Some(s) =>
      RestShorter(text);
      match ArrayLength(s.rest, s.indent)
      case None => false
      case Some(e) =>
        ArrayFits(s.rest, s.indent);
        Shows(cfg, s.indent, s.rest, e, chunks) || Exposed(cfg, s.rest[e..], chunks)
  }

  /** Some cut makes reading some array of the text do so. */
  ghost predicate CanExpose(cfg: Config, text: Bytes)
    decreases |text|
  {
    match SplitAtHead(text)
    case None => false
    case Some(s) =>
      RestShorter(text);
      match ArrayLength(s.rest, s.indent)
      case None => false
      case Some(e) =>
        ArrayFits(s.rest, s.indent);
        Can(cfg, s.indent, s.rest, e) || CanExpose(cfg, s.rest[e..])
  }

  /** What a report read in these chunks becomes. */
  ghost function RunResult(cfg: Config, chunks: seq<Bytes>): Option<Output> {
    if Exposed(cfg, Concat(chunks), chunks) then None else Compact(cfg, Concat(chunks))
  }

  // ---------- when the cut matters ----------

  lemma {:induction false} OnlyWhereItCan(cfg: Config, text: Bytes, chunks: seq<Bytes>)
    requires Exposed(cfg, text, chunks)
    ensures CanExpose(cfg, text)
    decreases |text|
  {
    RestShorter(text);
    var s := SplitAtHead(text).value;
    ArrayFits(s.rest, s.indent);
    var e := ArrayLength(s.rest, s.indent).value;
    if Shows(cfg, s.indent, s.rest, e, chunks) {
      var c: nat :| c <= e && FedAt(s.indent, s.rest, e, chunks, c) && TooLong(cfg, s.rest, c);
      assert Feedable(s.indent, e, c);
    } else {
      OnlyWhereItCan(cfg, s.rest[e..], chunks);
    }
  }

  /** A mark at which the text is exposed, whatever else the chunks are. */
  lemma {:induction false} ExposingMark(cfg: Config, text: Bytes) returns (u: nat)
    requires CanExpose(cfg, text)
    ensures u < |text|
    ensures forall chunks | Mark(chunks, u) && Mark(chunks, 0) :: Exposed(cfg, text, chunks)
    decreases |text|
  {
    RestShorter(text);
    var s := SplitAtHead(text).value;
    ArrayFits(s.rest, s.indent);
    var e := ArrayLength(s.rest, s.indent).value;
    if Can(cfg, s.indent, s.rest, e) {
      var c: nat :| c <= e && Feedable(s.indent, e, c) && TooLong(cfg, s.rest, c);
      u := if c == 0 || c == e then 0 else |s.rest| - |Terminator(s.indent)| - c;
      forall chunks | Mark(chunks, u) && Mark(chunks, 0) ensures Exposed(cfg, text, chunks) {
        assert FedAt(s.indent, s.rest, e, chunks, c);
      }
    } else {
      u := ExposingMark(cfg, s.rest[e..]);
    }
  }

  ghost predicate IsCut(chunks: seq<Bytes>, text: Bytes) {
    Concat(chunks) == text && forall k | 0 <= k < |chunks| :: chunks[k] != []
  }

  /** At most two chunks, with a given mark between them. */
  lemma CutAt(text: Bytes, u: nat) returns (chunks: seq<Bytes>)
    requires u < |text|
    ensures IsCut(chunks, text) && |chunks| <= 2 && Mark(chunks, u) && Mark(chunks, 0)
  {
    var a, b := text[..|text| - u], text[|text| - u..];
    assert a + b == text && a + [] == a && b + [] == b;
    chunks := if u == 0 then [a] else [a, b];
    assert Concat([]) == [] && Mark([], 0);
    var last := [chunks[|chunks| - 1]];
    assert last[1..] == [] && Concat(last) == last[0] && Mark(last, 0);
    if u > 0 {
      assert chunks[1..] == last && Concat(chunks) == a + b && Mark(last, u);
    }
  }

  /** However a report is cut the result is the same exactly when there is none anyway,
      or no array can be fed up to an unfinished line over the bound. */
  lemma CutNeverMatters(cfg: Config, text: Bytes)
    ensures (forall chunks | IsCut(chunks, text) :: RunResult(cfg, chunks) == Compact(cfg, text))
      <==> Compact(cfg, text).None? || !CanExpose(cfg, text)
  {
    forall chunks | IsCut(chunks, text) && !CanExpose(cfg, text) ensures !Exposed(cfg, text, chunks) {
      if Exposed(cfg, text, chunks) {
        OnlyWhereItCan(cfg, text, chunks);
      }
    }
    if CanExpose(cfg, text) && Compact(cfg, text).Some? {
      var u := ExposingMark(cfg, text);
      var chunks := CutAt(text, u);
      assert IsCut(chunks, text) && RunResult(cfg, chunks).None?;
    }
  }

  // ---------- the condition on lines ----------

  lemma {:induction false} NewlineFreeEnd(text: Bytes, i: nat)
    requires i <= |text| && forall k | i <= k < |text| :: text[k] != NEWLINE
    ensures |PendingOf(text)| >= |text| - i
  {
    CompleteSplit(text);
  }

  /** Beside its first and last feed, an array can be fed up to an unfinished line over the
      bound exactly when such a line, or part of a line, lies before its last bytes. */
  lemma CanByLines(cfg: Config, indent: nat, rest: Bytes, e: nat)
    requires e <= |rest|
    ensures Can(cfg, indent, rest, e) <==>
      || TooLong(cfg, rest, 0) || TooLong(cfg, rest, e)
      || (|Terminator(indent)| < e
          && HasLongLine("[" + rest[..e - |Terminator(indent)| - 1], cfg.bounds.sampleBytes))
  {
    var keep, bound := |Terminator(indent)|, cfg.bounds.sampleBytes;
    if c: nat :| c <= e && Feedable(indent, e, c) && TooLong(cfg, rest, c) && 0 < c < e {
      LongWithin(cfg, rest, c, e - keep - 1);
    }
    if keep < e && HasLongLine("[" + rest[..e - keep - 1], bound) {
      var c := LongUpTo(cfg, rest, e - keep - 1);
      assert Feedable(indent, e, c);
    }
    assert Feedable(indent, e, 0) && Feedable(indent, e, e);
  }

  lemma LongWithin(cfg: Config, rest: Bytes, c: nat, m: nat)
    requires c <= m <= |rest| && TooLong(cfg, rest, c)
    ensures HasLongLine("[" + rest[..m], cfg.bounds.sampleBytes)
  {
    LongPending("[" + rest[..c], cfg.bounds.sampleBytes);
    var i: nat :| LongStretchAt("[" + rest[..c], i, cfg.bounds.sampleBytes);
    var text, longer := "[" + rest[..c], "[" + rest[..m];
    assert text == longer[..c + 1];
    assert forall k | i <= k <= i + cfg.bounds.sampleBytes :: longer[k] == text[k];
    assert LongStretchAt(longer, i, cfg.bounds.sampleBytes);
  }

  lemma LongUpTo(cfg: Config, rest: Bytes, m: nat) returns (c: nat)
    requires m <= |rest| && HasLongLine("[" + rest[..m], cfg.bounds.sampleBytes)
    ensures c <= m && TooLong(cfg, rest, c)
  {
    var bound := cfg.bounds.sampleBytes;
    var i: nat :| LongStretchAt("[" + rest[..m], i, bound);
    c := i + bound;
    assert "[" + rest[..c] == ("[" + rest[..m])[..c + 1];
    NewlineFreeEnd("[" + rest[..c], i);
  }

  /** A closed array ends in a short line; with a bound over the largest
      indentation only its inner lines matter. */
  lemma EndsAreShort(cfg: Config, indent: nat, rest: Bytes)
    requires ArrayLength(rest, indent).Some? && indent <= 256 < cfg.bounds.sampleBytes
    ensures var e := ArrayLength(rest, indent).value;
      e <= |rest| && !TooLong(cfg, rest, 0) && !TooLong(cfg, rest, e)
  {
    ArrayFits(rest, indent);
    var e := ArrayLength(rest, indent).value;
    PendingShort("[" + rest[..0]);
    if e == 1 {
      PendingShort("[" + rest[..e]);
    } else {
      FindFromSound(rest, Terminator(indent), 0);
      var p := e - |Terminator(indent)|;
      var whole, tail := "[" + rest[..p] + "\n", Blanks(indent) + "]";
      assert rest[p..e] == "\n" + tail;
      assert rest[..e] == rest[..p] + rest[p..e];
      assert "[" + rest[..e] == whole + tail;
      CompleteUnique(whole, tail);
    }
  }

  lemma PendingShort(text: Bytes)
    ensures |PendingOf(text)| <= |text|
  {
    CompleteSplit(text);
  }

  /** Some array the walk reaches holds a line over the bound before its last bytes, which
      are as many as its terminator's and one more. */
  ghost predicate HoldsLongLine(cfg: Config, text: Bytes)
    decreases |text|
  {
    match SplitAtHead(text)
    case None => false
    case Some(s) =>
      RestShorter(text);
      match ArrayLength(s.rest, s.indent)
      case None => false
      case Some(e) =>
        ArrayFits(s.rest, s.indent);
        var keep := |Terminator(s.indent)|;
        || (keep < e && HasLongLine("[" + s.rest[..e - keep - 1], cfg.bounds.sampleBytes))
        || HoldsLongLine(cfg, s.rest[e..])
  }

  lemma {:induction false} ExposedByLines(cfg: Config, text: Bytes)
    requires OutputOf(cfg, text).Some? && cfg.bounds.sampleBytes > 256
    ensures CanExpose(cfg, text) <==> HoldsLongLine(cfg, text)
    decreases |text|
  {
    hide Encoded, TooLong, ArrayLength, Can, HasLongLine;
    if SplitAtHead(text).Some? {
      RestShorter(text);
      var s := SplitAtHead(text).value;
      ArrayFits(s.rest, s.indent);
      EndsAreShort(cfg, s.indent, s.rest);
      CanByLines(cfg, s.indent, s.rest, ArrayLength(s.rest, s.indent).value);
      ExposedByLines(cfg, s.rest[ArrayLength(s.rest, s.indent).value..]);
    }
  }

  /** With a bound over the largest indentation, a report that compacts does so however it
      is cut exactly when no array it reaches holds such a line. */
  lemma CutNeverMattersByLines(cfg: Config, text: Bytes)
    requires cfg.bounds.sampleBytes > 256
    ensures (forall chunks | IsCut(chunks, text) :: RunResult(cfg, chunks) == Compact(cfg, text))
      <==> Compact(cfg, text).None? || !HoldsLongLine(cfg, text)
  {
    CutNeverMatters(cfg, text);
    if Compact(cfg, text).Some? {
      ExposedByLines(cfg, text);
    }
  }

  /** Read at once, a report is fed array by array: no line is ever left unfinished. */
  lemma {:induction false} OneReadShowsNothing(cfg: Config, text: Bytes, whole: Bytes)
    requires OutputOf(cfg, text).Some? && |text| <= |whole| && cfg.bounds.sampleBytes > 256
    ensures !Exposed(cfg, text, [whole])
    decreases |text|
  {
    hide Encoded, TooLong, ArrayLength;
    if SplitAtHead(text).Some? {
      RestShorter(text);
      var s := SplitAtHead(text).value;
      ArrayFits(s.rest, s.indent);
      EndsAreShort(cfg, s.indent, s.rest);
      var e := ArrayLength(s.rest, s.indent).value;
      OneReadFeeds(s.indent, s.rest, e, whole);
      OneReadShowsNothing(cfg, s.rest[e..], whole);
    }
  }

  lemma OneReadFeeds(indent: nat, rest: Bytes, e: nat, whole: Bytes)
    requires e <= |rest| < |whole|
    ensures forall c: nat | c <= e && FedAt(indent, rest, e, [whole], c) :: c == 0 || c == e
  {
    assert [whole][1..] == [] && Concat([]) == [] && Concat([whole]) == whole;
    forall c: nat | c <= e && FedAt(indent, rest, e, [whole], c) ensures c == 0 || c == e {
      assert forall u: nat :: Mark([whole], u) ==> u == |whole| || Mark([], u);
    }
  }
}
