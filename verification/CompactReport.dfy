/** Compacting a whole report at once: the reference form over the entire text. */
module CompactReport {
  import opened Basics
  import opened Compactor

  // ---------- the reference form ----------

  /** A text cut at its leftmost sources head. */
  datatype Split = Split(before: Bytes, indent: nat, rest: Bytes)

  function SplitAtHead(text: Bytes): Option<Split> {
    match FirstHead(text)
    case None => None
    case Some((p, n)) =>
      HeadFits(text);
      Some(Split(text[..p], n, text[p + n + |KEY|..]))
  }

  lemma HeadFits(text: Bytes)
    requires FirstHead(text).Some?
    ensures var (p, n) := FirstHead(text).value;
      p + n + |KEY| <= |text| && text == text[..p] + Blanks(n) + KEY + text[p + n + |KEY|..]
  {
    HeadFromSound(text, 0);
    var (p, n) := FirstHead(text).value;
    var head := Blanks(n) + KEY;
    assert text[p..p + |head|] == head;
    ThreeParts(text, p, p + |head|);
    assert text[..p] + head == text[..p] + Blanks(n) + KEY;
  }

  lemma ThreeParts(text: Bytes, a: nat, b: nat)
    requires a <= b <= |text|
    ensures text == text[..a] + text[a..b] + text[b..]
  {}

  /** How much of the text after a head belongs to the array, its closing bracket included. */
  function ArrayLength(rest: Bytes, indent: nat): Option<nat> {
    if rest == [] then None
    else if rest[0] == ']' then Some(1)
    else if rest[0] != NEWLINE then None
    else match Find(rest, Terminator(indent))
      case None => None
      case Some(p) => Some(p + |Terminator(indent)|)
  }

  lemma ArrayFits(rest: Bytes, indent: nat)
    requires ArrayLength(rest, indent).Some?
    ensures 0 < ArrayLength(rest, indent).value <= |rest|
  {
    FindFromSound(rest, Terminator(indent), 0);
  }

  /** The array's bytes: the bracket of the head and everything up to the closing one. */
  function RawArray(rest: Bytes, length: nat): Bytes
    requires length <= |rest|
  {
    "[" + rest[..length]
  }

  datatype Output = Output(retained: Bytes, raws: seq<Bytes>)

  function Replacement(indent: nat, encoded: Bytes): Bytes {
    Blanks(indent) + SUMMARY_KEY + encoded
  }

  function Encoded(cfg: Config, indent: nat, raw: Bytes): Option<Bytes> {
    Finish(cfg, SummaryOf(indent, raw, cfg.bounds.sampleBytes))
  }

  /** What comes before a result joins it in front. */
  function Then(retained: Bytes, raws: seq<Bytes>, o: Option<Output>): Option<Output> {
    match o
    case None => None
    case Some(out) => Some(Output(retained + out.retained, raws + out.raws))
  }

  /** One array: its replacement text, its bytes, and the text after it. */
  datatype ArrayStep = ArrayStep(replacement: Bytes, raw: Bytes, remaining: Bytes)

  function StepAt(cfg: Config, indent: nat, rest: Bytes): Option<ArrayStep> {
    if indent > 256 || indent % 2 != 0 then None
    else match ArrayLength(rest, indent)
      case None => None
      case Some(e) =>
        ArrayFits(rest, indent);
        match Encoded(cfg, indent, RawArray(rest, e))
        case None => None
        case Some(encoded) => Some(ArrayStep(Replacement(indent, encoded), RawArray(rest, e), rest[e..]))
  }

  lemma RestShorter(text: Bytes)
    requires SplitAtHead(text).Some?
    ensures |SplitAtHead(text).value.rest| < |text|
  {
    HeadFits(text);
  }

  lemma RemainingShorter(cfg: Config, indent: nat, rest: Bytes)
    requires StepAt(cfg, indent, rest).Some?
    ensures |StepAt(cfg, indent, rest).value.remaining| < |rest|
  {
    ArrayFits(rest, indent);
  }

  /** The whole report at once: everything retained up to each head, the array
      behind it replaced by its summary, and so on to the end. */
  function OutputOf(cfg: Config, text: Bytes): Option<Output>
    decreases |text|
  {
    match SplitAtHead(text)
    case None => Some(Output(text, []))
    case Some(s) =>
      RestShorter(text);
      match StepAt(cfg, s.indent, s.rest)
      case None => None
      case Some(step) =>
        RemainingShorter(cfg, s.indent, s.rest);
        Then(s.before + step.replacement, [step.raw], OutputOf(cfg, step.remaining))
  }

  function Bounded(cfg: Config, o: Option<Output>): Option<Output> {
    if o.Some? && |o.value.retained| > cfg.bounds.maxRetained then None else o
  }

  function Compact(cfg: Config, text: Bytes): Option<Output> {
    Bounded(cfg, OutputOf(cfg, text))
  }

  // ---------- byte accounting ----------

  /** Where an input byte goes: retained as it is, or into a key head and its array. */
  datatype Piece = Kept(text: Bytes) | Summarized(indent: nat, raw: Bytes, encoded: Bytes)

  function InputOf(pieces: seq<Piece>): Bytes {
    if pieces == [] then []
    else (match pieces[0]
          case Kept(text) => text
          case Summarized(indent, raw, _) => Blanks(indent) + "\"sources\": " + raw)
         + InputOf(pieces[1..])
  }

  function RetainedOf(pieces: seq<Piece>): Bytes {
    if pieces == [] then []
    else (match pieces[0]
          case Kept(text) => text
          case Summarized(indent, _, encoded) => Blanks(indent) + "\"source_summary\": " + encoded)
         + RetainedOf(pieces[1..])
  }

  function RawsOf(pieces: seq<Piece>): seq<Bytes> {
    if pieces == [] then []
    else (if pieces[0].Summarized? then [pieces[0].raw] else []) + RawsOf(pieces[1..])
  }

  /** The pieces of a compacted report cover its input in order, each byte once,
      and the output is exactly the kept text with each array replaced. */
  lemma {:induction false} PiecesOf(cfg: Config, text: Bytes) returns (pieces: seq<Piece>)
    requires OutputOf(cfg, text).Some?
    ensures InputOf(pieces) == text
    ensures OutputOf(cfg, text) == Some(Output(RetainedOf(pieces), RawsOf(pieces)))
    decreases |text|
  {
    match SplitAtHead(text)
    case None =>
      pieces := [Kept(text)];
      OnePiece(pieces, text);
    case Some(s) =>
      HeadFits(text);
      ArrayFits(s.rest, s.indent);
      RestShorter(text);
      var e := ArrayLength(s.rest, s.indent).value;
      var raw := RawArray(s.rest, e);
      var encoded := Encoded(cfg, s.indent, raw).value;
      var more := PiecesOf(cfg, s.rest[e..]);
      pieces := [Kept(s.before), Summarized(s.indent, raw, encoded)] + more;
      AccountStep(pieces, more, s.before, s.indent, raw, encoded);
      InputStep(text, s, e);
      assert s.before + Replacement(s.indent, encoded) + RetainedOf(more) == RetainedOf(pieces);
  }

  lemma OnePiece(pieces: seq<Piece>, text: Bytes)
    requires pieces == [Kept(text)]
    ensures InputOf(pieces) == RetainedOf(pieces) == text && RawsOf(pieces) == []
  {
    assert pieces[1..] == [];
    assert text + [] == text;
  }

  lemma InputStep(text: Bytes, s: Split, e: nat)
    requires text == s.before + Blanks(s.indent) + KEY + s.rest && e <= |s.rest|
    ensures text == s.before + (Blanks(s.indent) + KEY[..|KEY| - 1] + RawArray(s.rest, e)) + s.rest[e..]
  {
    var key := KEY[..|KEY| - 1];
    assert KEY == key + "[";
    assert s.rest == s.rest[..e] + s.rest[e..];
    assert Blanks(s.indent) + KEY == Blanks(s.indent) + key + "[";
  }

  lemma AccountStep(pieces: seq<Piece>, more: seq<Piece>, before: Bytes, indent: nat, raw: Bytes, encoded: Bytes)
    requires pieces == [Kept(before), Summarized(indent, raw, encoded)] + more
    ensures InputOf(pieces) == before + (Blanks(indent) + KEY[..|KEY| - 1] + raw) + InputOf(more)
    ensures RetainedOf(pieces) == before + Replacement(indent, encoded) + RetainedOf(more)
    ensures RawsOf(pieces) == [raw] + RawsOf(more)
  {
    var rest := pieces[1..];
    assert rest == [Summarized(indent, raw, encoded)] + more && rest[1..] == more;
    assert pieces[0] == Kept(before) && rest[0] == Summarized(indent, raw, encoded);
  }

  // ---------- one step of the walk at a time ----------

  lemma ThenThen(a: Bytes, x: seq<Bytes>, b: Bytes, y: seq<Bytes>, o: Option<Output>)
    ensures Then(a, x, Then(b, y, o)) == Then(a + b, x + y, o)
    ensures Then([], [], o) == o
  {
    if o.Some? {
      assert a + (b + o.value.retained) == a + b + o.value.retained;
      assert x + (y + o.value.raws) == x + y + o.value.raws;
      assert [] + o.value.retained == o.value.retained && [] + o.value.raws == o.value.raws;
    }
  }

  lemma ThenText(a: Bytes, b: Bytes)
    ensures Then(a, [], Some(Output(b, []))) == Some(Output(a + b, []))
  {
    var none: seq<Bytes> := [];
    assert none + none == none;
  }

  lemma OverBound(cfg: Config, a: Bytes, x: seq<Bytes>, o: Option<Output>)
    requires |a| > cfg.bounds.maxRetained || Bounded(cfg, o).None?
    ensures Bounded(cfg, Then(a, x, o)).None?
  {}

  /** A head found in the buffer cuts the whole remaining text in the same place. */
  lemma SplitKept(buffer: Bytes, more: Bytes)
    requires SplitAtHead(buffer).Some?
    ensures var s := SplitAtHead(buffer).value;
      SplitAtHead(buffer + more) == Some(Split(s.before, s.indent, s.rest + more))
  {
    HeadKept(buffer, more);
    HeadFits(buffer);
    var (p, n) := FirstHead(buffer).value;
    assert (buffer + more)[..p] == buffer[..p];
    assert (buffer + more)[p + n + |KEY|..] == buffer[p + n + |KEY|..] + more;
  }

  /** Whole lines without a head are retained ahead of the rest. */
  lemma LinesKept(cfg: Config, lines: Bytes, tail: Bytes, more: Bytes)
    requires WholeLines(lines) && SplitAtHead(lines + tail).None?
    ensures OutputOf(cfg, lines + (tail + more)) == Then(lines, [], OutputOf(cfg, tail + more))
  {
    var rest := tail + more;
    HeadSkips(lines, tail, more);
    match SplitAtHead(rest)
    case None =>
      assert SplitAtHead(lines + rest).None?;
      ThenText(lines, rest);
    case Some(s) =>
      SplitShifted(lines, rest);
      LinesKeptAtHead(cfg, lines, rest, s);
  }

  lemma SplitShifted(lines: Bytes, rest: Bytes)
    requires FirstHead(rest).Some?
    requires FirstHead(lines + rest) == Some((|lines| + FirstHead(rest).value.0, FirstHead(rest).value.1))
    ensures var s := SplitAtHead(rest).value;
      SplitAtHead(lines + rest) == Some(Split(lines + s.before, s.indent, s.rest))
  {
    HeadFits(rest);
    var (p, n) := FirstHead(rest).value;
    HeadFits(lines + rest);
    assert (lines + rest)[..|lines| + p] == lines + rest[..p];
    assert (lines + rest)[|lines| + p + n + |KEY|..] == rest[p + n + |KEY|..];
  }

  lemma LinesKeptAtHead(cfg: Config, lines: Bytes, rest: Bytes, s: Split)
    requires SplitAtHead(rest) == Some(s)
      && SplitAtHead(lines + rest) == Some(Split(lines + s.before, s.indent, s.rest))
    ensures OutputOf(cfg, lines + rest) == Then(lines, [], OutputOf(cfg, rest))
  {
    hide StepAt, SplitAtHead;
    match StepAt(cfg, s.indent, s.rest)
    case None =>
    case Some(step) =>
      assert lines + s.before + step.replacement == lines + (s.before + step.replacement);
      ThenThen(lines, [], s.before + step.replacement, [step.raw], OutputOf(cfg, step.remaining));
      assert [] + [step.raw] == [step.raw];
  }

  /** An unfinished line beyond the retention bound dooms the report either way:
      it is retained whole, or it is a head indented too far. */
  lemma LongLineDooms(cfg: Config, tail: Bytes, more: Bytes)
    requires NEWLINE !in tail && SplitAtHead(tail).None?
    requires |tail| > cfg.bounds.maxRetained >= 256 + |KEY|
    ensures Bounded(cfg, OutputOf(cfg, tail + more)).None?
  {
    if SplitAtHead(tail + more).Some? {
      HeadFits(tail + more);
      HeadFromSound(tail + more, 0);
      var (p, n) := FirstHead(tail + more).value;
      HeadBehindLongLine(tail, more, p, n);
    }
  }

  lemma HeadBehindLongLine(tail: Bytes, more: Bytes, p: nat, n: nat)
    requires NEWLINE !in tail && FirstHead(tail).None? && HeadWith(tail + more, p, n)
    ensures p > |tail| || (p == 0 && n + |KEY| > |tail|)
  {
    if p == 0 && n + |KEY| <= |tail| {
      OccursPrefix(tail, more, Blanks(n) + KEY, 0);
      assert HeadWith(tail, 0, n) && IsHead(tail, 0);
      HeadFromSound(tail, 0);
    }
    assert forall k | 0 <= k < |tail| :: tail[k] in tail;
  }
}
