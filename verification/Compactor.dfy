/** The report compactor's text primitives: first occurrences, lines, the tally and the
    summary of a sources array, and the head that announces one. */
module Compactor {
  import opened Basics

  type Bytes = string

  const NEWLINE: char := '\n'

  // ---------- first occurrence ----------

  predicate OccursAt(text: Bytes, pattern: Bytes, p: nat) {
    p + |pattern| <= |text| && text[p..p + |pattern|] == pattern
  }

  function FindFrom(text: Bytes, pattern: Bytes, from: nat): Option<nat>
    decreases |text| - from
  {
    if from > |text| then None
    else if OccursAt(text, pattern, from) then Some(from)
    else if from == |text| then None
    else FindFrom(text, pattern, from + 1)
  }

  /** The leftmost occurrence of a pattern. */
  function Find(text: Bytes, pattern: Bytes): Option<nat> {
    FindFrom(text, pattern, 0)
  }

  lemma {:induction false} FindFromIs(text: Bytes, pattern: Bytes, from: nat, p: nat)
    requires from <= p && OccursAt(text, pattern, p)
    requires forall q: nat | from <= q < p :: !OccursAt(text, pattern, q)
    ensures FindFrom(text, pattern, from) == Some(p)
    decreases p - from
  {
    if from < p {
      FindFromIs(text, pattern, from + 1, p);
    }
  }

  lemma {:induction false} FindFromSound(text: Bytes, pattern: Bytes, from: nat)
    ensures match FindFrom(text, pattern, from)
      case Some(p) =>
        from <= p && OccursAt(text, pattern, p) && forall q: nat | from <= q < p :: !OccursAt(text, pattern, q)
      case None => forall q: nat | from <= q :: !OccursAt(text, pattern, q)
    decreases |text| - from
  {
    if from <= |text| && !OccursAt(text, pattern, from) && from < |text| {
      FindFromSound(text, pattern, from + 1);
    }
  }

  /** Appending text keeps an occurrence that is already whole as the leftmost one. */
  lemma FindKept(text: Bytes, more: Bytes, pattern: Bytes)
    requires Find(text, pattern).Some?
    ensures Find(text + more, pattern) == Find(text, pattern)
  {
    FindFromSound(text, pattern, 0);
    var p := Find(text, pattern).value;
    OccursPrefix(text, more, pattern, p);
    forall q: nat | q < p ensures !OccursAt(text + more, pattern, q) {
      OccursPrefix(text, more, pattern, q);
    }
    FindFromIs(text + more, pattern, 0, p);
  }

  lemma OccursPrefix(text: Bytes, more: Bytes, pattern: Bytes, p: nat)
    requires p + |pattern| <= |text|
    ensures OccursAt(text + more, pattern, p) <==> OccursAt(text, pattern, p)
  {
    assert (text + more)[p..p + |pattern|] == text[p..p + |pattern|];
  }

  lemma OccursSuffix(skipped: Bytes, rest: Bytes, pattern: Bytes, p: nat)
    ensures OccursAt(skipped + rest, pattern, |skipped| + p) <==> OccursAt(rest, pattern, p)
  {
    if p + |pattern| <= |rest| {
      assert (skipped + rest)[|skipped| + p..|skipped| + p + |pattern|] == rest[p..p + |pattern|];
    }
  }

  /** Skipping text in which no occurrence starts shifts the leftmost occurrence. */
  lemma FindSkips(skipped: Bytes, rest: Bytes, pattern: Bytes)
    requires forall q: nat | q < |skipped| :: !OccursAt(skipped + rest, pattern, q)
    ensures Find(skipped + rest, pattern)
         == match Find(rest, pattern) case Some(p) => Some(|skipped| + p) case None => None
  {
    FindFromSound(rest, pattern, 0);
    match Find(rest, pattern)
    case Some(p) => SkippedTo(skipped, rest, pattern, p);
    case None => SkippedPast(skipped, rest, pattern);
  }

  lemma SkippedTo(skipped: Bytes, rest: Bytes, pattern: Bytes, p: nat)
    requires forall q: nat | q < |skipped| :: !OccursAt(skipped + rest, pattern, q)
    requires OccursAt(rest, pattern, p) && forall q: nat | q < p :: !OccursAt(rest, pattern, q)
    ensures Find(skipped + rest, pattern) == Some(|skipped| + p)
  {
    OccursSuffix(skipped, rest, pattern, p);
    forall q: nat | q < |skipped| + p ensures !OccursAt(skipped + rest, pattern, q) {
      if q >= |skipped| {
        OccursSuffix(skipped, rest, pattern, q - |skipped|);
      }
    }
    FindFromIs(skipped + rest, pattern, 0, |skipped| + p);
  }

  lemma SkippedPast(skipped: Bytes, rest: Bytes, pattern: Bytes)
    requires forall q: nat | q < |skipped| :: !OccursAt(skipped + rest, pattern, q)
    requires forall q: nat :: !OccursAt(rest, pattern, q)
    ensures Find(skipped + rest, pattern).None?
  {
    FindFromSound(skipped + rest, pattern, 0);
    if Find(skipped + rest, pattern).Some? {
      var q := Find(skipped + rest, pattern).value;
      OccursSuffix(skipped, rest, pattern, q - |skipped|);
    }
  }

  // ---------- lines ----------

  /** The length of the text up to and including its last newline. */
  function CompleteLength(text: Bytes): nat {
    if text == [] then 0
    else if text[|text| - 1] == NEWLINE then |text|
    else CompleteLength(text[..|text| - 1])
  }

  lemma {:induction false} CompleteSplit(text: Bytes)
    ensures var e := CompleteLength(text);
      e <= |text| && (e > 0 ==> text[e - 1] == NEWLINE) && NEWLINE !in text[e..]
  {
    if text != [] && text[|text| - 1] != NEWLINE {
      CompleteSplit(text[..|text| - 1]);
      var e := CompleteLength(text);
      assert text[e..] == text[..|text| - 1][e..] + [text[|text| - 1]];
    }
  }

  ghost predicate WholeLines(text: Bytes) {
    text == [] || text[|text| - 1] == NEWLINE
  }

  /** A newline-free stretch longer than the bound starts here. */
  ghost predicate LongStretchAt(text: Bytes, i: nat, bound: nat) {
    i + bound < |text| && forall k | i <= k <= i + bound :: text[k] != NEWLINE
  }

  ghost predicate HasLongLine(text: Bytes, bound: nat) {
    exists i: nat :: LongStretchAt(text, i, bound)
  }

  // ---------- the per-line tally ----------

  // The line patterns of an array whose key is indented by `indent` blanks:
  // items open and close two blanks deeper, their fields sit four deeper.

  function Blanks(n: nat): Bytes { seq(n, _ => ' ') }

  predicate EndsField(rest: Bytes) { rest == "" || rest == "," }

  /** The text after a prefix, when the line has that prefix. */
  function After(line: Bytes, prefix: Bytes): Option<Bytes> {
    if prefix <= line then Some(line[|prefix|..]) else None
  }

  /** A nonempty quoted kind closes the line, up to one comma. */
  function KindOf(indent: nat, line: Bytes): Option<Bytes> {
    match After(line, Blanks(indent + 4) + "\"kind\": \"")
    case None => None
    case Some(rest) =>
      match Find(rest, "\"")
      case None => None
      case Some(q) => if 0 < q < |rest| && EndsField(rest[q + 1..]) then Some(rest[..q]) else None
  }

  predicate IsDigit(c: char) { '0' <= c <= '9' }

  /** The number of leading digits, and the number they write. */
  function Digits(text: Bytes): nat {
    if text == [] || !IsDigit(text[0]) then 0 else 1 + Digits(text[1..])
  }

  function NumberOf(text: Bytes): nat {
    if text == [] || !IsDigit(text[|text| - 1]) then 0
    else 10 * NumberOf(text[..|text| - 1]) + (text[|text| - 1] - '0') as nat
  }

  function PageOf(indent: nat, line: Bytes): Option<nat> {
    match After(line, Blanks(indent + 4) + "\"page\": ")
    case None => None
    case Some(rest) =>
      var d := Digits(rest);
      if 0 < d <= |rest| && EndsField(rest[d..]) then Some(NumberOf(rest[..d])) else None
  }

  predicate Opens(indent: nat, line: Bytes) { line == Blanks(indent + 2) + "{" }

  predicate Closes(indent: nat, line: Bytes) {
    line == Blanks(indent + 2) + "}" || line == Blanks(indent + 2) + "},"
  }

  datatype Tally = Tally(kinds: multiset<Bytes>, pages: set<nat>, count: nat, closes: nat)

  function NoLines(): Tally { Tally(multiset{}, {}, 0, 0) }

  function Plus(a: Tally, b: Tally): Tally {
    Tally(a.kinds + b.kinds, a.pages + b.pages, a.count + b.count, a.closes + b.closes)
  }

  function LineTally(indent: nat, line: Bytes): Tally {
    Tally(match KindOf(indent, line) case Some(k) => multiset{k} case None => multiset{},
          match PageOf(indent, line) case Some(n) => {n} case None => {},
          if Opens(indent, line) then 1 else 0,
          if Closes(indent, line) then 1 else 0)
  }

  lemma PlusAssociates(a: Tally, b: Tally, c: Tally)
    ensures Plus(Plus(a, b), c) == Plus(a, Plus(b, c))
    ensures Plus(a, NoLines()) == a && Plus(NoLines(), a) == a
  {}

  /** The tally of all complete lines of a text. */
  function TallyOf(indent: nat, text: Bytes): Tally
    decreases |text|
  {
    match Find(text, [NEWLINE])
    case None => NoLines()
    case Some(n) => if n < |text| then Plus(LineTally(indent, text[..n]), TallyOf(indent, text[n + 1..])) else NoLines()
  }

  lemma NewlineAt(text: Bytes, n: nat)
    ensures OccursAt(text, [NEWLINE], n) <==> n < |text| && text[n] == NEWLINE
  {
    if n < |text| {
      assert text[n..n + 1] == [text[n]];
    }
  }

  lemma NoNewline(text: Bytes)
    requires NEWLINE !in text
    ensures Find(text, [NEWLINE]).None?
  {
    FindFromSound(text, [NEWLINE], 0);
    if Find(text, [NEWLINE]).Some? {
      NewlineAt(text, Find(text, [NEWLINE]).value);
    }
  }

  /** Whole lines tally independently of what follows them. */
  lemma {:induction false} TallySplits(indent: nat, a: Bytes, b: Bytes)
    requires WholeLines(a)
    ensures TallyOf(indent, a + b) == Plus(TallyOf(indent, a), TallyOf(indent, b))
    decreases |a|
  {
    hide LineTally, Plus, NoLines;
    if a == [] {
      assert a + b == b;
      NoNewline(a);
      PlusAssociates(TallyOf(indent, b), NoLines(), NoLines());
    } else {
      FindFromSound(a, [NEWLINE], 0);
      NewlineAt(a, |a| - 1);
      var n := Find(a, [NEWLINE]).value;
      NewlineAt(a, n);
      FindKept(a, b, [NEWLINE]);
      assert (a + b)[..n] == a[..n] && (a + b)[n + 1..] == a[n + 1..] + b;
      TallySplits(indent, a[n + 1..], b);
      PlusAssociates(LineTally(indent, a[..n]), TallyOf(indent, a[n + 1..]), TallyOf(indent, b));
    }
  }

  lemma TallyIgnoresRest(indent: nat, a: Bytes, rest: Bytes)
    requires WholeLines(a) && NEWLINE !in rest
    ensures TallyOf(indent, a + rest) == TallyOf(indent, a)
  {
    TallySplits(indent, a, rest);
    NoNewline(rest);
    PlusAssociates(TallyOf(indent, a), NoLines(), NoLines());
  }

  const KEY: Bytes := "\"sources\": ["
  const SUMMARY_KEY: Bytes := "\"source_summary\": "

  function Terminator(indent: nat): Bytes { "\n" + Blanks(indent) + "]" }

  // ---------- summaries ----------

  /** The program's bounds: a 64 KiB sample and line bound, and a 256 MiB bound
      on retained text. The results hold for any. */
  datatype Bounds = Bounds(sampleBytes: nat, maxRetained: nat)

  /** What a summary reports of one raw array: its bytes (standing for digest
      and size), both bounded samples, and the tally of its lines. */
  datatype Summary = Summary(raw: Bytes, prefix: Bytes, suffix: Bytes, tally: Tally)

  function FirstBytes(raw: Bytes, bound: nat): Bytes {
    if |raw| <= bound then raw else raw[..bound]
  }

  function LastBytes(raw: Bytes, bound: nat): Bytes {
    if |raw| <= bound then raw else raw[|raw| - bound..]
  }

  function SummaryOf(indent: nat, raw: Bytes, bound: nat): Summary {
    Summary(raw, FirstBytes(raw, bound), LastBytes(raw, bound), TallyOf(indent, raw))
  }

  /** The whole lines of a text, and the newline-free rest after them. */
  function CompletePart(raw: Bytes): Bytes {
    CompleteSplit(raw);
    raw[..CompleteLength(raw)]
  }

  function PendingOf(raw: Bytes): Bytes {
    CompleteSplit(raw);
    raw[CompleteLength(raw)..]
  }

  lemma Parts(raw: Bytes)
    ensures raw == CompletePart(raw) + PendingOf(raw)
    ensures WholeLines(CompletePart(raw)) && NEWLINE !in PendingOf(raw)
  {
    CompleteSplit(raw);
  }

  /** The bounds, the known kinds, and a table of the encodings of the summaries
      whose samples can be extracted. */
  datatype Config = Config(bounds: Bounds, known: set<Bytes>, encodings: map<Summary, Bytes>)

  function Finish(cfg: Config, s: Summary): Option<Bytes> {
    if s.tally.count != s.tally.closes || s.tally.count != |s.tally.kinds| then None
    else if exists k | k in s.tally.kinds :: k !in cfg.known then None
    else if s !in cfg.encodings then None
    else Some(cfg.encodings[s])
  }

  /** What a summary object holds besides the fed bytes. */
  datatype Fields = Fields(prefix: Bytes, suffix: Bytes, pending: Bytes, tally: Tally)

  function FieldsOf(indent: nat, raw: Bytes, bound: nat): Fields {
    Fields(FirstBytes(raw, bound), LastBytes(raw, bound), PendingOf(raw), TallyOf(indent, raw))
  }

  /** The fields after one more feed, from the fields alone. */
  function NextFields(indent: nat, f: Fields, data: Bytes, bound: nat): Fields
    requires |f.prefix| <= bound
  {
    var block := f.pending + data;
    Fields(f.prefix + FirstBytes(data, bound - |f.prefix|), LastBytes(f.suffix + data, bound), PendingOf(block),
           Plus(f.tally, TallyOf(indent, CompletePart(block))))
  }

  lemma NextFieldsAre(indent: nat, raw: Bytes, data: Bytes, bound: nat)
    ensures |FieldsOf(indent, raw, bound).prefix| <= bound
    ensures NextFields(indent, FieldsOf(indent, raw, bound), data, bound) == FieldsOf(indent, raw + data, bound)
  {
    SamplesStep(raw, data, bound);
    FeedStep(indent, raw, data);
  }

  /** The summary object: fed piece by piece, its fields are updated in place. */
  class SourceSummary {
    const indent: nat
    const bound: nat
    var raw: Bytes
    var prefix: Bytes
    var suffix: Bytes
    var pending: Bytes
    var tally: Tally

    ghost function State(): Fields
      reads this
    {
      Fields(prefix, suffix, pending, tally)
    }

    constructor (n: nat, b: nat)
      ensures raw == [] && indent == n && bound == b
      ensures State() == Fields([], [], [], NoLines())
    {
      indent, bound := n, b;
      raw, prefix, suffix, pending, tally := [], [], [], [], NoLines();
    }

    /** Feeding concatenates, and fails exactly when the unfinished line outgrows the bound. */
    method Feed(data: Bytes) returns (ok: bool)
      requires |prefix| <= bound
      modifies this
      ensures raw == old(raw) + data
      ensures ok <==> |pending| <= bound
      ensures State() == NextFields(indent, old(State()), data, bound)
    {
      raw := raw + data;
      prefix := prefix + FirstBytes(data, bound - |prefix|);
      suffix := LastBytes(suffix + data, bound);
      var block := pending + data;
      pending := PendingOf(block);
      tally := Plus(tally, TallyOf(indent, CompletePart(block)));
      ok := |pending| <= bound;
    }
  }

  lemma EmptyFed(indent: nat, raw: Bytes, bound: nat)
    requires raw == []
    ensures FieldsOf(indent, raw, bound) == Fields([], [], [], NoLines())
  {
    NoNewline(raw);
  }

  lemma LongPending(raw: Bytes, bound: nat)
    requires |PendingOf(raw)| > bound
    ensures HasLongLine(raw, bound)
  {
    CompleteSplit(raw);
    var i := CompleteLength(raw);
    forall k | i <= k <= i + bound ensures raw[k] != NEWLINE {
      assert raw[k] == PendingOf(raw)[k - i];
    }
    assert LongStretchAt(raw, i, bound);
  }

  lemma SamplesStep(raw: Bytes, data: Bytes, bound: nat)
    ensures |FirstBytes(raw, bound)| <= bound
    ensures FirstBytes(raw + data, bound) == FirstBytes(raw, bound) + FirstBytes(data, bound - |FirstBytes(raw, bound)|)
    ensures LastBytes(raw + data, bound) == LastBytes(LastBytes(raw, bound) + data, bound)
  {}

  lemma Regroup(raw: Bytes, done: Bytes, rest: Bytes, data: Bytes, whole: Bytes, tail: Bytes)
    requires raw == done + rest && rest + data == whole + tail
    ensures raw + data == (done + whole) + tail
  {
    assert (done + rest) + data == done + (rest + data);
    assert done + (whole + tail) == (done + whole) + tail;
  }

  /** The pending line joins the next data; what stays pending is the rest after
      the last newline of both, and the lines it completes are the new ones. */
  lemma FeedStep(indent: nat, raw: Bytes, data: Bytes)
    ensures var block := PendingOf(raw) + data;
      && PendingOf(raw + data) == PendingOf(block)
      && TallyOf(indent, raw + data) == Plus(TallyOf(indent, raw), TallyOf(indent, CompletePart(block)))
  {
    var done, rest := CompletePart(raw), PendingOf(raw);
    Parts(raw);
    var whole, tail := CompletePart(rest + data), PendingOf(rest + data);
    Parts(rest + data);
    Regroup(raw, done, rest, data, whole, tail);
    CompleteUnique(done + whole, tail);
    TallyIgnoresRest(indent, done, rest);
    TallyIgnoresRest(indent, done + whole, tail);
    TallySplits(indent, done, whole);
  }

  /** A whole-line prefix followed by newline-free text ends at the last newline. */
  lemma {:induction false} CompleteUnique(whole: Bytes, tail: Bytes)
    requires WholeLines(whole) && NEWLINE !in tail
    ensures CompleteLength(whole + tail) == |whole|
    ensures PendingOf(whole + tail) == tail
    decreases |tail|
  {
    if tail == [] {
      assert whole + tail == whole;
    } else {
      var m := |tail| - 1;
      assert tail[m] in tail;
      assert (whole + tail)[..|whole + tail| - 1] == whole + tail[..m];
      CompleteUnique(whole, tail[..m]);
    }
  }

  // ---------- the sources head ----------

  function LeadingBlanks(text: Bytes): nat {
    if text == [] || text[0] != ' ' then 0 else 1 + LeadingBlanks(text[1..])
  }

  /** A sources head of this indentation stands at p: at a permitted start,
      blanks and then the key with its opening bracket. */
  ghost predicate HeadWith(text: Bytes, p: nat, n: nat) {
    && (p == 0 || (p <= |text| && text[p - 1] == NEWLINE))
    && n >= 1 && OccursAt(text, Blanks(n) + KEY, p)
  }

  ghost predicate IsHead(text: Bytes, p: nat) {
    exists n: nat :: HeadWith(text, p, n)
  }

  /** The indentation of the head at p, if one stands there. */
  function HeadAt(text: Bytes, p: nat): Option<nat>
    requires p <= |text|
  {
    var n := LeadingBlanks(text[p..]);
    if (p == 0 || text[p - 1] == NEWLINE) && n >= 1 && OccursAt(text, Blanks(n) + KEY, p) then Some(n) else None
  }

  lemma {:induction false} LeadingBlanksAre(text: Bytes, n: nat, rest: Bytes)
    requires text == Blanks(n) + rest && rest != [] && rest[0] != ' '
    ensures LeadingBlanks(text) == n
    decreases n
  {
    if n > 0 {
      assert text[1..] == Blanks(n - 1) + rest;
      LeadingBlanksAre(text[1..], n - 1, rest);
    }
  }

  lemma HeadAtIs(text: Bytes, p: nat, n: nat)
    requires p <= |text|
    ensures HeadAt(text, p) == Some(n) <==> HeadWith(text, p, n)
  {
    if HeadWith(text, p, n) {
      var tail := text[p..];
      assert tail[..n + |KEY|] == Blanks(n) + KEY;
      assert tail == Blanks(n) + tail[n..];
      assert tail[n] == (Blanks(n) + KEY)[n] == KEY[0];
      LeadingBlanksAre(tail, n, tail[n..]);
    }
  }

  /** The leftmost head and its indentation, as the multi-line search finds it. */
  function HeadFrom(text: Bytes, from: nat): Option<(nat, nat)>
    decreases |text| - from
  {
    if from >= |text| then None
    else if HeadAt(text, from).Some? then Some((from, HeadAt(text, from).value))
    else HeadFrom(text, from + 1)
  }

  function FirstHead(text: Bytes): Option<(nat, nat)> {
    HeadFrom(text, 0)
  }

  lemma {:induction false} HeadFromSound(text: Bytes, from: nat)
    ensures match HeadFrom(text, from)
      case Some((p, n)) => from <= p && HeadWith(text, p, n) && forall q: nat | from <= q < p :: !IsHead(text, q)
      case None => forall q: nat | from <= q :: !IsHead(text, q)
    decreases |text| - from
  {
    if from >= |text| {
      forall q: nat, n: nat | from <= q ensures !HeadWith(text, q, n) {
        assert |KEY| > 0;
      }
    } else {
      forall n: nat ensures HeadAt(text, from) == Some(n) <==> HeadWith(text, from, n) {
        HeadAtIs(text, from, n);
      }
      if HeadAt(text, from).None? {
        HeadFromSound(text, from + 1);
      }
    }
  }

  lemma {:induction false} HeadFromIs(text: Bytes, from: nat, p: nat, n: nat)
    requires from <= p && HeadWith(text, p, n) && forall q: nat | from <= q < p :: !IsHead(text, q)
    ensures HeadFrom(text, from) == Some((p, n))
    decreases p - from
  {
    assert p < |text| by {
      assert |KEY| > 0;
    }
    HeadAtIs(text, p, n);
    if from < p {
      if HeadAt(text, from).Some? {
        HeadAtIs(text, from, HeadAt(text, from).value);
        assert IsHead(text, from);
      }
      HeadFromIs(text, from + 1, p, n);
    }
  }

  /** A head lies within one line. */
  lemma HeadHasNoNewline(text: Bytes, p: nat, n: nat, k: nat)
    requires HeadWith(text, p, n) && p <= k < p + n + |KEY|
    ensures k < |text| && text[k] != NEWLINE
  {
    assert text[k] == text[p..p + n + |KEY|][k - p] == (Blanks(n) + KEY)[k - p];
    if k - p >= n {
      KeyHasNoNewline(k - p - n);
    }
  }

  lemma KeyHasNoNewline(k: nat)
    requires k < |KEY|
    ensures KEY[k] != NEWLINE
  {}

  /** More text after a position that is followed by a newline changes no head there. */
  lemma HeadInWholeLine(text: Bytes, more: Bytes, q: nat, m: nat, n: nat)
    requires q <= m < |text| && text[m] == NEWLINE
    ensures HeadWith(text + more, q, n) <==> HeadWith(text, q, n)
  {
    var all := text + more;
    assert all[m] == NEWLINE;
    if HeadWith(all, q, n) {
      if m < q + n + |KEY| {
        HeadHasNoNewline(all, q, n, m);
      }
      OccursPrefix(text, more, Blanks(n) + KEY, q);
    }
    if HeadWith(text, q, n) {
      OccursPrefix(text, more, Blanks(n) + KEY, q);
    }
  }

  /** A head found in the buffer is the leftmost head of the whole remaining text. */
  lemma HeadKept(buffer: Bytes, more: Bytes)
    requires FirstHead(buffer).Some?
    ensures FirstHead(buffer + more) == FirstHead(buffer)
  {
    HeadFromSound(buffer, 0);
    var (p, n) := FirstHead(buffer).value;
    OccursPrefix(buffer, more, Blanks(n) + KEY, p);
    forall q: nat | q < p ensures !IsHead(buffer + more, q) {
      forall n': nat ensures !HeadWith(buffer + more, q, n') {
        HeadInWholeLine(buffer, more, q, p - 1, n');
        assert !IsHead(buffer, q);
      }
    }
    HeadFromIs(buffer + more, 0, p, n);
  }

  /** Whole lines without a head can be passed over. */
  lemma HeadSkips(lines: Bytes, tail: Bytes, more: Bytes)
    requires WholeLines(lines) && FirstHead(lines + tail).None?
    ensures FirstHead(lines + (tail + more))
         == match FirstHead(tail + more) case Some((p, n)) => Some((|lines| + p, n)) case None => None
  {
    HeadFromSound(tail + more, 0);
    match FirstHead(tail + more)
    case Some((p, n)) => SkipToHead(lines, tail, tail + more, p, n);
    case None => SkipToEnd(lines, tail, tail + more);
  }

  lemma SkipToHead(lines: Bytes, tail: Bytes, rest: Bytes, p: nat, n: nat)
    requires WholeLines(lines) && FirstHead(lines + tail).None?
    requires HeadWith(rest, p, n) && forall q: nat | q < p :: !IsHead(rest, q)
    ensures FirstHead(lines + rest) == Some((|lines| + p, n))
  {
    forall q: nat | q < |lines| + p ensures !IsHead(lines + rest, q) {
      NoHeadBefore(lines, tail, rest, q, |lines| + p);
    }
    HeadWithShifts(lines, rest, p, n);
    HeadFromIs(lines + rest, 0, |lines| + p, n);
  }

  lemma SkipToEnd(lines: Bytes, tail: Bytes, rest: Bytes)
    requires WholeLines(lines) && FirstHead(lines + tail).None?
    requires forall q: nat :: !IsHead(rest, q)
    ensures FirstHead(lines + rest).None?
  {
    HeadFromSound(lines + rest, 0);
    if FirstHead(lines + rest).Some? {
      var (q, n) := FirstHead(lines + rest).value;
      assert IsHead(lines + rest, q);
      NoHeadBefore(lines, tail, rest, q, q + 1);
    }
  }

  lemma NoHeadBefore(lines: Bytes, tail: Bytes, rest: Bytes, q: nat, bound: nat)
    requires WholeLines(lines) && FirstHead(lines + tail).None? && q < bound
    requires forall k: nat | |lines| + k < bound :: !IsHead(rest, k)
    ensures !IsHead(lines + rest, q)
  {
    if q < |lines| {
      NoHeadInLines(lines, tail, rest, q);
    } else {
      HeadShifts(lines, rest, q - |lines|);
    }
  }

  lemma NoHeadInLines(lines: Bytes, tail: Bytes, rest: Bytes, q: nat)
    requires WholeLines(lines) && FirstHead(lines + tail).None? && q < |lines|
    ensures !IsHead(lines + rest, q)
  {
    HeadFromSound(lines + tail, 0);
    assert !IsHead(lines + tail, q);
    forall n: nat ensures !HeadWith(lines + rest, q, n) {
      HeadInWholeLine(lines, rest, q, |lines| - 1, n);
      HeadInWholeLine(lines, tail, q, |lines| - 1, n);
    }
  }

  lemma HeadShifts(lines: Bytes, rest: Bytes, q: nat)
    requires WholeLines(lines)
    ensures IsHead(lines + rest, |lines| + q) <==> IsHead(rest, q)
  {
    var all, at := lines + rest, |lines| + q;
    if n: nat :| HeadWith(all, at, n) {
      HeadWithShifts(lines, rest, q, n);
    }
    if n: nat :| HeadWith(rest, q, n) {
      HeadWithShifts(lines, rest, q, n);
    }
  }

  lemma HeadWithShifts(lines: Bytes, rest: Bytes, q: nat, n: nat)
    requires WholeLines(lines)
    ensures HeadWith(lines + rest, |lines| + q, n) <==> HeadWith(rest, q, n)
  {
    OccursSuffix(lines, rest, Blanks(n) + KEY, q);
  }
}
