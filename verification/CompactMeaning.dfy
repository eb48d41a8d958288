/** What the compactor's scans find, said of the lines of a text. */
module CompactMeaning {
  // The compactor finds the fields of a line by scanning: a prefix, a leftmost quote, a run of
  // digits. Here the same lines are described by their shape alone, numbers by the way they are
  // written, and the tally of a text by counting its lines.

  import opened Basics
  import opened CompactReport
  import opened Compactor

  // ---------- shapes ----------

  const DECIMALS: Bytes := "0123456789"

  /** These digits write this number; leading zeros are allowed. */
  ghost predicate Writes(digits: Bytes, n: nat) {
    && digits != []
    && digits[|digits| - 1] == DECIMALS[n % 10]
    && if |digits| == 1 then n < 10 else Writes(digits[..|digits| - 1], n / 10)
  }

  /** So many blanks and then the text. */
  ghost predicate Indented(line: Bytes, blanks: nat, text: Bytes) {
    && blanks <= |line| && (forall i | 0 <= i < blanks :: line[i] == ' ') && line[blanks..] == text
  }

  ghost predicate OpenLine(indent: nat, line: Bytes) { Indented(line, indent + 2, "{") }

  ghost predicate CloseLine(indent: nat, line: Bytes) {
    Indented(line, indent + 2, "}") || Indented(line, indent + 2, "},")
  }

  ghost predicate FieldLine(indent: nat, line: Bytes, field: Bytes) {
    Indented(line, indent + 4, field) || Indented(line, indent + 4, field + ",")
  }

  ghost predicate KindLine(indent: nat, line: Bytes, kind: Bytes) {
    && kind != [] && '"' !in kind && NEWLINE !in kind
    && FieldLine(indent, line, "\"kind\": \"" + kind + "\"")
  }

  ghost predicate PageLine(indent: nat, line: Bytes, page: nat) {
    exists digits :: Writes(digits, page) && FieldLine(indent, line, "\"page\": " + digits)
  }

  lemma IndentedIs(line: Bytes, blanks: nat, text: Bytes)
    ensures Indented(line, blanks, text) <==> line == Blanks(blanks) + text
  {
    if Indented(line, blanks, text) {
      assert line == line[..blanks] + line[blanks..];
    }
  }

  lemma AfterIs(line: Bytes, blanks: nat, front: Bytes, rest: Bytes)
    ensures After(line, Blanks(blanks) + front) == Some(rest) <==> Indented(line, blanks, front + rest)
  {
    IndentedIs(line, blanks, front + rest);
    var prefix := Blanks(blanks) + front;
    assert Blanks(blanks) + (front + rest) == prefix + rest;
    if prefix <= line {
      assert line == prefix + line[|prefix|..];
    }
  }

  lemma OpensMeans(indent: nat, line: Bytes)
    ensures Opens(indent, line) <==> OpenLine(indent, line)
    ensures Closes(indent, line) <==> CloseLine(indent, line)
  {}

  // ---------- pages ----------

  ghost predicate AllDigits(text: Bytes) {
    forall i | 0 <= i < |text| :: IsDigit(text[i])
  }

  lemma DecimalIs(c: char, n: nat)
    ensures c == DECIMALS[n % 10] <==> IsDigit(c) && (c - '0') as nat == n % 10
  {}

  /** The number read is the number written. */
  lemma {:induction false} NumberIsWritten(digits: Bytes, n: nat)
    ensures Writes(digits, n) <==> digits != [] && AllDigits(digits) && NumberOf(digits) == n
  {
    if digits != [] {
      var last, front := digits[|digits| - 1], digits[..|digits| - 1];
      DecimalIs(last, n);
      assert digits == front + [last];
      assert AllDigits(digits) <==> AllDigits(front) && IsDigit(last);
      if |digits| > 1 {
        NumberIsWritten(front, n / 10);
      }
    }
  }

  lemma {:induction false} DigitsAre(text: Bytes)
    ensures Digits(text) <= |text| && AllDigits(text[..Digits(text)])
    ensures Digits(text) < |text| ==> !IsDigit(text[Digits(text)])
  {
    if text != [] && IsDigit(text[0]) {
      DigitsAre(text[1..]);
      assert text[..Digits(text)] == [text[0]] + text[1..][..Digits(text) - 1];
    }
  }

  lemma {:induction false} DigitsBeforeEnd(digits: Bytes, end: Bytes)
    requires AllDigits(digits) && EndsField(end)
    ensures Digits(digits + end) == |digits|
  {
    if digits == [] {
      assert digits + end == end;
    } else {
      assert (digits + end)[1..] == digits[1..] + end;
      DigitsBeforeEnd(digits[1..], end);
    }
  }

  ghost predicate PageRest(rest: Bytes, n: nat) {
    exists digits, end :: Writes(digits, n) && EndsField(end) && rest == digits + end
  }

  lemma PageRestRead(rest: Bytes)
    requires 0 < Digits(rest) <= |rest| && EndsField(rest[Digits(rest)..])
    ensures PageRest(rest, NumberOf(rest[..Digits(rest)]))
  {
    hide Digits, NumberOf, Writes;
    var d := Digits(rest);
    DigitsAre(rest);
    NumberIsWritten(rest[..d], NumberOf(rest[..d]));
    assert rest == rest[..d] + rest[d..];
  }

  lemma PageRestWritten(digits: Bytes, end: Bytes, n: nat)
    requires Writes(digits, n) && EndsField(end)
    ensures var rest := digits + end;
      0 < Digits(rest) <= |rest| && EndsField(rest[Digits(rest)..]) && NumberOf(rest[..Digits(rest)]) == n
  {
    hide Digits, NumberOf, Writes;
    NumberIsWritten(digits, n);
    DigitsBeforeEnd(digits, end);
    assert (digits + end)[..|digits|] == digits && (digits + end)[|digits|..] == end;
  }

  lemma FieldEnds(indent: nat, line: Bytes, front: Bytes, middle: Bytes)
    ensures FieldLine(indent, line, front + middle)
      <==> exists end :: EndsField(end) && Indented(line, indent + 4, front + (middle + end))
  {
    assert front + (middle + "") == front + middle;
    assert front + (middle + ",") == front + middle + ",";
    assert EndsField("") && EndsField(",");
  }

  /** A line's page is read exactly as it is written. */
  lemma PageOfMeans(indent: nat, line: Bytes, n: nat)
    ensures PageOf(indent, line) == Some(n) <==> PageLine(indent, line, n)
  {
    hide Digits, NumberOf, Writes, Blanks, Indented, FieldLine;
    var front := "\"page\": ";
    if PageOf(indent, line) == Some(n) {
      var rest := After(line, Blanks(indent + 4) + front).value;
      AfterIs(line, indent + 4, front, rest);
      PageRestRead(rest);
      var digits, end :| Writes(digits, n) && EndsField(end) && rest == digits + end;
      FieldEnds(indent, line, front, digits);
    }
    if digits :| Writes(digits, n) && FieldLine(indent, line, front + digits) {
      FieldEnds(indent, line, front, digits);
      var end :| EndsField(end) && Indented(line, indent + 4, front + (digits + end));
      AfterIs(line, indent + 4, front, digits + end);
      PageRestWritten(digits, end, n);
    }
  }

  // ---------- kinds ----------

  lemma QuoteAt(text: Bytes, p: nat)
    ensures OccursAt(text, "\"", p) <==> p < |text| && text[p] == '"'
  {
    if p < |text| {
      assert text[p..p + 1] == [text[p]];
    }
  }

  /** The leftmost quote ends the part without quotes before it. */
  lemma LeftmostQuote(text: Bytes, q: nat)
    ensures Find(text, "\"") == Some(q) <==> q < |text| && text[q] == '"' && '"' !in text[..q]
  {
    FindFromSound(text, "\"", 0);
    forall p: nat ensures OccursAt(text, "\"", p) <==> p < |text| && text[p] == '"' {
      QuoteAt(text, p);
    }
    if q < |text| && text[q] == '"' && '"' !in text[..q] {
      forall p: nat | p < q ensures !OccursAt(text, "\"", p) {
        assert text[p] == text[..q][p];
      }
      FindFromIs(text, "\"", 0, q);
    }
  }

  ghost predicate KindRest(rest: Bytes, kind: Bytes) {
    kind != [] && '"' !in kind && exists end :: EndsField(end) && rest == kind + ("\"" + end)
  }

  lemma KindRestMeans(rest: Bytes, kind: Bytes)
    ensures KindRest(rest, kind) <==>
      match Find(rest, "\"")
      case None => false
      case Some(q) => 0 < q < |rest| && EndsField(rest[q + 1..]) && rest[..q] == kind
  {
    if kind != [] && '"' !in kind {
      if end :| EndsField(end) && rest == kind + ("\"" + end) {
        assert rest[..|kind|] == kind && rest[|kind| + 1..] == end;
        LeftmostQuote(rest, |kind|);
      }
    }
    if Find(rest, "\"").Some? {
      var q := Find(rest, "\"").value;
      LeftmostQuote(rest, q);
      if EndsField(rest[q + 1..]) {
        assert rest == rest[..q] + ("\"" + rest[q + 1..]);
      }
    }
  }

  /** A line's kind is what stands between the quotes. */
  lemma KindOfMeans(indent: nat, line: Bytes, kind: Bytes)
    requires NEWLINE !in line
    ensures KindOf(indent, line) == Some(kind) <==> KindLine(indent, line, kind)
  {
    hide Find, Blanks, FieldLine;
    var front := "\"kind\": \"";
    if KindOf(indent, line) == Some(kind) {
      var rest := After(line, Blanks(indent + 4) + front).value;
      AfterIs(line, indent + 4, front, rest);
      KindRestMeans(rest, kind);
      var end :| EndsField(end) && rest == kind + ("\"" + end);
      assert rest == (kind + "\"") + end;
      NoNewlineWithin(line, indent + 4 + |front|, kind);
      FieldEnds(indent, line, front, kind + "\"");
      assert front + (kind + "\"") == front + kind + "\"";
    }
    if KindLine(indent, line, kind) {
      assert front + (kind + "\"") == front + kind + "\"";
      FieldEnds(indent, line, front, kind + "\"");
      var end :| EndsField(end) && Indented(line, indent + 4, front + ((kind + "\"") + end));
      assert (kind + "\"") + end == kind + ("\"" + end);
      AfterIs(line, indent + 4, front, kind + ("\"" + end));
      KindRestMeans(kind + ("\"" + end), kind);
    }
  }

  lemma NoNewlineWithin(line: Bytes, from: nat, part: Bytes)
    requires NEWLINE !in line && from <= |line| && part <= line[from..]
    ensures NEWLINE !in part
  {
    assert forall i | 0 <= i < |part| :: part[i] == line[from + i];
  }

  // ---------- the lines of a text ----------

  ghost predicate AreLines(lines: seq<Bytes>) {
    forall i | 0 <= i < |lines| :: NEWLINE !in lines[i]
  }

  function Joined(lines: seq<Bytes>): Bytes {
    if lines == [] then [] else Joined(lines[..|lines| - 1]) + (lines[|lines| - 1] + [NEWLINE])
  }

  /** Every text is lines and an unfinished rest. */
  lemma {:induction false} TextIsLines(text: Bytes) returns (lines: seq<Bytes>, rest: Bytes)
    ensures AreLines(lines) && NEWLINE !in rest && text == Joined(lines) + rest
  {
    if text == [] {
      lines, rest := [], [];
    } else {
      var n := |text| - 1;
      lines, rest := TextIsLines(text[..n]);
      assert text == text[..n] + [text[n]];
      if text[n] == NEWLINE {
        var more := lines + [rest];
        assert more[..|lines|] == lines;
        assert Joined(more) == Joined(lines) + (rest + [NEWLINE]);
        assert text == Joined(more) + [];
        lines, rest := more, [];
      } else {
        assert text == Joined(lines) + (rest + [text[n]]);
        rest := rest + [text[n]];
      }
    }
  }

  ghost predicate HasKind(indent: nat, line: Bytes) {
    exists kind :: KindLine(indent, line, kind)
  }

  ghost function OpenLines(indent: nat, lines: seq<Bytes>): set<nat> {
    set i: nat | i < |lines| && OpenLine(indent, lines[i])
  }

  ghost function CloseLines(indent: nat, lines: seq<Bytes>): set<nat> {
    set i: nat | i < |lines| && CloseLine(indent, lines[i])
  }

  ghost function KindLines(indent: nat, lines: seq<Bytes>): set<nat> {
    set i: nat | i < |lines| && HasKind(indent, lines[i])
  }

  ghost function LinesOfKind(indent: nat, lines: seq<Bytes>, kind: Bytes): set<nat> {
    set i: nat | i < |lines| && KindLine(indent, lines[i], kind)
  }

  /** The tally counts the lines of each shape and collects the pages written. */
  ghost predicate Tallies(indent: nat, lines: seq<Bytes>, t: Tally) {
    && t.count == |OpenLines(indent, lines)|
    && t.closes == |CloseLines(indent, lines)|
    && |t.kinds| == |KindLines(indent, lines)|
    && (forall kind :: t.kinds[kind] == |LinesOfKind(indent, lines, kind)|)
    && (forall page: nat :: page in t.pages <==> exists i :: 0 <= i < |lines| && PageLine(indent, lines[i], page))
  }

  ghost function IfThen(b: bool, n: nat): set<nat> { if b then {n} else {} }

  lemma SetsStep(indent: nat, lines: seq<Bytes>, line: Bytes)
    ensures var n := |lines|;
      && OpenLines(indent, lines + [line]) == OpenLines(indent, lines) + IfThen(OpenLine(indent, line), n)
      && CloseLines(indent, lines + [line]) == CloseLines(indent, lines) + IfThen(CloseLine(indent, line), n)
      && KindLines(indent, lines + [line]) == KindLines(indent, lines) + IfThen(HasKind(indent, line), n)
      && n !in OpenLines(indent, lines) && n !in CloseLines(indent, lines) && n !in KindLines(indent, lines)
  {
    hide OpenLine, CloseLine, HasKind;
  }

  lemma KindSetStep(indent: nat, lines: seq<Bytes>, line: Bytes, kind: Bytes)
    ensures LinesOfKind(indent, lines + [line], kind)
         == LinesOfKind(indent, lines, kind) + IfThen(KindLine(indent, line, kind), |lines|)
    ensures |lines| !in LinesOfKind(indent, lines, kind)
  {
    hide KindLine;
  }

  lemma LineTallies(indent: nat, line: Bytes)
    requires NEWLINE !in line
    ensures var t := LineTally(indent, line);
      && t.count == (if OpenLine(indent, line) then 1 else 0)
      && t.closes == (if CloseLine(indent, line) then 1 else 0)
      && |t.kinds| == (if HasKind(indent, line) then 1 else 0)
      && (forall kind :: t.kinds[kind] == if KindLine(indent, line, kind) then 1 else 0)
      && (forall page: nat :: page in t.pages <==> PageLine(indent, line, page))
  {
    hide KindOf, PageOf, Opens, Closes, OpenLine, CloseLine, KindLine, PageLine;
    OpensMeans(indent, line);
    forall kind ensures KindOf(indent, line) == Some(kind) <==> KindLine(indent, line, kind) {
      KindOfMeans(indent, line, kind);
    }
    forall page: nat ensures PageOf(indent, line) == Some(page) <==> PageLine(indent, line, page) {
      PageOfMeans(indent, line, page);
    }
  }

  lemma KindsStep(indent: nat, lines: seq<Bytes>, line: Bytes, kinds: multiset<Bytes>, kind: Bytes)
    requires NEWLINE !in line && kinds[kind] == |LinesOfKind(indent, lines, kind)|
    ensures (kinds + LineTally(indent, line).kinds)[kind] == |LinesOfKind(indent, lines + [line], kind)|
  {
    hide LineTally, LinesOfKind, KindLine;
    LineTallies(indent, line);
    KindSetStep(indent, lines, line, kind);
  }

  lemma PagesStep(indent: nat, lines: seq<Bytes>, line: Bytes, pages: set<nat>, page: nat)
    requires NEWLINE !in line
    requires page in pages <==> exists i :: 0 <= i < |lines| && PageLine(indent, lines[i], page)
    ensures page in pages + LineTally(indent, line).pages
      <==> exists i :: 0 <= i < |lines + [line]| && PageLine(indent, (lines + [line])[i], page)
  {
    hide LineTally, PageLine;
    LineTallies(indent, line);
    var more := lines + [line];
    assert more[|lines|] == line && forall i | 0 <= i < |lines| :: more[i] == lines[i];
  }

  lemma TalliesStep(indent: nat, lines: seq<Bytes>, line: Bytes, t: Tally)
    requires NEWLINE !in line && Tallies(indent, lines, t)
    ensures Tallies(indent, lines + [line], Plus(t, LineTally(indent, line)))
  {
    hide LineTally, OpenLines, CloseLines, KindLines, LinesOfKind, OpenLine, CloseLine, KindLine, PageLine, HasKind;
    var more, t' := lines + [line], Plus(t, LineTally(indent, line));
    forall kind ensures t'.kinds[kind] == |LinesOfKind(indent, more, kind)| {
      KindsStep(indent, lines, line, t.kinds, kind);
    }
    forall page: nat
      ensures page in t'.pages <==> exists i :: 0 <= i < |more| && PageLine(indent, more[i], page)
    {
      PagesStep(indent, lines, line, t.pages, page);
    }
    LineTallies(indent, line);
    SetsStep(indent, lines, line);
  }

  lemma OneLine(indent: nat, line: Bytes)
    requires NEWLINE !in line
    ensures TallyOf(indent, line + [NEWLINE]) == LineTally(indent, line)
  {
    hide LineTally;
    var text := line + [NEWLINE];
    forall q: nat | q < |line| ensures !OccursAt(text, [NEWLINE], q) {
      NewlineAt(text, q);
      assert line[q] in line;
    }
    NewlineAt(text, |line|);
    FindFromIs(text, [NEWLINE], 0, |line|);
    assert text[..|line|] == line && text[|line| + 1..] == [];
    NoNewline([]);
    PlusAssociates(LineTally(indent, line), NoLines(), NoLines());
  }

  lemma {:induction false} JoinedIsWhole(lines: seq<Bytes>)
    ensures WholeLines(Joined(lines))
  {}

  /** The tally of a text is that of its lines; an unfinished rest counts for nothing. */
  lemma {:induction false} TallyMeans(indent: nat, lines: seq<Bytes>, rest: Bytes)
    requires AreLines(lines) && NEWLINE !in rest
    ensures Tallies(indent, lines, TallyOf(indent, Joined(lines) + rest))
  {
    hide TallyOf, Tallies, LineTally;
    JoinedIsWhole(lines);
    TallyIgnoresRest(indent, Joined(lines), rest);
    if lines == [] {
      NoLinesTally(indent);
    } else {
      var n := |lines| - 1;
      var front, last := lines[..n], lines[n];
      TallyMeans(indent, front, []);
      assert Joined(front) + [] == Joined(front);
      JoinedIsWhole(front);
      TallySplits(indent, Joined(front), last + [NEWLINE]);
      OneLine(indent, last);
      TalliesStep(indent, front, last, TallyOf(indent, Joined(front)));
      assert lines == front + [last];
    }
  }

  lemma NoLinesTally(indent: nat)
    ensures Tallies(indent, [], TallyOf(indent, Joined([])))
  {
    NoNewline([]);
    assert OpenLines(indent, []) == {} && CloseLines(indent, []) == {} && KindLines(indent, []) == {};
    forall kind ensures LinesOfKind(indent, [], kind) == {} {}
  }

  // ---------- samples and the verdict ----------

  /** The samples are the first and the last bytes, as many as the bound allows. */
  lemma SamplesMean(raw: Bytes, bound: nat)
    ensures FirstBytes(raw, bound) <= raw && |FirstBytes(raw, bound)| == Min(|raw|, bound)
    ensures exists skipped :: raw == skipped + LastBytes(raw, bound)
    ensures |LastBytes(raw, bound)| == Min(|raw|, bound)
  {
    assert raw == raw[..|raw| - |LastBytes(raw, bound)|] + LastBytes(raw, bound);
  }

  /** An array is accepted exactly when as many of its lines open an item as close one and as
      carry a kind, every kind is known, and its samples can be extracted. */
  lemma FinishMeans(cfg: Config, indent: nat, lines: seq<Bytes>, rest: Bytes)
    requires AreLines(lines) && NEWLINE !in rest
    ensures var s := SummaryOf(indent, Joined(lines) + rest, cfg.bounds.sampleBytes);
      && (Finish(cfg, s).Some? <==>
            && |OpenLines(indent, lines)| == |CloseLines(indent, lines)| == |KindLines(indent, lines)|
            && (forall i, kind | 0 <= i < |lines| && KindLine(indent, lines[i], kind) :: kind in cfg.known)
            && s in cfg.encodings)
      && (Finish(cfg, s).Some? ==> Finish(cfg, s).value == cfg.encodings[s])
  {
    hide TallyOf, OpenLines, CloseLines, KindLines, KindLine, FirstBytes, LastBytes;
    var s := SummaryOf(indent, Joined(lines) + rest, cfg.bounds.sampleBytes);
    TallyMeans(indent, lines, rest);
    forall kind ensures kind in s.tally.kinds <==> exists i :: 0 <= i < |lines| && KindLine(indent, lines[i], kind) {
      if LinesOfKind(indent, lines, kind) != {} {
        var i :| i in LinesOfKind(indent, lines, kind);
        assert |LinesOfKind(indent, lines, kind)| > 0;
      }
      if i :| 0 <= i < |lines| && KindLine(indent, lines[i], kind) {
        assert i in LinesOfKind(indent, lines, kind);
      }
    }
  }

  // ---------- heads and ends of arrays ----------

  /** At the start of a line stand n blanks, the key and its bracket. */
  ghost predicate KeyLineAt(text: Bytes, p: nat, n: nat) {
    && n >= 1 && p + n + 12 <= |text| && (p > 0 ==> text[p - 1] == '\n')
    && Indented(text[p..p + n + 12], n, "\"sources\": [")
  }

  lemma HeadMeans(text: Bytes, p: nat, n: nat)
    requires p <= |text|
    ensures HeadAt(text, p) == Some(n) <==> KeyLineAt(text, p, n)
  {
    HeadAtIs(text, p, n);
    if p + n + 12 <= |text| {
      IndentedIs(text[p..p + n + 12], n, KEY);
    }
  }

  /** A line that starts behind position p has n blanks and the closing bracket there. */
  ghost predicate BracketLineAt(rest: Bytes, p: nat, n: nat) {
    p + n + 2 <= |rest| && rest[p] == '\n' && Indented(rest[p + 1..p + n + 2], n, "]")
  }

  lemma TerminatorMeans(rest: Bytes, p: nat, n: nat)
    ensures OccursAt(rest, Terminator(n), p) <==> BracketLineAt(rest, p, n)
  {
    if p + n + 2 <= |rest| {
      IndentedIs(rest[p + 1..p + n + 2], n, "]");
      assert rest[p..p + n + 2] == [rest[p]] + rest[p + 1..p + n + 2];
      assert Terminator(n) == [NEWLINE] + (Blanks(n) + "]");
    }
  }

  /** An array that is not empty starts with a line break and goes up to the first closing bracket
      that is indented like its key. */
  lemma ArrayLengthMeans(rest: Bytes, n: nat, e: nat)
    ensures ArrayLength(rest, n) == Some(e) <==>
      if "]" <= rest then e == 1
      else
        && "\n" <= rest && e >= n + 2 && BracketLineAt(rest, e - n - 2, n)
        && forall p: nat | p < e - n - 2 :: !BracketLineAt(rest, p, n)
  {
    hide Terminator, BracketLineAt, OccursAt, Find;
    assert |Terminator(n)| == n + 2 by {
      TerminatorLength(n);
    }
    FindFromSound(rest, Terminator(n), 0);
    FindIs(rest, Terminator(n));
    forall p: nat ensures OccursAt(rest, Terminator(n), p) <==> BracketLineAt(rest, p, n) {
      TerminatorMeans(rest, p, n);
    }
  }

  lemma TerminatorLength(n: nat)
    ensures |Terminator(n)| == n + 2
  {}

  lemma FindIs(text: Bytes, pattern: Bytes)
    ensures Find(text, pattern) == FindFrom(text, pattern, 0)
  {}
}
