/** A report that compacts when read at once and is refused when it is cut inside a long
    line. It has one array of three glyphs, whose first and last are short, so both
    samples can be taken; a text line of the middle one is over the sample bound. Read at
    once that line is complete before it is judged; read in two chunks its beginning is
    judged as an unfinished line. */
module CutExample {
  import opened Basics
  import opened Compactor
  import opened CompactReport
  import opened FeedPoints

  function Xs(n: nat): Bytes { seq(n, _ => 'x') }

  function OpenLine(): Bytes { "    {" }

  function KindLine(): Bytes { "      \"kind\": \"glyph\"" }

  function TextLine(n: nat): Bytes { "      \"text\": \"" + Xs(n) + "\"," }

  function Short(): Bytes { OpenLine() + "\n" + (KindLine() + "\n" + "    },") }

  /** A glyph with a line that holds n more characters than its frame. */
  function Long(n: nat): Bytes { OpenLine() + "\n" + (TextLine(n) + "\n" + (KindLine() + "\n" + "    },")) }

  function Last(): Bytes { OpenLine() + "\n" + (KindLine() + "\n" + "    }") }

  /** Three glyphs, the long one in the middle. */
  function Body(n: nat): Bytes { "\n" + (Short() + "\n" + (Long(n) + "\n" + Last())) }

  function Rest(n: nat): Bytes { Body(n) + (Terminator(2) + "\n}") }

  function Front(): Bytes { "{\n  \"schema_version\": 11,\n" }

  function Report(n: nat): Bytes { Front() + (Blanks(2) + KEY + Rest(n)) }

  function Array(n: nat): Bytes { "[" + (Body(n) + Terminator(2)) }

  const MAX_RETAINED_BYTES: nat := 256 * 1024 * 1024

  /** The summary of the one array is encoded as an empty object. */
  function Setting(bound: nat, n: nat): Config {
    Config(Bounds(bound, MAX_RETAINED_BYTES), {"glyph"}, map[SummaryOf(2, Array(n), bound) := "{}"])
  }

  // ---------- the head ----------

  lemma NoBlankNoHead(text: Bytes)
    requires ' ' !in text
    ensures FirstHead(text).None?
  {
    HeadFromSound(text, 0);
    if FirstHead(text).Some? {
      var (p, n) := FirstHead(text).value;
      BlankAt(text, p, n);
    }
  }

  lemma BlankAt(text: Bytes, p: nat, n: nat)
    requires HeadWith(text, p, n)
    ensures p < |text| && text[p] == ' '
  {
    assert text[p..p + |Blanks(n) + KEY|][0] == (Blanks(n) + KEY)[0];
  }

  /** The version's line is no head: its key has another third letter. */
  lemma NoHeadInFront(n: nat, q: nat, m: nat)
    requires q < |Front()|
    ensures !HeadWith(Report(n), q, m)
  {
    hide Rest;
    var text := Report(n);
    assert text[..|Front()|] == Front();
    assert text[2] == text[3] == ' ' && text[4] == '"' && text[6] == 'c';
    if HeadWith(text, q, m) {
      BlankAt(text, q, m);
      LettersMatch(text, q, m);
      assert false;
    }
  }

  lemma LettersMatch(text: Bytes, q: nat, m: nat)
    requires HeadWith(text, q, m)
    ensures q + m + 2 < |text| && text[q + m] == '"' && text[q + m + 2] == 'o'
    ensures forall k | q <= k < q + m :: text[k] == ' '
  {
    var head := Blanks(m) + KEY;
    assert text[q..q + |head|] == head;
    assert head[m] == KEY[0] && head[m + 2] == KEY[2];
    assert forall k | q <= k < q + |head| :: text[k] == text[q..q + |head|][k - q];
  }

  lemma HeadOfReport(n: nat)
    ensures SplitAtHead(Report(n)) == Some(Split(Front(), 2, Rest(n)))
  {
    hide Rest;
    var text, head, p := Report(n), Blanks(2) + KEY, |Front()|;
    assert text[p..p + |head|] == head;
    assert text[p - 1] == Front()[p - 1] == NEWLINE;
    assert HeadWith(text, p, 2);
    forall q: nat | q < p ensures !IsHead(text, q) {
      forall m: nat ensures !HeadWith(text, q, m) {
        NoHeadInFront(n, q, m);
      }
    }
    HeadFromIs(text, 0, p, 2);
    assert text[..p] == Front() && text[p + |head|..] == Rest(n);
  }

  // ---------- the end of the array ----------

  lemma NoBracketInBody(n: nat)
    ensures ']' !in Body(n)
  {
    assert ']' !in TextLine(n) && ']' !in KindLine();
    assert ']' !in Short() && ']' !in Long(n) && ']' !in Last();
  }

  lemma LastMatches(text: Bytes, pattern: Bytes, q: nat)
    requires OccursAt(text, pattern, q) && pattern != []
    ensures text[q + |pattern| - 1] == pattern[|pattern| - 1]
  {
    assert text[q..q + |pattern|][|pattern| - 1] == text[q + |pattern| - 1];
  }

  /** A terminator behind a text without brackets is the first. */
  lemma FirstTerminator(body: Bytes, indent: nat, more: Bytes)
    requires ']' !in body
    ensures Find(body + (Terminator(indent) + more), Terminator(indent)) == Some(|body|)
  {
    var t := Terminator(indent);
    var text := body + (t + more);
    assert text[|body|..|body| + |t|] == t;
    forall q: nat | q < |body| ensures !OccursAt(text, t, q) {
      var last := q + |t| - 1;
      assert text[last] == if last < |body| then body[last] else t[last - |body|];
      assert text[last] != ']' == t[|t| - 1];
      if OccursAt(text, t, q) {
        LastMatches(text, t, q);
      }
    }
    FindFromIs(text, t, 0, |body|);
  }

  lemma ArrayOfReport(n: nat)
    ensures ArrayLength(Rest(n), 2) == Some(|Body(n)| + |Terminator(2)|)
    ensures RawArray(Rest(n), |Body(n)| + |Terminator(2)|) == Array(n)
    ensures Rest(n)[|Body(n)| + |Terminator(2)|..] == "\n}"
  {
    hide Short, Long, Last;
    NoBracketInBody(n);
    FirstTerminator(Body(n), 2, "\n}");
    assert Rest(n)[..|Body(n)| + |Terminator(2)|] == Body(n) + Terminator(2);
  }

  // ---------- the tally ----------

  /** As many items open as close and have a kind, and the kinds are known. */
  predicate Balanced(t: Tally) {
    t.count == t.closes == |t.kinds| && forall k | k in t.kinds :: k == "glyph"
  }

  /** A line and the lines after it. */
  lemma KeptLine(line: Bytes, more: Bytes)
    requires NEWLINE !in line
    ensures TallyOf(2, line + "\n" + more) == Plus(LineTally(2, line), TallyOf(2, more))
  {
    hide LineTally, Plus;
    var text := line + "\n" + more;
    forall q: nat | q < |line| ensures !OccursAt(text, [NEWLINE], q) {
      NewlineAt(text, q);
      assert text[q] == line[q];
    }
    NewlineAt(text, |line|);
    FindFromIs(text, [NEWLINE], 0, |line|);
    assert text[..|line|] == line && text[|line| + 1..] == more;
  }

  function KindOnly(k: Bytes): Tally { Tally(multiset{k}, {}, 0, 0) }

  function Opened(): Tally { Tally(multiset{}, {}, 1, 0) }

  function Closed(): Tally { Tally(multiset{}, {}, 0, 1) }

  lemma NotPrefix(line: Bytes, prefix: Bytes, k: nat)
    requires |line| < |prefix| || (k < |prefix| && line[k] != prefix[k])
    ensures After(line, prefix) == None
  {}

  lemma KindLineTally()
    ensures LineTally(2, KindLine()) == KindOnly("glyph")
  {
    NotPrefix(KindLine(), Blanks(6) + "\"page\": ", 7);
    KindOfKindLine();
  }

  lemma KindOfKindLine()
    ensures KindOf(2, KindLine()) == Some("glyph")
  {
    var line := KindLine();
    var prefix := Blanks(6) + "\"kind\": \"";
    assert line == prefix + "glyph\"" && line[|prefix|..] == "glyph\"";
    QuoteEnds();
  }

  lemma QuoteEnds()
    ensures Find("glyph\"", "\"") == Some(5) && "glyph\""[..5] == "glyph" && "glyph\""[6..] == ""
  {
    var rest := "glyph\"";
    forall q: nat | q < 5 ensures !OccursAt(rest, "\"", q) {
      assert rest[q..q + 1] == [rest[q]];
    }
    assert rest[5..6] == "\"";
    FindFromIs(rest, "\"", 0, 5);
  }

  /** A line that is too short for a field or spells another name. */
  lemma NoField(line: Bytes)
    requires |line| < 14 || line[7] == 't'
    ensures KindOf(2, line) == None && PageOf(2, line) == None
  {
    NotPrefix(line, Blanks(6) + "\"kind\": \"", 7);
    NotPrefix(line, Blanks(6) + "\"page\": ", 7);
  }

  lemma OtherTallies(n: nat)
    ensures LineTally(2, OpenLine()) == Opened() && LineTally(2, "    },") == Closed()
    ensures LineTally(2, "    }") == Closed() && LineTally(2, "[") == NoLines()
    ensures LineTally(2, TextLine(n)) == NoLines()
  {
    NoField(OpenLine());
    NoField("    },");
    NoField("    }");
    NoField("[");
    assert TextLine(n)[..8] == "      \"t";
    NoField(TextLine(n));
    assert OpenLine() == Blanks(4) + "{" && "    }" == Blanks(4) + "}" && "    }," == Blanks(4) + "},";
  }

  /** An item, whatever follows it: its kind and closing lines, behind its opening one. */
  lemma ItemEnds(close: Bytes, more: Bytes)
    requires LineTally(2, close) == Closed() && NEWLINE !in close
    ensures TallyOf(2, KindLine() + "\n" + (close + "\n" + more))
      == Plus(KindOnly("glyph"), Plus(Closed(), TallyOf(2, more)))
  {
    hide LineTally, TallyOf, Plus, Closed, KindOnly;
    KindLineTally();
    KeptLine(close, more);
    KeptLine(KindLine(), close + "\n" + more);
  }

  lemma ItemBalances(t: Tally)
    requires Balanced(t)
    ensures Balanced(Plus(Opened(), Plus(KindOnly("glyph"), Plus(Closed(), t))))
  {}

  lemma ShortBalances(close: Bytes, more: Bytes)
    requires LineTally(2, close) == Closed() && NEWLINE !in close && Balanced(TallyOf(2, more))
    ensures Balanced(TallyOf(2, OpenLine() + "\n" + (KindLine() + "\n" + (close + "\n" + more))))
  {
    hide LineTally, TallyOf, Plus, Balanced, Opened, Closed, KindOnly, KindLine;
    OtherTallies(0);
    ItemEnds(close, more);
    KeptLine(OpenLine(), KindLine() + "\n" + (close + "\n" + more));
    ItemBalances(TallyOf(2, more));
  }

  lemma LongBalances(n: nat, more: Bytes)
    requires Balanced(TallyOf(2, more))
    ensures var end := KindLine() + "\n" + ("    }," + "\n" + more);
      Balanced(TallyOf(2, OpenLine() + "\n" + (TextLine(n) + "\n" + end)))
  {
    hide LineTally, TallyOf, Plus, Balanced, Opened, Closed, KindOnly, KindLine, NoLines;
    OtherTallies(n);
    ItemEnds("    },", more);
    var kind := KindLine() + "\n" + ("    }," + "\n" + more);
    assert NEWLINE !in TextLine(n);
    KeptLine(TextLine(n), kind);
    KeptLine(OpenLine(), TextLine(n) + "\n" + kind);
    PlusAssociates(TallyOf(2, kind), NoLines(), NoLines());
    ItemBalances(TallyOf(2, more));
  }

  lemma ArrayBalances(n: nat)
    ensures Balanced(TallyOf(2, Array(n)))
  {
    hide LineTally, TallyOf, Plus, Balanced, Opened, Closed, OpenLine, KindLine, TextLine;
    OtherTallies(n);
    NothingBalances("  ]");
    ShortBalances("    }", "  ]");
    var last := OpenLine() + "\n" + (KindLine() + "\n" + ("    }" + "\n" + "  ]"));
    LongBalances(n, last);
    var long := OpenLine() + "\n" + (TextLine(n) + "\n" + (KindLine() + "\n" + ("    }," + "\n" + last)));
    ShortBalances("    },", long);
    var short := OpenLine() + "\n" + (KindLine() + "\n" + ("    }," + "\n" + long));
    KeptLine("[", short);
    PlusAssociates(TallyOf(2, short), NoLines(), NoLines());
    ArrayParts(n, last, long, short);
  }

  lemma NothingBalances(last: Bytes)
    requires NEWLINE !in last
    ensures Balanced(TallyOf(2, last))
  {
    NoNewline(last);
  }

  lemma ArrayParts(n: nat, last: Bytes, long: Bytes, short: Bytes)
    requires last == OpenLine() + "\n" + (KindLine() + "\n" + ("    }" + "\n" + "  ]"))
    requires long == OpenLine() + "\n" + (TextLine(n) + "\n" + (KindLine() + "\n" + ("    }," + "\n" + last)))
    requires short == OpenLine() + "\n" + (KindLine() + "\n" + ("    }," + "\n" + long))
    ensures Array(n) == "[" + "\n" + short
  {
    hide OpenLine, KindLine, TextLine;
    assert Terminator(2) == "\n" + "  ]";
    assert Last() + Terminator(2) == last;
    assert Long(n) + "\n" + last == long;
    assert Short() + "\n" + long == short;
  }

  // ---------- both results ----------

  lemma WholeCompacts(bound: nat, n: nat)
    ensures Compact(Setting(bound, n), Report(n)).Some?
  {
    hide Array, Rest, Body, TallyOf;
    var cfg := Setting(bound, n);
    HeadOfReport(n);
    ArrayOfReport(n);
    ArrayBalances(n);
    assert Encoded(cfg, 2, Array(n)) == Some("{}");
    NoBlankNoHead("\n}");
    assert OutputOf(cfg, "\n}") == Some(Output("\n}", []));
  }

  /** A feed that ends more than the bound behind the beginning of the long line, and inside it. */
  lemma LongLineCanShow(bound: nat, n: nat, m: nat) returns (c: nat)
    requires bound < m <= n
    ensures c == |Lead()| + m && c <= |Rest(n)| && TooLong(Setting(bound, n), Rest(n), c)
    ensures c + |Terminator(2)| < |Body(n)| + |Terminator(2)|
  {
    hide Array, Body;
    LeadOfBody(n);
    var lead := Lead();
    c := |lead| + m;
    var fed := "[" + Rest(n)[..c];
    assert Rest(n)[..|lead| + n] == lead + Xs(n);
    assert forall k | |lead| + 1 <= k < |fed| :: fed[k] == (lead + Xs(n))[k - 1] == 'x';
    NewlineFreeEnd(fed, |lead| + 1);
  }

  /** A cut there shows it. */
  lemma ReportIsExposed(bound: nat, n: nat, m: nat, chunks: seq<Bytes>)
    requires bound < m <= n && |Lead()| + m + |Terminator(2)| <= |Rest(n)|
    requires Mark(chunks, |Rest(n)| - |Terminator(2)| - (|Lead()| + m))
    ensures Exposed(Setting(bound, n), Report(n), chunks)
  {
    hide Array, Body, Rest, Report, Setting, TooLong;
    var c := LongLineCanShow(bound, n, m);
    HeadOfReport(n);
    ArrayOfReport(n);
    ArrayFits(Rest(n), 2);
    assert FedAt(2, Rest(n), |Body(n)| + |Terminator(2)|, chunks, c);
  }

  /** What stands in the array before the first x. */
  function Lead(): Bytes { "\n" + (Short() + "\n" + (OpenLine() + "\n" + "      \"text\": \"")) }

  lemma LeadOfBody(n: nat)
    ensures Lead() + Xs(n) < Body(n)
  {
    hide OpenLine, KindLine, Xs;
    assert Lead() + Xs(n) + ("\"," + "\n" + (KindLine() + "\n" + "    },") + "\n" + Last()) == Body(n);
  }

  /** The same report, read at once and cut inside the long line, has two results. */
  lemma CutMatters(bound: nat, n: nat) returns (chunks: seq<Bytes>)
    requires n > bound > 256
    ensures IsCut([Report(n)], Report(n)) && IsCut(chunks, Report(n)) && |chunks| == 2
    ensures RunResult(Setting(bound, n), [Report(n)]).Some? && RunResult(Setting(bound, n), chunks).None?
  {
    hide Report, Setting, Rest, Lead;
    var cfg, text := Setting(bound, n), Report(n);
    WholeCompacts(bound, n);
    ReportAndBound(bound, n);
    OneReadShowsNothing(cfg, text, text);
    assert [text][1..] == [] && Concat([text]) == text + [] == text;
    LongLineInside(n);
    var u: nat := |Rest(n)| - |Terminator(2)| - (|Lead()| + n);
    chunks := CutAt(text, u);
    ReportIsExposed(bound, n, n, chunks);
    if |chunks| < 2 {
      OneChunk(chunks, text);
      assert false;
    }
  }

  /** The end of the long line, and where the report's rest begins. */
  lemma LongLineInside(n: nat)
    ensures |Lead()| + n + |Terminator(2)| < |Rest(n)| < |Report(n)|
  {
    hide Lead, Body;
    LeadOfBody(n);
  }

  /** The reads of a file in pieces of one size. */
  function Pieces(text: Bytes, size: nat): seq<Bytes>
    requires size > 0
  {
    if |text| <= size then [text] else [text[..size]] + Pieces(text[size..], size)
  }

  lemma {:induction false} PiecesJoin(text: Bytes, size: nat)
    requires size > 0
    ensures Concat(Pieces(text, size)) == text
    ensures text != [] ==> IsCut(Pieces(text, size), text)
  {
    if |text| > size {
      PiecesJoin(text[size..], size);
      var rest := Pieces(text[size..], size);
      assert Pieces(text, size)[1..] == rest;
    } else {
      assert [text][1..] == [] && text + [] == text;
    }
  }

  /** A read begins after every full piece. */
  lemma {:induction false} PieceMark(text: Bytes, size: nat, j: nat)
    requires size > 0 && j * size < |text|
    ensures Mark(Pieces(text, size), |text| - j * size)
    decreases j
  {
    var chunks := Pieces(text, size);
    PiecesJoin(text, size);
    if j > 0 {
      assert j * size == (j - 1) * size + size;
      PieceMark(text[size..], size, j - 1);
      assert chunks[1..] == Pieces(text[size..], size);
    }
  }

  /** Read in pieces of one size, as the program does with a MiB, the report is refused
      whenever the long line is longer than the bound and a piece together. */
  lemma PiecesRefuse(bound: nat, n: nat, size: nat)
    requires size > 0 && n >= bound + size
    ensures Report(n) != [] && IsCut(Pieces(Report(n), size), Report(n))
    ensures RunResult(Setting(bound, n), Pieces(Report(n), size)).None?
  {
    hide Report, Setting, Rest, Lead, Terminator, Pieces;
    var text := Report(n);
    LongLineInside(n);
    PiecesJoin(text, size);
    var start := |text| - |Rest(n)| + |Terminator(2)| + |Lead()|;
    var j := (start + n) / size;
    LastMultiple(start + n, size);
    var m: nat := j * size - start;
    PieceMark(text, size, j);
    ReportIsExposed(bound, n, m, Pieces(text, size));
  }

  lemma LastMultiple(x: nat, size: nat)
    requires size > 0
    ensures x - size < x / size * size <= x
  {}

  lemma ReportAndBound(bound: nat, n: nat)
    ensures Setting(bound, n).bounds.sampleBytes == bound && Report(n) != []
  {}

  lemma OneChunk(chunks: seq<Bytes>, text: Bytes)
    requires IsCut(chunks, text) && text != [] && |chunks| < 2
    ensures chunks == [text]
  {
    assert chunks != [] && chunks[1..] == [] && Concat(chunks) == chunks[0] + [] == chunks[0];
  }
}
