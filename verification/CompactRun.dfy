/** The chunked run of the compactor: a bounded buffer refilled read by read. It returns
    what the reference form does, unless one of its own feeds meets a line over the bound. */
module CompactRun {
  import opened Basics
  import opened Compactor
  import opened CompactReport
  import opened FeedPoints

  // ---------- the reader ----------

  /** The stream as the nonempty chunks its reads will return; after the last one
      a read returns nothing and sets eof. `logical` stands for the digest of what was read. */
  class Reader {
    var chunks: seq<Bytes>
    var buffer: Bytes
    var eof: bool
    var logical: Bytes

    ghost predicate Valid()
      reads this
    {
      && (forall k | 0 <= k < |chunks| :: chunks[k] != [])
      && (eof ==> chunks == [])
    }

    /** What the walk has still to see. */
    ghost function Remaining(): Bytes
      reads this
    {
      buffer + Concat(chunks)
    }

    ghost function Total(): Bytes
      reads this
    {
      logical + Concat(chunks)
    }

    constructor (stream: seq<Bytes>)
      requires forall k | 0 <= k < |stream| :: stream[k] != []
      ensures Valid() && buffer == [] && !eof && chunks == stream && logical == []
    {
      chunks, buffer, eof, logical := stream, [], false, [];
    }

    method Fill()
      requires Valid()
      modifies this
      ensures Valid()
      ensures Remaining() == old(Remaining()) && Total() == old(Total())
      ensures old(chunks) == [] ==> eof && buffer == old(buffer) && chunks == []
      ensures old(chunks) != [] ==> chunks == old(chunks)[1..] && !eof && buffer == old(buffer) + old(chunks)[0]
    {
      if chunks == [] {
        eof := true;
      } else {
        var chunk := chunks[0];
        Associate(buffer, chunk, Concat(chunks[1..]));
        Associate(logical, chunk, Concat(chunks[1..]));
        logical := logical + chunk;
        buffer := buffer + chunk;
        chunks := chunks[1..];
        eof := false;
      }
    }
  }

  lemma Associate(a: Bytes, b: Bytes, c: Bytes)
    ensures a + (b + c) == (a + b) + c
  {}

  // ---------- consuming one array ----------

  datatype Consumed = Consumed(raw: Bytes, encoded: Bytes)

  /** What consuming an array delivers, given the text that stood behind its head: nothing
      exactly when there is nothing to deliver or a feed meets a line over the bound. */
  ghost predicate ConsumedRight(cfg: Config, stream: seq<Bytes>, indent: nat, rest: Bytes,
                                r: Option<Consumed>, remaining: Bytes)
  {
    match ArrayLength(rest, indent)
    case None => r.None?
    case Some(e) =>
      ArrayFits(rest, indent);
      var raw := RawArray(rest, e);
      && (r.None? <==> Encoded(cfg, indent, raw).None? || Shows(cfg, indent, rest, e, stream))
      && (r.Some? ==>
            r.value.raw == raw && Encoded(cfg, indent, raw) == Some(r.value.encoded) && remaining == rest[e..])
  }

  /** Mid-array: what was fed is a prefix of the rest in which no terminator starts. */
  ghost predicate Feeding(indent: nat, rest: Bytes, fed: Bytes, remaining: Bytes) {
    && rest == fed + remaining
    && rest != [] && rest[0] == NEWLINE
    && forall q: nat | q < |fed| :: !OccursAt(rest, Terminator(indent), q)
  }

  /** The array ends after e bytes of the rest. */
  ghost predicate EndsHere(indent: nat, rest: Bytes, e: nat, raw: Bytes, remaining: Bytes) {
    ArrayLength(rest, indent) == Some(e) && e <= |rest| && raw == RawArray(rest, e) && remaining == rest[e..]
  }

  /** The terminator found in the buffer ends the array. */
  lemma TerminatorFound(indent: nat, rest: Bytes, fed: Bytes, buffer: Bytes, more: Bytes, end: nat)
    requires Feeding(indent, rest, fed, buffer + more) && Find(buffer, Terminator(indent)).Some?
    requires end == Find(buffer, Terminator(indent)).value + |Terminator(indent)| <= |buffer|
    ensures EndsHere(indent, rest, |fed| + end, ("[" + fed) + buffer[..end], buffer[end..] + more)
  {
    var t := Terminator(indent);
    FindFromSound(buffer, t, 0);
    FindKept(buffer, more, t);
    FindSkips(fed, buffer + more, t);
    assert rest[..|fed| + end] == fed + buffer[..end];
    assert "[" + (fed + buffer[..end]) == ("[" + fed) + buffer[..end];
    assert rest[|fed| + end..] == buffer[end..] + more;
  }

  /** No terminator in the last buffer of the stream: the array is truncated. */
  lemma Truncated(indent: nat, rest: Bytes, fed: Bytes, buffer: Bytes)
    requires Feeding(indent, rest, fed, buffer) && Find(buffer, Terminator(indent)).None?
    ensures ArrayLength(rest, indent).None?
  {
    FindSkips(fed, buffer, Terminator(indent));
  }

  /** All but a terminator's length of a buffer without terminator can be fed. */
  lemma FeedMore(indent: nat, rest: Bytes, fed: Bytes, buffer: Bytes, more: Bytes, cut: nat)
    requires Feeding(indent, rest, fed, buffer + more) && Find(buffer, Terminator(indent)).None?
    requires cut + |Terminator(indent)| == |buffer|
    ensures Feeding(indent, rest, fed + buffer[..cut], buffer[cut..] + more)
  {
    var t := Terminator(indent);
    assert buffer + more == buffer[..cut] + (buffer[cut..] + more);
    assert rest == (fed + buffer[..cut]) + (buffer[cut..] + more);
    FindFromSound(buffer, t, 0);
    forall q: nat | q < |fed| + cut ensures !OccursAt(rest, t, q) {
      if q >= |fed| {
        OccursSuffix(fed, buffer + more, t, q - |fed|);
        OccursPrefix(buffer, more, t, q - |fed|);
      }
    }
  }

  /** No mark of the stream lies in what is left beside those still ahead. */
  ghost predicate NoneInside(stream: seq<Bytes>, chunks: seq<Bytes>, length: nat) {
    forall u: nat | Mark(stream, u) && |Concat(chunks)| < u :: u >= length
  }

  /** What the reads so far have shown of an array: at none of them did it end, nor was it
      fed up to an unfinished line over the bound. */
  ghost predicate Passed(cfg: Config, indent: nat, rest: Bytes, stream: seq<Bytes>, chunks: seq<Bytes>) {
    forall u: nat | Mark(stream, u) && |Concat(chunks)| < u <= |rest| :: PassedAt(cfg, indent, rest, u)
  }

  ghost predicate PassedAt(cfg: Config, indent: nat, rest: Bytes, u: nat)
    requires u <= |rest|
  {
    && (ArrayLength(rest, indent).Some? ==> |rest| - u < ArrayLength(rest, indent).value)
    && (u + |Terminator(indent)| <= |rest| ==> !TooLong(cfg, rest, |rest| - u - |Terminator(indent)|))
  }

  lemma PassedAtFirst(cfg: Config, indent: nat, rest: Bytes, stream: seq<Bytes>, chunks: seq<Bytes>)
    requires NoneInside(stream, chunks, |rest|)
    ensures Passed(cfg, indent, rest, stream, chunks)
  {
    forall u: nat | Mark(stream, u) && |Concat(chunks)| < u <= |rest| ensures PassedAt(cfg, indent, rest, u) {
      if ArrayLength(rest, indent).Some? {
        ArrayFits(rest, indent);
      }
    }
  }

  /** The array does not end before the end of a buffer without its terminator. */
  lemma EndBeyond(indent: nat, rest: Bytes, fed: Bytes, buffer: Bytes, more: Bytes)
    requires Feeding(indent, rest, fed, buffer + more) && Find(buffer, Terminator(indent)).None?
    ensures ArrayLength(rest, indent).Some? ==> |fed| + |buffer| < ArrayLength(rest, indent).value
  {
    var t := Terminator(indent);
    FindSkips(fed, buffer + more, t);
    if Find(buffer + more, t).Some? {
      FindFromSound(buffer + more, t, 0);
      var q := Find(buffer + more, t).value;
      if q + |t| <= |buffer| {
        OccursPrefix(buffer, more, t, q);
        FindFromSound(buffer, t, 0);
      }
    }
  }

  /** One more read without a terminator, fed from as far as it may. */
  lemma PassedMore(cfg: Config, indent: nat, rest: Bytes, fed: Bytes, buffer: Bytes, stream: seq<Bytes>,
                   chunks: seq<Bytes>)
    requires Feeding(indent, rest, fed, buffer + Concat(chunks)) && Find(buffer, Terminator(indent)).None?
    requires InStep(stream, chunks) && chunks != [] && Passed(cfg, indent, rest, stream, chunks)
    requires |fed| + |buffer| >= |Terminator(indent)| ==>
      !TooLong(cfg, rest, |fed| + |buffer| - |Terminator(indent)|)
    ensures Passed(cfg, indent, rest, stream, chunks[1..])
  {
    EndBeyond(indent, rest, fed, buffer, Concat(chunks));
    assert |rest| == |fed| + |buffer| + |Concat(chunks)|;
    forall u: nat | Mark(stream, u) && |Concat(chunks[1..])| < u <= |rest| ensures PassedAt(cfg, indent, rest, u) {
      if u <= |Concat(chunks)| {
        NextMark(stream, chunks, u);
      }
    }
  }

  /** The array ends in the buffer: only its last feed is still to be judged. */
  lemma ShowsAtEnd(cfg: Config, indent: nat, rest: Bytes, stream: seq<Bytes>, chunks: seq<Bytes>, e: nat)
    requires ArrayLength(rest, indent) == Some(e) && e + |Concat(chunks)| <= |rest|
    requires Passed(cfg, indent, rest, stream, chunks) && !TooLong(cfg, rest, 0)
    ensures Shows(cfg, indent, rest, e, stream) <==> TooLong(cfg, rest, e)
    ensures NoneInside(stream, chunks, |rest| - e)
  {
    forall c: nat | c <= e && FedAt(indent, rest, e, stream, c) && c != 0 && c != e ensures !TooLong(cfg, rest, c) {
      assert PassedAt(cfg, indent, rest, |rest| - |Terminator(indent)| - c);
    }
    assert FedAt(indent, rest, e, stream, e);
    forall u: nat | Mark(stream, u) && |Concat(chunks)| < u ensures u >= |rest| - e {
      if u <= |rest| {
        assert PassedAt(cfg, indent, rest, u);
      }
    }
  }

  ghost predicate Summarizes(s: SourceSummary, raw: Bytes)
    reads s
  {
    s.raw == raw && s.State() == FieldsOf(s.indent, raw, s.bound)
  }

  /** Feeding keeps every field of the summary a function of all bytes fed, and fails exactly
      when their unfinished line is over the bound. */
  method FeedNext(s: SourceSummary, data: Bytes, ghost raw: Bytes) returns (ok: bool)
    requires Summarizes(s, raw)
    modifies s
    ensures Summarizes(s, raw + data)
    ensures ok <==> |PendingOf(raw + data)| <= s.bound
  {
    NextFieldsAre(s.indent, raw, data, s.bound);
    ok := s.Feed(data);
  }

  method FinishSummary(cfg: Config, s: SourceSummary, ghost raw: Bytes) returns (r: Option<Consumed>)
    requires Summarizes(s, raw) && s.bound == cfg.bounds.sampleBytes
    ensures r.Some? ==> r.value.raw == raw && Encoded(cfg, s.indent, raw) == Some(r.value.encoded)
    ensures r.None? ==> Encoded(cfg, s.indent, raw).None?
  {
    var encoded := Finish(cfg, Summary(s.raw, s.prefix, s.suffix, s.tally));
    assert Summary(s.raw, s.prefix, s.suffix, s.tally) == SummaryOf(s.indent, raw, s.bound);
    match encoded
    case None => r := None;
    case Some(text) => r := Some(Consumed(s.raw, text));
  }

  lemma BracketTooLong(cfg: Config, stream: seq<Bytes>, indent: nat, rest: Bytes, remaining: Bytes)
    requires TooLong(cfg, rest, 0)
    ensures ConsumedRight(cfg, stream, indent, rest, None, remaining)
  {
    if ArrayLength(rest, indent).Some? {
      ArrayFits(rest, indent);
      assert FedAt(indent, rest, ArrayLength(rest, indent).value, stream, 0);
    }
  }

  /** A feed that fails shows a line over the bound at a mark of the stream. */
  lemma FeedFailed(cfg: Config, indent: nat, rest: Bytes, fed: Bytes, buffer: Bytes, stream: seq<Bytes>,
                   chunks: seq<Bytes>, anything: Bytes)
    requires Feeding(indent, rest, fed, buffer + Concat(chunks)) && Find(buffer, Terminator(indent)).None?
    requires InStep(stream, chunks) && |fed| + |buffer| >= |Terminator(indent)|
    requires TooLong(cfg, rest, |fed| + |buffer| - |Terminator(indent)|)
    ensures ConsumedRight(cfg, stream, indent, rest, None, anything)
  {
    EndBeyond(indent, rest, fed, buffer, Concat(chunks));
    if ArrayLength(rest, indent).Some? {
      ArrayFits(rest, indent);
      var e := ArrayLength(rest, indent).value;
      assert |rest| == |fed| + |buffer| + |Concat(chunks)|;
      assert Mark(stream, |Concat(chunks)|);
      assert FedAt(indent, rest, e, stream, |fed| + |buffer| - |Terminator(indent)|);
    }
  }

  /** An array without items closes right behind its opening bracket. */
  method CloseAtOnce(cfg: Config, reader: Reader, indent: nat, summary: SourceSummary,
                     ghost stream: seq<Bytes>, ghost rest: Bytes)
    returns (r: Option<Consumed>)
    requires reader.Valid() && reader.Remaining() == rest && reader.buffer != [] && reader.buffer[0] == ']'
    requires summary.indent == indent && summary.bound == cfg.bounds.sampleBytes && Summarizes(summary, "[")
    requires Passed(cfg, indent, rest, stream, reader.chunks) && !TooLong(cfg, rest, 0)
    modifies reader, summary
    ensures reader.Valid() && reader.Total() == old(reader.Total()) && reader.chunks == old(reader.chunks)
    ensures ConsumedRight(cfg, stream, indent, rest, r, reader.Remaining())
    ensures r.Some? ==> NoneInside(stream, reader.chunks, |reader.Remaining()|)
  {
    hide TallyOf, FieldsOf, SummaryOf, PendingOf, CompletePart, Encoded, FindFrom, Passed, Shows, NoneInside;
    ghost var remaining := reader.buffer[1..] + Concat(reader.chunks);
    assert rest[..1] == "]" && rest[1..] == remaining;
    ShowsAtEnd(cfg, indent, rest, stream, reader.chunks, 1);
    var ok := FeedNext(summary, "]", "[");
    assert "[" + "]" == RawArray(rest, 1);
    r := DeliverSummary(cfg, stream, indent, summary, ok, rest, "[" + "]", 1, remaining);
    reader.buffer := reader.buffer[1..];
  }

  /** Consume the array behind a head, refilling as needed. */
  method ConsumeSources(cfg: Config, reader: Reader, indent: nat, ghost stream: seq<Bytes>)
    returns (r: Option<Consumed>)
    requires reader.Valid() && InStep(stream, reader.chunks)
    requires NoneInside(stream, reader.chunks, |reader.Remaining()|)
    modifies reader
    ensures reader.Valid() && reader.Total() == old(reader.Total())
    ensures ConsumedRight(cfg, stream, indent, old(reader.Remaining()), r, reader.Remaining())
    ensures r.Some? ==> InStep(stream, reader.chunks) && NoneInside(stream, reader.chunks, |reader.Remaining()|)
  {
    hide TallyOf, FieldsOf, SummaryOf, PendingOf, CompletePart, Encoded, FindFrom, RawArray, Shows, InStep, NoneInside,
         Passed;
    ghost var rest := reader.Remaining();
    var summary := new SourceSummary(indent, cfg.bounds.sampleBytes);
    EmptyFed(indent, summary.raw, cfg.bounds.sampleBytes);
    var ok := FeedNext(summary, "[", []);
    assert [] + "[" == "[" + rest[..0] == "[";
    if !ok {
      BracketTooLong(cfg, stream, indent, rest, reader.Remaining());
      return None;
    }
    if reader.buffer == [] && !reader.eof {
      FirstFill(reader, stream);
    }
    if reader.buffer != [] && reader.buffer[0] == ']' {
      PassedAtFirst(cfg, indent, rest, stream, reader.chunks);
      r := CloseAtOnce(cfg, reader, indent, summary, stream, rest);
      return;
    }
    if reader.buffer == [] || reader.buffer[0] != NEWLINE {
      return None;
    }
    PassedAtFirst(cfg, indent, rest, stream, reader.chunks);
    r := ConsumeLines(cfg, reader, indent, summary, stream, rest);
  }

  /** Refilling an empty buffer passes the mark before all that is left. */
  method FirstFill(reader: Reader, ghost stream: seq<Bytes>)
    requires reader.Valid() && reader.buffer == [] && InStep(stream, reader.chunks)
    requires NoneInside(stream, reader.chunks, |reader.Remaining()|)
    modifies reader
    ensures reader.Valid() && reader.Total() == old(reader.Total()) && reader.Remaining() == old(reader.Remaining())
    ensures reader.buffer == [] ==> reader.chunks == []
    ensures InStep(stream, reader.chunks) && NoneInside(stream, reader.chunks, |reader.Remaining()|)
  {
    ghost var chunks := reader.chunks;
    assert |reader.Remaining()| == |Concat(chunks)|;
    reader.Fill();
    if chunks != [] {
      StillInStep(stream, chunks);
      forall u: nat | Mark(stream, u) && |Concat(chunks[1..])| < u ensures u >= |Concat(chunks)| {
        if u <= |Concat(chunks)| {
          NextMark(stream, chunks, u);
        }
      }
    }
  }

  function EndOf(buffer: Bytes, indent: nat, found: nat): (end: nat)
    requires Find(buffer, Terminator(indent)) == Some(found)
    ensures end == found + |Terminator(indent)| <= |buffer|
  {
    FindFromSound(buffer, Terminator(indent), 0);
    found + |Terminator(indent)|
  }

  /** A summary of exactly the array's bytes delivers what consuming must. */
  method DeliverSummary(cfg: Config, ghost stream: seq<Bytes>, indent: nat, summary: SourceSummary, fedAll: bool,
                        ghost rest: Bytes, ghost raw: Bytes, ghost e: nat, ghost remaining: Bytes)
    returns (r: Option<Consumed>)
    requires EndsHere(indent, rest, e, raw, remaining)
    requires summary.indent == indent && summary.bound == cfg.bounds.sampleBytes
    requires fedAll ==> Summarizes(summary, raw)
    requires fedAll <==> !Shows(cfg, indent, rest, e, stream)
    ensures ConsumedRight(cfg, stream, indent, rest, r, remaining)
  {
    hide Shows, Encoded;
    if !fedAll {
      return None;
    }
    r := FinishSummary(cfg, summary, raw);
  }

  /** The terminator is in the buffer: feed up to it and finish. */
  method FinishLines(cfg: Config, reader: Reader, indent: nat, summary: SourceSummary, ghost stream: seq<Bytes>,
                     ghost rest: Bytes, ghost fed: Bytes, end: nat, ghost raw: Bytes, ghost remaining: Bytes)
    returns (r: Option<Consumed>)
    requires reader.Valid() && end <= |reader.buffer|
    requires EndsHere(indent, rest, |fed| + end, raw, remaining)
    requires raw == ("[" + fed) + reader.buffer[..end] && remaining == reader.buffer[end..] + Concat(reader.chunks)
    requires summary.indent == indent && summary.bound == cfg.bounds.sampleBytes && Summarizes(summary, "[" + fed)
    requires Passed(cfg, indent, rest, stream, reader.chunks) && !TooLong(cfg, rest, 0)
    modifies reader, summary
    ensures reader.Valid() && reader.Total() == old(reader.Total()) && reader.chunks == old(reader.chunks)
    ensures ConsumedRight(cfg, stream, indent, rest, r, reader.Remaining())
    ensures r.Some? ==> NoneInside(stream, reader.chunks, |reader.Remaining()|)
  {
    hide TallyOf, FieldsOf, SummaryOf, PendingOf, CompletePart, Encoded, FindFrom, Passed, Shows, NoneInside;
    ShowsAtEnd(cfg, indent, rest, stream, reader.chunks, |fed| + end);
    var ok := FeedNext(summary, reader.buffer[..end], "[" + fed);
    r := DeliverSummary(cfg, stream, indent, summary, ok, rest, raw, |fed| + end, remaining);
    reader.buffer := reader.buffer[end..];
  }

  /** Bytes are held back behind what was fed. */
  ghost predicate HeldBack(indent: nat, fed: Bytes, buffer: Bytes) {
    fed == [] || |buffer| >= |Terminator(indent)|
  }

  lemma FedPrefix(rest: Bytes, fed: Bytes, remaining: Bytes)
    requires rest == fed + remaining
    ensures "[" + rest[..|fed|] == "[" + fed
  {}

  /** No terminator yet: feed all but the last few bytes, which may begin one. */
  method FeedMost(cfg: Config, reader: Reader, indent: nat, summary: SourceSummary, ghost stream: seq<Bytes>,
                  ghost rest: Bytes, ghost fed: Bytes)
    returns (ok: bool, ghost fed': Bytes)
    requires reader.Valid() && Feeding(indent, rest, fed, reader.Remaining())
    requires Find(reader.buffer, Terminator(indent)).None? && HeldBack(indent, fed, reader.buffer)
    requires InStep(stream, reader.chunks) && !TooLong(cfg, rest, |fed|)
    requires summary.indent == indent && summary.bound == cfg.bounds.sampleBytes && Summarizes(summary, "[" + fed)
    modifies reader, summary
    ensures reader.Valid() && reader.Total() == old(reader.Total())
    ensures reader.chunks == old(reader.chunks) && reader.eof == old(reader.eof)
    ensures ok ==>
      && Summarizes(summary, "[" + fed') && Feeding(indent, rest, fed', reader.Remaining())
      && HeldBack(indent, fed', reader.buffer) && !TooLong(cfg, rest, |fed'|)
      && var read := |fed| + |old(reader.buffer)|;
      (read >= |Terminator(indent)| ==> !TooLong(cfg, rest, read - |Terminator(indent)|))
    ensures !ok ==> ConsumedRight(cfg, stream, indent, rest, None, reader.Remaining())
  {
    hide TallyOf, FieldsOf, PendingOf, CompletePart, FindFrom, InStep, ArrayLength;
    ok, fed' := true, fed;
    var keep := |Terminator(indent)|;
    if |reader.buffer| > keep {
      var cut := |reader.buffer| - keep;
      FeedMore(indent, rest, fed, reader.buffer, Concat(reader.chunks), cut);
      ok := FeedNext(summary, reader.buffer[..cut], "[" + fed);
      Associate("[", fed, reader.buffer[..cut]);
      fed' := fed + reader.buffer[..cut];
      FedPrefix(rest, fed', reader.buffer[cut..] + Concat(reader.chunks));
      if !ok {
        FeedFailed(cfg, indent, rest, fed, reader.buffer, stream, reader.chunks,
                   reader.buffer[cut..] + Concat(reader.chunks));
      }
      reader.buffer := reader.buffer[cut..];
    }
  }

  /** The refill loop of an array laid out over lines. */
  method ConsumeLines(cfg: Config, reader: Reader, indent: nat, summary: SourceSummary, ghost stream: seq<Bytes>,
                      ghost rest: Bytes)
    returns (r: Option<Consumed>)
    requires reader.Valid() && reader.Remaining() == rest && reader.buffer != [] && reader.buffer[0] == NEWLINE
    requires summary.indent == indent && summary.bound == cfg.bounds.sampleBytes && Summarizes(summary, "[")
    requires InStep(stream, reader.chunks) && Passed(cfg, indent, rest, stream, reader.chunks)
    requires !TooLong(cfg, rest, 0)
    modifies reader, summary
    ensures reader.Valid() && reader.Total() == old(reader.Total())
    ensures ConsumedRight(cfg, stream, indent, rest, r, reader.Remaining())
    ensures r.Some? ==> InStep(stream, reader.chunks) && NoneInside(stream, reader.chunks, |reader.Remaining()|)
  {
    hide InStep, Passed, NoneInside, TooLong, RawArray, FieldsOf, PendingOf, FindFrom, Shows, Encoded;
    ghost var fed: Bytes := [];
    assert "[" + fed == "[" && fed + rest == rest;
    while true
      invariant reader.Valid() && reader.Total() == old(reader.Total())
      invariant Summarizes(summary, "[" + fed)
      invariant Feeding(indent, rest, fed, reader.Remaining()) && HeldBack(indent, fed, reader.buffer)
      invariant InStep(stream, reader.chunks) && Passed(cfg, indent, rest, stream, reader.chunks)
      invariant !TooLong(cfg, rest, 0) && |fed| <= |rest| && !TooLong(cfg, rest, |fed|)
      decreases |reader.chunks|, if reader.eof then 0 else 1
    {
      var found := Find(reader.buffer, Terminator(indent));
      if found.Some? {
        var end := EndOf(reader.buffer, indent, found.value);
        TerminatorFound(indent, rest, fed, reader.buffer, Concat(reader.chunks), end);
        r := FinishLines(cfg, reader, indent, summary, stream, rest, fed, end, ("[" + fed) + reader.buffer[..end],
                         reader.buffer[end..] + Concat(reader.chunks));
        return;
      }
      if reader.eof {
        assert reader.buffer + Concat(reader.chunks) == reader.buffer;
        Truncated(indent, rest, fed, reader.buffer);
        return None;
      }
      ghost var fed0, buffer0, chunks0 := fed, reader.buffer, reader.chunks;
      var ok;
      ok, fed := FeedMost(cfg, reader, indent, summary, stream, rest, fed);
      if !ok {
        return None;
      }
      if reader.chunks != [] {
        PassedMore(cfg, indent, rest, fed0, buffer0, stream, chunks0);
        StillInStep(stream, chunks0);
      }
      reader.Fill();
    }
  }

  // ---------- the whole run ----------

  /** Mid-run: what is retained and summarized so far, joined to the reference
      result of the remaining text, is the reference result of the whole. */
  ghost predicate Running(cfg: Config, stream: seq<Bytes>, retained: Bytes, raws: seq<Bytes>, remaining: Bytes) {
    && |retained| <= cfg.bounds.maxRetained
    && OutputOf(cfg, Concat(stream)) == Then(retained, raws, OutputOf(cfg, remaining))
    && (Exposed(cfg, Concat(stream), stream) <==> Exposed(cfg, remaining, stream))
  }

  /** Retaining past the bound fails, and so does the reference. */
  lemma RetainDoomed(cfg: Config, stream: seq<Bytes>, retained: Bytes, raws: seq<Bytes>, remaining: Bytes,
                     added: Bytes, more: seq<Bytes>, rest: Option<Output>)
    requires Running(cfg, stream, retained, raws, remaining)
    requires OutputOf(cfg, remaining) == Then(added, more, rest)
    requires |retained| + |added| > cfg.bounds.maxRetained
    ensures RunResult(cfg, stream) == None
  {
    ThenThen(retained, raws, added, more, rest);
    OverBound(cfg, retained + added, raws + more, rest);
  }

  /** Retaining within the bound moves the state forward. */
  lemma RetainStep(cfg: Config, stream: seq<Bytes>, retained: Bytes, raws: seq<Bytes>, remaining: Bytes,
                   added: Bytes, more: seq<Bytes>, remaining': Bytes)
    requires Running(cfg, stream, retained, raws, remaining)
    requires OutputOf(cfg, remaining) == Then(added, more, OutputOf(cfg, remaining'))
    requires Exposed(cfg, remaining, stream) <==> Exposed(cfg, remaining', stream)
    requires |retained| + |added| <= cfg.bounds.maxRetained
    ensures Running(cfg, stream, retained + added, raws + more, remaining')
  {
    ThenThen(retained, raws, added, more, OutputOf(cfg, remaining'));
  }

  /** Reads already done end before any head still ahead. */
  ghost predicate Stale(stream: seq<Bytes>, chunks: seq<Bytes>, remaining: Bytes) {
    forall u: nat | Mark(stream, u) && |Concat(chunks)| < u < |remaining| ::
      SplitAtHead(remaining[..|remaining| - u]).None?
  }

  lemma HeadInPrefix(buffer: Bytes, x: nat)
    requires SplitAtHead(buffer).Some? && |buffer| - |SplitAtHead(buffer).value.rest| <= x <= |buffer|
    ensures SplitAtHead(buffer[..x]).Some?
  {
    HeadFits(buffer);
    HeadFromSound(buffer, 0);
    var (p, n) := FirstHead(buffer).value;
    assert buffer == buffer[..x] + buffer[x..];
    OccursPrefix(buffer[..x], buffer[x..], Blanks(n) + KEY, p);
    assert HeadWith(buffer[..x], p, n) && IsHead(buffer[..x], p);
    HeadFromSound(buffer[..x], 0);
  }

  /** So behind the head no read has ended yet. */
  lemma HeadIsFresh(stream: seq<Bytes>, buffer: Bytes, chunks: seq<Bytes>)
    requires SplitAtHead(buffer).Some? && Stale(stream, chunks, buffer + Concat(chunks))
    ensures NoneInside(stream, chunks, |SplitAtHead(buffer).value.rest + Concat(chunks)|)
  {
    HeadFits(buffer);
    var rest, more := SplitAtHead(buffer).value.rest, Concat(chunks);
    forall u: nat | Mark(stream, u) && |more| < u ensures u >= |rest + more| {
      if u < |rest + more| {
        var x := |buffer + more| - u;
        assert (buffer + more)[..x] == buffer[..x];
        HeadInPrefix(buffer, x);
      }
    }
  }

  /** Nor is there a head in what is kept of a headless buffer. */
  lemma TailIsStale(stream: seq<Bytes>, tail: Bytes, chunks: seq<Bytes>, chunks': seq<Bytes>)
    requires SplitAtHead(tail).None? && InStep(stream, chunks)
    requires chunks' == if chunks == [] then [] else chunks[1..]
    ensures Stale(stream, chunks', tail + Concat(chunks))
  {
    var more := Concat(chunks);
    var remaining := tail + more;
    forall u: nat | Mark(stream, u) && |Concat(chunks')| < u < |remaining|
      ensures SplitAtHead(remaining[..|remaining| - u]).None?
    {
      if u <= |more| && chunks != [] {
        NextMark(stream, chunks, u);
      }
      var front := tail[..|remaining| - u];
      assert remaining[..|remaining| - u] == front && tail == front + tail[|front|..];
      if SplitAtHead(front).Some? {
        HeadKept(front, tail[|front|..]);
      }
    }
  }

  /** Between two steps: what is known of the text and of the reads. */
  ghost predicate Walking(cfg: Config, stream: seq<Bytes>, retained: Bytes, raws: seq<Bytes>, chunks: seq<Bytes>,
                          remaining: Bytes)
  {
    Running(cfg, stream, retained, raws, remaining) && InStep(stream, chunks) && Stale(stream, chunks, remaining)
  }

  // ---------- the main loop ----------

  /** The head found: retain what stands before it, consume its array, retain the replacement. */
  method HeadStep(cfg: Config, reader: Reader, retained: Bytes, ghost raws: seq<Bytes>, ghost stream: seq<Bytes>)
    returns (r: Option<(Bytes, Bytes)>)
    requires reader.Valid() && SplitAtHead(reader.buffer).Some?
    requires Walking(cfg, stream, retained, raws, reader.chunks, reader.Remaining())
    modifies reader
    ensures reader.Valid() && reader.Total() == old(reader.Total())
    ensures r.Some? ==>
      && Walking(cfg, stream, r.value.0, raws + [r.value.1], reader.chunks, reader.Remaining())
      && |reader.Remaining()| < |old(reader.Remaining())|
    ensures r.None? ==> RunResult(cfg, stream) == None
  {
    hide InStep, Stale, NoneInside, Shows, OutputOf, Exposed, ConsumedRight, Then;
    ghost var remaining, more := reader.Remaining(), Concat(reader.chunks);
    var s := SplitAtHead(reader.buffer).value;
    SplitKept(reader.buffer, more);
    HeadIsFresh(stream, reader.buffer, reader.chunks);
    ghost var rest := s.rest + more;
    if s.indent > 256 || s.indent % 2 != 0 {
      BadIndent(cfg, stream, retained, raws, remaining);
      return None;
    }
    if |retained| + |s.before| > cfg.bounds.maxRetained {
      BeforeTooLong(cfg, stream, retained, raws, remaining);
      return None;
    }
    reader.buffer := s.rest;
    var consumed := ConsumeSources(cfg, reader, s.indent, stream);
    HeadOutcome(cfg, stream, remaining, consumed, reader.Remaining());
    if consumed.None? {
      Refused(cfg, stream, retained, raws, remaining);
      return None;
    }
    var replacement := Replacement(s.indent, consumed.value.encoded);
    ghost var added, raw := s.before + replacement, consumed.value.raw;
    if |retained + s.before| + |replacement| > cfg.bounds.maxRetained {
      RetainDoomed(cfg, stream, retained, raws, remaining, added, [raw], OutputOf(cfg, reader.Remaining()));
      return None;
    }
    RetainStep(cfg, stream, retained, raws, remaining, added, [raw], reader.Remaining());
    Associate(retained, s.before, replacement);
    NoneIsStale(stream, reader.chunks, reader.Remaining());
    r := Some((retained + s.before + replacement, consumed.value.raw));
  }

  lemma NoneIsStale(stream: seq<Bytes>, chunks: seq<Bytes>, remaining: Bytes)
    requires NoneInside(stream, chunks, |remaining|)
    ensures Stale(stream, chunks, remaining)
  {}

  lemma Refused(cfg: Config, stream: seq<Bytes>, retained: Bytes, raws: seq<Bytes>, remaining: Bytes)
    requires Running(cfg, stream, retained, raws, remaining)
    requires OutputOf(cfg, remaining).None? || Exposed(cfg, remaining, stream)
    ensures RunResult(cfg, stream) == None
  {}

  lemma BadIndent(cfg: Config, stream: seq<Bytes>, retained: Bytes, raws: seq<Bytes>, remaining: Bytes)
    requires Running(cfg, stream, retained, raws, remaining) && SplitAtHead(remaining).Some?
    requires var n := SplitAtHead(remaining).value.indent; n > 256 || n % 2 != 0
    ensures RunResult(cfg, stream) == None
  {
    Refused(cfg, stream, retained, raws, remaining);
  }

  lemma BeforeTooLong(cfg: Config, stream: seq<Bytes>, retained: Bytes, raws: seq<Bytes>, remaining: Bytes)
    requires Running(cfg, stream, retained, raws, remaining) && SplitAtHead(remaining).Some?
    requires |retained| + |SplitAtHead(remaining).value.before| > cfg.bounds.maxRetained
    ensures RunResult(cfg, stream) == None
  {
    var s := SplitAtHead(remaining).value;
    RestShorter(remaining);
    match StepAt(cfg, s.indent, s.rest)
    case None =>
    case Some(step) =>
      RetainDoomed(cfg, stream, retained, raws, remaining, s.before + step.replacement, [step.raw],
                   OutputOf(cfg, step.remaining));
  }

  /** What one array contributes to the reference result, and to what the cut exposes. */
  lemma HeadOutcome(cfg: Config, stream: seq<Bytes>, text: Bytes, r: Option<Consumed>, remaining: Bytes)
    requires SplitAtHead(text).Some?
    requires var s := SplitAtHead(text).value;
      s.indent <= 256 && s.indent % 2 == 0 && ConsumedRight(cfg, stream, s.indent, s.rest, r, remaining)
    ensures r.None? ==> OutputOf(cfg, text).None? || Exposed(cfg, text, stream)
    ensures r.Some? ==>
      var s := SplitAtHead(text).value;
      && OutputOf(cfg, text)
           == Then(s.before + Replacement(s.indent, r.value.encoded), [r.value.raw], OutputOf(cfg, remaining))
      && (Exposed(cfg, text, stream) <==> Exposed(cfg, remaining, stream))
      && |remaining| < |text|
  {
    hide Shows, Encoded;
    RestShorter(text);
    var s := SplitAtHead(text).value;
    if ArrayLength(s.rest, s.indent).Some? {
      ArrayFits(s.rest, s.indent);
    }
  }

  /** No head in the buffer: retain its whole lines, keep the unfinished one, and refill. */
  method LinesStep(cfg: Config, reader: Reader, retained: Bytes, ghost raws: seq<Bytes>, ghost stream: seq<Bytes>)
    returns (r: Option<Bytes>)
    requires reader.Valid() && SplitAtHead(reader.buffer).None? && cfg.bounds.maxRetained >= 256 + |KEY|
    requires Walking(cfg, stream, retained, raws, reader.chunks, reader.Remaining())
    modifies reader
    ensures reader.Valid() && reader.Total() == old(reader.Total())
    ensures r.Some? ==>
      && Walking(cfg, stream, r.value, raws, reader.chunks, reader.Remaining())
      && |reader.Remaining()| <= |old(reader.Remaining())|
      && (|reader.chunks| < |old(reader.chunks)| || (reader.eof && reader.chunks == old(reader.chunks)))
    ensures r.None? ==> RunResult(cfg, stream) == None
  {
    hide InStep, Stale, Running, RunResult;
    var lines, tail := CompletePart(reader.buffer), PendingOf(reader.buffer);
    LinesOutcome(cfg, stream, retained, raws, reader.buffer, Concat(reader.chunks));
    if |retained| + |lines| > cfg.bounds.maxRetained {
      return None;
    }
    reader.buffer := tail;
    if |tail| > cfg.bounds.maxRetained {
      return None;
    }
    ghost var chunks := reader.chunks;
    if chunks != [] {
      StillInStep(stream, chunks);
    }
    reader.Fill();
    TailIsStale(stream, tail, chunks, reader.chunks);
    r := Some(retained + lines);
  }

  /** Whole lines without a head expose nothing. */
  lemma LinesExpose(cfg: Config, stream: seq<Bytes>, lines: Bytes, tail: Bytes, more: Bytes)
    requires WholeLines(lines) && SplitAtHead(lines + tail).None?
    ensures Exposed(cfg, lines + (tail + more), stream) <==> Exposed(cfg, tail + more, stream)
  {
    HeadSkips(lines, tail, more);
    if SplitAtHead(tail + more).Some? {
      SplitShifted(lines, tail + more);
    }
  }

  /** Retaining the whole lines of a headless buffer: past a bound the reference
      fails too, otherwise the state moves on with the unfinished line. */
  lemma LinesOutcome(cfg: Config, stream: seq<Bytes>, retained: Bytes, raws: seq<Bytes>, buffer: Bytes, more: Bytes)
    requires SplitAtHead(buffer).None? && cfg.bounds.maxRetained >= 256 + |KEY|
    requires Running(cfg, stream, retained, raws, buffer + more)
    ensures var lines, tail := CompletePart(buffer), PendingOf(buffer);
      && |tail| <= |buffer| && SplitAtHead(tail).None?
      && if |retained| + |lines| > cfg.bounds.maxRetained || |tail| > cfg.bounds.maxRetained
         then RunResult(cfg, stream) == None
         else Running(cfg, stream, retained + lines, raws, tail + more)
  {
    hide OutputOf, Exposed, CompletePart, PendingOf;
    var lines, tail := CompletePart(buffer), PendingOf(buffer);
    Parts(buffer);
    TailHasNoHead(lines, tail);
    LinesKept(cfg, lines, tail, more);
    LinesExpose(cfg, stream, lines, tail, more);
    Associate(lines, tail, more);
    if |retained| + |lines| > cfg.bounds.maxRetained {
      RetainDoomed(cfg, stream, retained, raws, buffer + more, lines, [], OutputOf(cfg, tail + more));
    } else {
      RetainStep(cfg, stream, retained, raws, buffer + more, lines, [], tail + more);
      assert raws + [] == raws;
      if |tail| > cfg.bounds.maxRetained {
        LongLineDooms(cfg, tail, more);
        OverBound(cfg, retained + lines, raws, OutputOf(cfg, tail + more));
      }
    }
  }

  lemma TailHasNoHead(lines: Bytes, tail: Bytes)
    requires WholeLines(lines) && FirstHead(lines + tail).None?
    ensures FirstHead(tail).None?
  {
    assert tail + [] == tail;
    HeadSkips(lines, tail, []);
  }

  lemma RunEnds(cfg: Config, stream: seq<Bytes>, retained: Bytes, raws: seq<Bytes>, remaining: Bytes)
    requires Running(cfg, stream, retained, raws, remaining) && SplitAtHead(remaining).None?
    ensures RunResult(cfg, stream) ==
      if |retained| + |remaining| > cfg.bounds.maxRetained then None
      else Some(Output(retained + remaining, raws))
  {
    assert raws + [] == raws;
  }

  /** However the report arrives in chunks, the run returns the reference result of the
      whole text, unless one of its own feeds meets an unfinished line over the bound. */
  method Run(cfg: Config, stream: seq<Bytes>) returns (r: Option<Output>, logical: Bytes)
    requires forall k | 0 <= k < |stream| :: stream[k] != []
    requires cfg.bounds.maxRetained >= 256 + |KEY|
    ensures r == RunResult(cfg, stream)
    ensures r.Some? ==> logical == Concat(stream)
  {
    hide Walking, RunResult;
    var reader := new Reader(stream);
    var retained: Bytes, raws: seq<Bytes> := [], [];
    ghost var total := Concat(stream);
    RunStarts(cfg, stream, reader.buffer);
    while true
      invariant reader.Valid() && reader.Total() == total
      invariant Walking(cfg, stream, retained, raws, reader.chunks, reader.Remaining())
      decreases |reader.Remaining()|, |reader.chunks|, if reader.eof then 0 else 1
    {
      if SplitAtHead(reader.buffer).Some? {
        var step := HeadStep(cfg, reader, retained, raws, stream);
        if step.None? {
          return None, reader.logical;
        }
        retained, raws := step.value.0, raws + [step.value.1];
      } else if reader.eof {
        assert reader.Remaining() == reader.buffer;
        WalkEnds(cfg, stream, retained, raws, reader.chunks, reader.buffer);
        if |retained| + |reader.buffer| > cfg.bounds.maxRetained {
          return None, reader.logical;
        }
        assert reader.logical + [] == reader.logical;
        return Some(Output(retained + reader.buffer, raws)), reader.logical;
      } else {
        var step := LinesStep(cfg, reader, retained, raws, stream);
        if step.None? {
          return None, reader.logical;
        }
        retained := step.value;
      }
    }
  }

  lemma WalkEnds(cfg: Config, stream: seq<Bytes>, retained: Bytes, raws: seq<Bytes>, chunks: seq<Bytes>,
                 remaining: Bytes)
    requires Walking(cfg, stream, retained, raws, chunks, remaining) && SplitAtHead(remaining).None?
    ensures RunResult(cfg, stream) ==
      if |retained| + |remaining| > cfg.bounds.maxRetained then None
      else Some(Output(retained + remaining, raws))
  {
    RunEnds(cfg, stream, retained, raws, remaining);
  }

  lemma RunStarts(cfg: Config, stream: seq<Bytes>, buffer: Bytes)
    requires buffer == []
    ensures Walking(cfg, stream, [], [], stream, buffer + Concat(stream))
  {
    ThenThen([], [], [], [], OutputOf(cfg, Concat(stream)));
    assert buffer + Concat(stream) == Concat(stream);
    forall u: nat | Mark(stream, u) ensures u <= |Concat(stream)| {
      MarkAtMost(stream, u);
    }
  }
}
