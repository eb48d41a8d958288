/** Removing the full reports of a compacted capture, whatever kills the program. */
module Prune {
  // The program may be killed between any two of its steps and started again any number
  // of times. Digests are carried as the digested content itself, so equal digests mean
  // equal files. Nothing else touches the files meanwhile.

  import opened Basics

  type Path = nat

  /** The summary's record of one full report: where it is and its digest. */
  datatype Report = Report(path: Path, sha: Content)

  datatype Row = Row(pair: nat, report: Option<Report>)

  datatype Entry = Entry(pair: nat, original: Report, compactPath: Path, compactSha: Content)

  datatype Content =
    | Raw(bytes: seq<nat>)
    | Summary(rows: seq<Row>)
    | Manifest(supported: bool, summaryPath: Path, summarySha: Content, entries: seq<Entry>)
    | Intent(manifestSha: Content)
    | Receipt(manifestSha: Content, removed: nat)

  type Files = map<Path, Content>

  /** The fixed paths, and the paths inside the capture's and the manifest's directories. */
  datatype Site = Site(manifest: Path, intent: Path, receipt: Path, capture: set<Path>, bundle: set<Path>)

  /** The dictionary of the summary's rows: a later row replaces an earlier one. */
  function OriginalRows(rows: seq<Row>): map<nat, Option<Report>> {
    if rows == [] then map[]
    else
      var last := rows[|rows| - 1];
      OriginalRows(rows[..|rows| - 1])[last.pair := last.report]
  }

  function Originals(m: Content): (paths: seq<Path>)
    requires m.Manifest?
  {
    seq(|m.entries|, i requires 0 <= i < |m.entries| => m.entries[i].original.path)
  }

  // ---------- the checks ----------

  ghost predicate EntryVerified(w: Site, fs: Files, rows: map<nat, Option<Report>>, resuming: bool, e: Entry) {
    && e.pair in rows && rows[e.pair] == Some(e.original)
    && e.compactPath in fs && e.compactPath in w.bundle && fs[e.compactPath] == e.compactSha
    && e.original.path in w.capture
    && (e.original.path in fs ==> fs[e.original.path] == e.original.sha)
    && (e.original.path in fs || resuming)
  }

  ghost predicate HeaderVerified(w: Site, fs: Files) {
    && w.manifest in fs && fs[w.manifest].Manifest? && fs[w.manifest].supported
    && var m := fs[w.manifest];
    && m.summaryPath in fs && fs[m.summaryPath] == m.summarySha && m.summarySha.Summary?
    && (w.intent in fs ==> fs[w.intent] == Intent(m))
  }

  /** The manifest and the summary agree one to one, and every file that should
      stand does, with the recorded content. */
  ghost predicate Passes(w: Site, fs: Files) {
    && HeaderVerified(w, fs)
    && var m := fs[w.manifest];
    var rows := OriginalRows(m.summarySha.rows);
    && (forall i, j | 0 <= i < j < |m.entries| :: m.entries[i].pair != m.entries[j].pair)
    && (forall e | e in m.entries :: EntryVerified(w, fs, rows, w.intent in fs, e))
    && (forall p | p in rows && rows[p].Some? :: exists e :: e in m.entries && e.pair == p)
  }

  /** The loop over the manifest's entries, then the comparison of the pairs seen. */
  method VerifyEntries(w: Site, fs: Files, rows: map<nat, Option<Report>>, resuming: bool, entries: seq<Entry>)
    returns (ok: bool, originals: seq<Path>)
    ensures ok <==>
      && (forall i, j | 0 <= i < j < |entries| :: entries[i].pair != entries[j].pair)
      && (forall e | e in entries :: EntryVerified(w, fs, rows, resuming, e))
      && (forall p | p in rows && rows[p].Some? :: exists e :: e in entries && e.pair == p)
    ensures ok ==> |originals| == |entries| && forall i | 0 <= i < |entries| :: originals[i] == entries[i].original.path
  {
    originals := [];
    var seen: set<nat> := {};
    for k := 0 to |entries|
      invariant |originals| == k && forall i | 0 <= i < k :: originals[i] == entries[i].original.path
      invariant forall p :: p in seen <==> exists i :: 0 <= i < k && entries[i].pair == p
      invariant forall i, j | 0 <= i < j < k :: entries[i].pair != entries[j].pair
      invariant forall i | 0 <= i < k :: EntryVerified(w, fs, rows, resuming, entries[i])
    {
      var e := entries[k];
      assert e in entries;
      if e.pair in seen {
        return false, [];
      }
      if !(e.pair in rows && rows[e.pair] == Some(e.original)) {
        return false, [];
      }
      seen := seen + {e.pair};
      if e.compactPath !in fs || e.compactPath !in w.bundle || fs[e.compactPath] != e.compactSha {
        return false, [];
      }
      if e.original.path !in w.capture {
        return false, [];
      }
      if e.original.path !in fs && !resuming {
        return false, [];
      }
      if e.original.path in fs && fs[e.original.path] != e.original.sha {
        return false, [];
      }
      originals := originals + [e.original.path];
    }
    var reported := set p | p in rows && rows[p].Some?;
    ok := seen == reported;
    if ok {
      forall p | p in rows && rows[p].Some? ensures exists e :: e in entries && e.pair == p {
        assert p in reported;
        var i :| 0 <= i < |entries| && entries[i].pair == p;
        assert entries[i] in entries;
      }
    } else {
      SeenAreReported(w, fs, rows, resuming, entries, seen, reported);
    }
  }

  /** When every entry is verified the pairs seen are all reported, so a difference is a report left out. */
  lemma SeenAreReported(w: Site, fs: Files, rows: map<nat, Option<Report>>, resuming: bool, entries: seq<Entry>,
                        seen: set<nat>, reported: set<nat>)
    requires forall p :: p in seen <==> exists i :: 0 <= i < |entries| && entries[i].pair == p
    requires forall i | 0 <= i < |entries| :: EntryVerified(w, fs, rows, resuming, entries[i])
    requires forall p :: p in reported <==> p in rows && rows[p].Some?
    requires seen != reported
    ensures exists p :: p in rows && rows[p].Some? && !(exists e :: e in entries && e.pair == p)
  {
    assert seen <= reported;
    var p :| p in reported && p !in seen;
    forall e | e in entries ensures e.pair != p {
      var i :| 0 <= i < |entries| && entries[i] == e;
      assert entries[i].pair in seen;
    }
  }

  // ---------- one undisturbed call ----------

  /** What is on disk after a call that is not interrupted. */
  function AfterCall(w: Site, fs: Files): Files
    requires w.manifest in fs && fs[w.manifest].Manifest?
  {
    var m := fs[w.manifest];
    var started := if w.intent in fs then fs else fs[w.intent := Intent(m)];
    var emptied := started - (set p | p in Originals(m));
    if w.receipt in emptied then emptied else emptied[w.receipt := Receipt(m, |m.entries|)]
  }

  /** Row i is the last one of its pair, and that pair is p. */
  ghost predicate LastRow(rows: seq<Row>, p: nat, i: int) {
    && 0 <= i < |rows| && rows[i].pair == p
    && forall j | i < j < |rows| :: rows[j].pair != p
  }

  lemma {:induction false} LastRowHeld(rows: seq<Row>, p: nat, i: int)
    requires LastRow(rows, p, i)
    ensures p in OriginalRows(rows) && OriginalRows(rows)[p] == rows[i].report
  {
    var n := |rows| - 1;
    if rows[n].pair != p {
      assert LastRow(rows[..n], p, i);
      LastRowHeld(rows[..n], p, i);
    }
  }

  lemma {:induction false} HeldFrom(rows: seq<Row>, p: nat) returns (i: int)
    requires p in OriginalRows(rows)
    ensures LastRow(rows, p, i)
  {
    var n := |rows| - 1;
    if rows[n].pair == p {
      i := n;
    } else {
      i := HeldFrom(rows[..n], p);
    }
  }

  lemma {:induction false} SomeLastRow(rows: seq<Row>, i: nat) returns (last: int)
    requires i < |rows|
    ensures LastRow(rows, rows[i].pair, last)
    decreases |rows| - i
  {
    if j :| i < j < |rows| && rows[j].pair == rows[i].pair {
      last := SomeLastRow(rows, j);
    } else {
      last := i;
    }
  }

  /** The dictionary holds the pairs of the rows, each with the report of the last row of that pair. */
  lemma RowsMean(rows: seq<Row>, p: nat)
    ensures p in OriginalRows(rows) <==> exists i :: 0 <= i < |rows| && rows[i].pair == p
    ensures p in OriginalRows(rows) <==> exists i :: LastRow(rows, p, i)
    ensures forall i | LastRow(rows, p, i) :: OriginalRows(rows)[p] == rows[i].report
  {
    if p in OriginalRows(rows) {
      var i := HeldFrom(rows, p);
    }
    if i :| 0 <= i < |rows| && rows[i].pair == p {
      var last := SomeLastRow(rows, i);
      LastRowHeld(rows, p, last);
    }
    forall i | LastRow(rows, p, i) ensures OriginalRows(rows)[p] == rows[i].report {
      LastRowHeld(rows, p, i);
    }
  }

  /** The summary's last row for the pair records this report. */
  ghost predicate Recorded(rows: seq<Row>, p: nat, report: Report) {
    exists i :: LastRow(rows, p, i) && rows[i].report == Some(report)
  }

  lemma RecordedInRows(rows: seq<Row>, p: nat, report: Report)
    ensures Recorded(rows, p, report) <==> p in OriginalRows(rows) && OriginalRows(rows)[p] == Some(report)
  {
    RowsMean(rows, p);
  }

  ghost predicate Lists(entries: seq<Entry>, p: nat, report: Report) {
    exists e :: e in entries && e.pair == p && e.original == report
  }

  /** The files of an entry stand: its compact copy does, and its original does or was being removed. */
  ghost predicate FilesStand(w: Site, fs: Files, e: Entry) {
    && e.compactPath in fs && e.compactPath in w.bundle && fs[e.compactPath] == e.compactSha
    && e.original.path in w.capture
    && (if e.original.path in fs then fs[e.original.path] == e.original.sha else w.intent in fs)
  }

  /** The checks accept exactly when the reports recorded in the summary's rows and those listed
      by the manifest are the same, each pair is listed once, and the files of every entry stand. */
  lemma PassesMeans(w: Site, fs: Files)
    requires HeaderVerified(w, fs)
    ensures var m := fs[w.manifest];
      Passes(w, fs) <==>
        && (forall i, j | 0 <= i < j < |m.entries| :: m.entries[i].pair != m.entries[j].pair)
        && (forall p, r :: Recorded(m.summarySha.rows, p, r) <==> Lists(m.entries, p, r))
        && (forall e | e in m.entries :: FilesStand(w, fs, e))
  {
    var m := fs[w.manifest];
    var rows := OriginalRows(m.summarySha.rows);
    forall p, r ensures Recorded(m.summarySha.rows, p, r) <==> p in rows && rows[p] == Some(r) {
      RecordedInRows(m.summarySha.rows, p, r);
    }
    if Passes(w, fs) {
      forall p, r ensures Recorded(m.summarySha.rows, p, r) <==> Lists(m.entries, p, r) {
        if Recorded(m.summarySha.rows, p, r) {
          var e :| e in m.entries && e.pair == p;
          assert EntryVerified(w, fs, rows, w.intent in fs, e);
        }
      }
      assert forall e | e in m.entries :: EntryVerified(w, fs, rows, w.intent in fs, e) && FilesStand(w, fs, e);
    } else if forall p, r :: Recorded(m.summarySha.rows, p, r) <==> Lists(m.entries, p, r) {
      forall e | e in m.entries && FilesStand(w, fs, e)
        ensures EntryVerified(w, fs, rows, w.intent in fs, e)
      {
        assert Lists(m.entries, e.pair, e.original);
      }
      forall p | p in rows && rows[p].Some? ensures exists e :: e in m.entries && e.pair == p {
        assert Recorded(m.summarySha.rows, p, rows[p].value);
      }
    }
  }

  /** With one row to a pair, an accepted manifest's entries are one to one the rows that have a report. */
  lemma OneToOne(w: Site, fs: Files)
    requires Passes(w, fs)
    requires var rows := fs[w.manifest].summarySha.rows;
      forall i, j | 0 <= i < j < |rows| :: rows[i].pair != rows[j].pair
    ensures var m := fs[w.manifest];
      && (set e | e in m.entries :: (e.pair, Some(e.original)))
         == (set r | r in m.summarySha.rows && r.report.Some? :: (r.pair, r.report))
      && |(set e | e in m.entries :: (e.pair, Some(e.original)))| == |m.entries|
  {
    var m := fs[w.manifest];
    var rows := m.summarySha.rows;
    PassesMeans(w, fs);
    forall e | e in m.entries
      ensures exists r :: r in rows && r.pair == e.pair && r.report == Some(e.original)
    {
      assert Lists(m.entries, e.pair, e.original);
      var i :| LastRow(rows, e.pair, i) && rows[i].report == Some(e.original);
      assert rows[i] in rows;
    }
    forall r | r in rows && r.report.Some? ensures Lists(m.entries, r.pair, r.report.value) {
      var i :| 0 <= i < |rows| && rows[i] == r;
      assert LastRow(rows, r.pair, i);
    }
    PairsCounted(m.entries);
  }

  lemma {:induction false} PairsCounted(entries: seq<Entry>)
    requires forall i, j | 0 <= i < j < |entries| :: entries[i].pair != entries[j].pair
    ensures |(set e | e in entries :: (e.pair, Some(e.original)))| == |entries|
  {
    if entries != [] {
      var n := |entries| - 1;
      PairsCounted(entries[..n]);
      var last := (entries[n].pair, Some(entries[n].original));
      assert entries == entries[..n] + [entries[n]];
      assert last !in (set e | e in entries[..n] :: (e.pair, Some(e.original)));
      assert (set e | e in entries :: (e.pair, Some(e.original)))
        == (set e | e in entries[..n] :: (e.pair, Some(e.original))) + {last};
    }
  }

  /** No record can hold its own digest, so no removal can hit the manifest or the summary. */
  lemma RecordsAreSafe(w: Site, fs: Files, i: nat)
    requires Passes(w, fs) && i < |fs[w.manifest].entries|
    ensures fs[w.manifest].entries[i].original.path != w.manifest
    ensures fs[w.manifest].entries[i].original.path != fs[w.manifest].summaryPath
  {
    var m := fs[w.manifest];
    var e := m.entries[i];
    assert e in m.entries;
    var c := m.summarySha;
    RowsMean(c.rows, e.pair);
    var k :| LastRow(c.rows, e.pair, k);
  }

  method Run(w: Site, files: Files) returns (ok: bool, fs: Files)
    ensures ok <==> Passes(w, files)
    ensures fs == if ok then AfterCall(w, files) else files
  {
    fs := files;
    if w.manifest !in fs || !fs[w.manifest].Manifest? || !fs[w.manifest].supported {
      return false, fs;
    }
    var m := fs[w.manifest];
    if m.summaryPath !in fs || fs[m.summaryPath] != m.summarySha || !m.summarySha.Summary? {
      return false, fs;
    }
    var resuming := w.intent in fs;
    if resuming && fs[w.intent] != Intent(m) {
      return false, fs;
    }
    var originals;
    ok, originals := VerifyEntries(w, fs, OriginalRows(m.summarySha.rows), resuming, m.entries);
    if !ok {
      return false, fs;
    }
    if !resuming {
      fs := fs[w.intent := Intent(m)];
    }
    ghost var started := fs;
    assert originals == Originals(m);
    for k := 0 to |originals|
      invariant fs == started - (set p | p in originals[..k])
    {
      fs := fs - {originals[k]};
      assert originals[..k + 1] == originals[..k] + [originals[k]];
    }
    assert originals[..|originals|] == originals;
    assert w.manifest in fs by {
      if w.manifest in originals {
        var i :| 0 <= i < |originals| && originals[i] == w.manifest;
        RecordsAreSafe(w, files, i);
      }
    }
    if w.receipt !in fs {
      fs := fs[w.receipt := Receipt(fs[w.manifest], |originals|)];
    }
  }

  // ---------- calls that may die at any point ----------

  datatype Pc =
    | Idle
    | Checked(m: Content, resuming: bool)
    | Removing(m: Content, k: nat)
    | Finished

  datatype State = State(fs: Files, pc: Pc)

  /** A call reads and checks everything; a refusal changes nothing. */
  ghost predicate Check(w: Site, s: State, s': State) {
    && s.pc == Idle
    && if Passes(w, s.fs) then s' == s.(pc := Checked(s.fs[w.manifest], w.intent in s.fs)) else s' == s
  }

  /** The intent is linked into place, unless the call resumes an earlier one. */
  ghost predicate Declare(w: Site, s: State, s': State) {
    && s.pc.Checked?
    && if s.pc.resuming then s' == s.(pc := Removing(s.pc.m, 0))
       else w.intent !in s.fs && s' == State(s.fs[w.intent := Intent(s.pc.m)], Removing(s.pc.m, 0))
  }

  /** One original is removed, whether or not it is still there. */
  ghost predicate Remove(s: State, s': State) {
    && s.pc.Removing? && s.pc.m.Manifest? && s.pc.k < |s.pc.m.entries|
    && s' == State(s.fs - {s.pc.m.entries[s.pc.k].original.path}, Removing(s.pc.m, s.pc.k + 1))
  }

  /** The receipt is linked into place, unless it is there. */
  ghost predicate Certify(w: Site, s: State, s': State) {
    && s.pc.Removing? && s.pc.m.Manifest? && s.pc.k == |s.pc.m.entries| && w.manifest in s.fs
    && var fs := if w.receipt in s.fs then s.fs
                 else s.fs[w.receipt := Receipt(s.fs[w.manifest], |s.pc.m.entries|)];
    s' == State(fs, Finished)
  }

  /** The process dies, or a finished one is forgotten; the files stay. */
  ghost predicate Die(s: State, s': State) {
    s' == s.(pc := Idle)
  }

  ghost predicate Next(w: Site, s: State, s': State) {
    Check(w, s, s') || Declare(w, s, s') || Remove(s, s') || Certify(w, s, s') || Die(s, s')
  }

  /** A capture that has just been compacted: no intent and no receipt yet. */
  ghost predicate Fresh(w: Site, fs: Files) {
    && w.manifest != w.intent && w.manifest != w.receipt && w.intent != w.receipt
    && w.intent !in fs && w.receipt !in fs && Passes(w, fs)
  }

  ghost predicate IsRun(w: Site, fs: Files, run: seq<State>) {
    && |run| > 0 && run[0] == State(fs, Idle)
    && forall k | 0 < k < |run| :: Next(w, run[k - 1], run[k])
  }

  // ---------- what is promised ----------

  ghost predicate IsOriginal(m: Content, p: Path) {
    m.Manifest? && exists e :: e in m.entries && e.original.path == p
  }

  /** An original is missing only if the intent for this manifest and its verified compact copy are there. */
  ghost predicate Covered(w: Site, m: Content, fs: Files) {
    m.Manifest? &&
    forall e | e in m.entries && e.original.path !in fs ::
      && w.intent in fs && fs[w.intent] == Intent(m)
      && e.compactPath in fs && fs[e.compactPath] == e.compactSha
  }

  /** A receipt names this manifest and the number of its entries, and no original remains. */
  ghost predicate ReceiptTrue(w: Site, m: Content, fs: Files) {
    m.Manifest? &&
    (w.receipt in fs ==>
       fs[w.receipt] == Receipt(m, |m.entries|) && forall e | e in m.entries :: e.original.path !in fs)
  }

  ghost predicate RunKeeps(w: Site, m: Content, run: seq<State>) {
    forall k | 0 <= k < |run| :: Covered(w, m, run[k].fs) && Passes(w, run[k].fs)
  }

  /** No original lies where a compact copy lies. */
  ghost predicate Separate(m: Content) {
    m.Manifest? && forall e, f | e in m.entries && f in m.entries :: e.original.path != f.compactPath
  }

  // ---------- the invariant ----------

  /** Everything but the originals, the intent and the receipt is as it was; an original is as it was or gone. */
  ghost predicate Untouched(w: Site, fs0: Files, m: Content, fs: Files) {
    forall p | p != w.intent && p != w.receipt ::
      && (p in fs ==> p in fs0 && fs[p] == fs0[p])
      && (p in fs0 && !IsOriginal(m, p) ==> p in fs)
  }

  ghost predicate IntentFirst(w: Site, m: Content, fs: Files) {
    && (w.intent in fs ==> fs[w.intent] == Intent(m))
    && (w.intent !in fs ==> forall p | IsOriginal(m, p) :: p in fs)
  }

  ghost predicate PcRight(w: Site, m: Content, s: State) {
    match s.pc
    case Idle => true
    case Checked(n, resuming) => n == m && (resuming <==> w.intent in s.fs)
    case Removing(n, k) =>
      n == m && m.Manifest? && w.intent in s.fs && k <= |m.entries|
      && forall i | 0 <= i < k :: m.entries[i].original.path !in s.fs
    case Finished => w.receipt in s.fs
  }

  ghost predicate Inv(w: Site, fs0: Files, s: State) {
    && Fresh(w, fs0)
    && var m := fs0[w.manifest];
    && Untouched(w, fs0, m, s.fs) && IntentFirst(w, m, s.fs) && ReceiptTrue(w, m, s.fs) && PcRight(w, m, s)
    && (w.receipt in s.fs ==> w.intent in s.fs)
  }

  /** In a fresh capture the originals are files apart from the fixed paths. */
  lemma OriginalsAre(w: Site, fs0: Files, p: Path)
    requires Fresh(w, fs0) && IsOriginal(fs0[w.manifest], p)
    ensures p in fs0 && p != w.intent && p != w.receipt && p != w.manifest && p != fs0[w.manifest].summaryPath
  {
    var m := fs0[w.manifest];
    var e :| e in m.entries && e.original.path == p;
    var i :| 0 <= i < |m.entries| && m.entries[i] == e;
    RecordsAreSafe(w, fs0, i);
    assert EntryVerified(w, fs0, OriginalRows(m.summarySha.rows), false, e);
  }

  lemma ManifestStays(w: Site, fs0: Files, s: State)
    requires Inv(w, fs0, s)
    ensures w.manifest in s.fs && s.fs[w.manifest] == fs0[w.manifest]
  {
    if IsOriginal(fs0[w.manifest], w.manifest) {
      OriginalsAre(w, fs0, w.manifest);
    }
  }

  lemma RemovePc(w: Site, m: Content, s: State, s': State)
    requires m.Manifest? && PcRight(w, m, s) && Remove(s, s') && s.pc.m.entries[s.pc.k].original.path != w.intent
    ensures PcRight(w, m, s')
  {}

  lemma RemoveInv(w: Site, fs0: Files, s: State, s': State)
    requires Inv(w, fs0, s) && Remove(s, s')
    ensures Inv(w, fs0, s')
  {
    var m := fs0[w.manifest];
    var e := m.entries[s.pc.k];
    var p := e.original.path;
    assert e in m.entries;
    OriginalsAre(w, fs0, p);
    RemovePc(w, m, s, s');
  }

  lemma DeclareInv(w: Site, fs0: Files, s: State, s': State)
    requires Inv(w, fs0, s) && Declare(w, s, s')
    ensures Inv(w, fs0, s')
  {
    var m := fs0[w.manifest];
    forall e | e in m.entries ensures e.original.path != w.intent {
      OriginalsAre(w, fs0, e.original.path);
    }
  }

  lemma CertifyInv(w: Site, fs0: Files, s: State, s': State)
    requires Inv(w, fs0, s) && Certify(w, s, s')
    ensures Inv(w, fs0, s')
  {
    var m := fs0[w.manifest];
    ManifestStays(w, fs0, s);
    forall e | e in m.entries ensures e.original.path !in s.fs && e.original.path != w.receipt {
      OriginalsAre(w, fs0, e.original.path);
      var i :| 0 <= i < |m.entries| && m.entries[i] == e;
    }
  }

  lemma NextInv(w: Site, fs0: Files, s: State, s': State)
    requires Inv(w, fs0, s) && Next(w, s, s')
    ensures Inv(w, fs0, s')
  {
    if Declare(w, s, s') {
      DeclareInv(w, fs0, s, s');
    } else if Remove(s, s') {
      RemoveInv(w, fs0, s, s');
    } else if Certify(w, s, s') {
      CertifyInv(w, fs0, s, s');
    } else {
      ManifestStays(w, fs0, s);
    }
  }

  lemma {:induction false} RunInv(w: Site, fs0: Files, run: seq<State>, k: nat)
    requires Fresh(w, fs0) && IsRun(w, fs0, run) && k < |run|
    ensures Inv(w, fs0, run[k])
  {
    if k == 0 {
      forall p | IsOriginal(fs0[w.manifest], p) ensures p in fs0 {
        OriginalsAre(w, fs0, p);
      }
    } else {
      RunInv(w, fs0, run, k - 1);
      NextInv(w, fs0, run[k - 1], run[k]);
    }
  }

  // ---------- the theorems ----------

  /** Whenever it is started again, a call passes every check, and it is safe to have removed what is gone. */
  lemma StillPasses(w: Site, fs0: Files, s: State)
    requires Inv(w, fs0, s) && Separate(fs0[w.manifest])
    ensures Passes(w, s.fs) && Covered(w, fs0[w.manifest], s.fs)
  {
    var m := fs0[w.manifest];
    ManifestStays(w, fs0, s);
    if IsOriginal(m, m.summaryPath) {
      OriginalsAre(w, fs0, m.summaryPath);
    }
    forall e | e in m.entries
      ensures EntryVerified(w, s.fs, OriginalRows(m.summarySha.rows), w.intent in s.fs, e)
      ensures e.original.path !in s.fs ==> w.intent in s.fs
    {
      assert IsOriginal(m, e.original.path);
    }
  }

  /** The disk after a call, path by path. */
  lemma AfterCallAt(w: Site, fs: Files, p: Path)
    requires w.manifest in fs && fs[w.manifest].Manifest? && w.intent != w.receipt
    requires forall e | e in fs[w.manifest].entries :: e.original.path != w.intent && e.original.path != w.receipt
    ensures var m := fs[w.manifest];
      var after := AfterCall(w, fs);
      && (p in after <==> p == w.intent || p == w.receipt || (p in fs && !IsOriginal(m, p)))
      && (p in after ==>
        after[p] == if p in fs then fs[p] else if p == w.intent then Intent(m) else Receipt(m, |m.entries|))
  {
    var m := fs[w.manifest];
    forall q ensures q in Originals(m) <==> IsOriginal(m, q) {
      OriginalsListed(m, q);
    }
  }

  lemma OriginalsListed(m: Content, p: Path)
    requires m.Manifest?
    ensures p in Originals(m) <==> IsOriginal(m, p)
  {
    if p in Originals(m) {
      var i :| 0 <= i < |m.entries| && Originals(m)[i] == p;
      assert m.entries[i] in m.entries;
    }
    if e :| e in m.entries && e.original.path == p {
      var i :| 0 <= i < |m.entries| && m.entries[i] == e;
      assert Originals(m)[i] == p;
    }
  }

  /** However often a call was killed, one more that is not, if its checks pass, leaves
      exactly what the first would have left. */
  lemma RerunCompletes(w: Site, fs0: Files, s: State)
    requires Inv(w, fs0, s)
    ensures w.manifest in s.fs && s.fs[w.manifest].Manifest? && AfterCall(w, s.fs) == AfterCall(w, fs0)
  {
    ManifestStays(w, fs0, s);
    var m := fs0[w.manifest];
    forall e | e in m.entries ensures e.original.path != w.intent && e.original.path != w.receipt {
      OriginalsAre(w, fs0, e.original.path);
    }
    forall p
      ensures p in AfterCall(w, s.fs) <==> p in AfterCall(w, fs0)
      ensures p in AfterCall(w, s.fs) ==> AfterCall(w, s.fs)[p] == AfterCall(w, fs0)[p]
    {
      AfterCallAt(w, s.fs, p);
      AfterCallAt(w, fs0, p);
    }
  }

  lemma ReceiptIsEnd(w: Site, fs0: Files, s: State)
    requires Inv(w, fs0, s) && w.receipt in s.fs
    ensures s.fs == AfterCall(w, fs0)
  {
    var m := fs0[w.manifest];
    RerunCompletes(w, fs0, s);
    forall p | p in Originals(m) ensures p !in s.fs {
      OriginalsListed(m, p);
    }
    assert AfterCall(w, s.fs) == s.fs;
  }

  /** Removing what is not there changes nothing. */
  lemma RemoveNothing(s: State, s': State)
    requires Remove(s, s') && s.pc.m.entries[s.pc.k].original.path !in s.fs
    ensures s'.fs == s.fs
  {}

  /** Once a receipt stands no original remains and no further call changes anything. */
  lemma ReceiptMeansDone(w: Site, fs0: Files, s: State, s': State)
    requires Inv(w, fs0, s) && w.receipt in s.fs && Next(w, s, s')
    ensures s.fs == AfterCall(w, fs0) && s'.fs == s.fs
    ensures forall e | e in fs0[w.manifest].entries :: e.original.path !in s.fs
  {
    ReceiptIsEnd(w, fs0, s);
    if Remove(s, s') {
      assert s.pc.m.entries[s.pc.k] in fs0[w.manifest].entries;
      RemoveNothing(s, s');
    }
  }

  // ---------- the converse ----------

  /** The run that is never killed, up to the last removal. */
  function Undisturbed(w: Site, fs: Files): (run: seq<State>)
    requires w.manifest in fs && fs[w.manifest].Manifest?
  {
    var m := fs[w.manifest];
    var started := fs[w.intent := Intent(m)];
    [State(fs, Idle), State(fs, Checked(m, false))]
    + seq(|m.entries| + 1, k requires 0 <= k <= |m.entries| =>
        State(started - (set p | p in Originals(m)[..k]), Removing(m, k)))
  }

  lemma UndisturbedIsRun(w: Site, fs: Files)
    requires Fresh(w, fs)
    ensures IsRun(w, fs, Undisturbed(w, fs))
  {
    var m := fs[w.manifest];
    var run := Undisturbed(w, fs);
    assert Check(w, run[0], run[1]);
    assert Originals(m)[..0] == [];
    assert run[2].fs == fs[w.intent := Intent(m)];
    assert Declare(w, run[1], run[2]);
    forall k | 2 < k < |run| ensures Next(w, run[k - 1], run[k]) {
      assert Originals(m)[..k - 2] == Originals(m)[..k - 3] + [Originals(m)[k - 3]];
      assert run[k].fs == run[k - 1].fs - {Originals(m)[k - 3]};
      assert Remove(run[k - 1], run[k]);
    }
  }

  function AllRemoved(w: Site, fs: Files): Files
    requires w.manifest in fs && fs[w.manifest].Manifest?
  {
    var m := fs[w.manifest];
    fs[w.intent := Intent(m)] - (set p | p in Originals(m))
  }

  lemma UndisturbedEnds(w: Site, fs: Files)
    requires w.manifest in fs && fs[w.manifest].Manifest?
    ensures var run := Undisturbed(w, fs); run != [] && run[|run| - 1].fs == AllRemoved(w, fs)
  {
    var m := fs[w.manifest];
    assert Originals(m)[..|m.entries|] == Originals(m);
  }

  lemma NoneLeft(w: Site, fs: Files, p: Path)
    requires Fresh(w, fs) && IsOriginal(fs[w.manifest], p)
    ensures p !in AllRemoved(w, fs)
  {
    OriginalsListed(fs[w.manifest], p);
    OriginalsAre(w, fs, p);
  }

  lemma UndisturbedIsWrong(w: Site, fs: Files, e: Entry, f: Entry)
    requires Fresh(w, fs) && e in fs[w.manifest].entries && f in fs[w.manifest].entries
    requires e.original.path == f.compactPath
    ensures !RunKeeps(w, fs[w.manifest], Undisturbed(w, fs))
    ensures var run := Undisturbed(w, fs); run != [] && !Passes(w, run[|run| - 1].fs)
  {
    hide Undisturbed, AllRemoved, EntryVerified, Inv;
    var run := Undisturbed(w, fs);
    var last := |run| - 1;
    UndisturbedEnds(w, fs);
    UndisturbedIsRun(w, fs);
    assert IsOriginal(fs[w.manifest], e.original.path) && IsOriginal(fs[w.manifest], f.original.path);
    NoneLeft(w, fs, e.original.path);
    RunInv(w, fs, run, last);
    ManifestStays(w, fs, run[last]);
    CopyGone(w, run[last].fs, f);
  }

  /** Without a compact copy the checks fail. */
  lemma CopyGone(w: Site, fs: Files, f: Entry)
    requires w.manifest in fs && fs[w.manifest].Manifest? && f in fs[w.manifest].entries && f.compactPath !in fs
    ensures !Passes(w, fs)
  {
    assert !exists rows, resuming :: EntryVerified(w, fs, rows, resuming, f);
  }

  /** Of a fresh capture, every run with any number of crashes removes originals only
      under a declared intent and a standing copy, and passes its checks whenever it
      is started, exactly when no original lies where a compact copy lies. */
  lemma SafeExactlyWhenSeparate(w: Site, fs: Files)
    requires Fresh(w, fs)
    ensures Separate(fs[w.manifest]) <==> (forall run :: IsRun(w, fs, run) ==> RunKeeps(w, fs[w.manifest], run))
  {
    var m := fs[w.manifest];
    if Separate(m) {
      forall run: seq<State>, k | IsRun(w, fs, run) && 0 <= k < |run|
        ensures Covered(w, m, run[k].fs) && Passes(w, run[k].fs)
      {
        RunInv(w, fs, run, k);
        StillPasses(w, fs, run[k]);
      }
    } else {
      var e, f :| e in m.entries && f in m.entries && e.original.path == f.compactPath;
      UndisturbedIsRun(w, fs);
      UndisturbedIsWrong(w, fs, e, f);
    }
  }

  /** At this moment an undisturbed call passes its checks and leaves what the first would have left. */
  ghost predicate Completes(w: Site, fs0: Files, fs: Files)
    requires w.manifest in fs0 && fs0[w.manifest].Manifest?
  {
    Passes(w, fs) && AfterCall(w, fs) == AfterCall(w, fs0)
  }

  /** Of a fresh capture, at every moment of every run one undisturbed call completes,
      exactly when no original lies where a compact copy lies. */
  lemma CompletesExactlyWhenSeparate(w: Site, fs: Files)
    requires Fresh(w, fs)
    ensures Separate(fs[w.manifest])
      <==> (forall run: seq<State>, k | IsRun(w, fs, run) && 0 <= k < |run| :: Completes(w, fs, run[k].fs))
  {
    var m := fs[w.manifest];
    if Separate(m) {
      forall run: seq<State>, k | IsRun(w, fs, run) && 0 <= k < |run| ensures Completes(w, fs, run[k].fs) {
        RunInv(w, fs, run, k);
        StillPasses(w, fs, run[k]);
        RerunCompletes(w, fs, run[k]);
      }
    } else {
      var e, f :| e in m.entries && f in m.entries && e.original.path == f.compactPath;
      UndisturbedIsRun(w, fs);
      UndisturbedIsWrong(w, fs, e, f);
      var run := Undisturbed(w, fs);
      assert !Completes(w, fs, run[|run| - 1].fs);
    }
  }

  /** A fresh capture whose one original is its own compact copy: the checks do not
      exclude it, and after the removal they refuse it. */
  lemma OneFileForBoth() returns (w: Site, fs: Files)
    ensures Fresh(w, fs) && !Separate(fs[w.manifest])
    ensures exists run :: IsRun(w, fs, run) && !RunKeeps(w, fs[w.manifest], run)
    ensures exists run: seq<State>, k :: IsRun(w, fs, run) && 0 <= k < |run| && !Completes(w, fs, run[k].fs)
  {
    var report := Report(5, Raw([]));
    var summary := Summary([Row(0, Some(report))]);
    var e := Entry(0, report, 5, Raw([]));
    var m := Manifest(true, 1, summary, [e]);
    w, fs := Site(0, 2, 3, {5}, {5}), map[0 := m, 1 := summary, 5 := Raw([])];
    var rows := OriginalRows(summary.rows);
    assert rows == map[0 := Some(report)] by {
      assert OriginalRows(summary.rows[..0]) == map[];
    }
    assert EntryVerified(w, fs, rows, false, e);
    assert e in m.entries;
    SafeExactlyWhenSeparate(w, fs);
    CompletesExactlyWhenSeparate(w, fs);
  }

  /** In any run of a fresh capture a receipt is true and final, and the disk is always one
      whose completion, if the checks still pass, is the same. */
  lemma RunsEndAlike(w: Site, fs: Files, run: seq<State>, k: nat)
    requires Fresh(w, fs) && IsRun(w, fs, run) && k < |run|
    ensures ReceiptTrue(w, fs[w.manifest], run[k].fs)
    ensures w.manifest in run[k].fs && run[k].fs[w.manifest].Manifest? && AfterCall(w, run[k].fs) == AfterCall(w, fs)
    ensures run[k].pc.Finished? || w.receipt in run[k].fs ==> run[k].fs == AfterCall(w, fs)
  {
    RunInv(w, fs, run, k);
    RerunCompletes(w, fs, run[k]);
    if w.receipt in run[k].fs {
      ReceiptIsEnd(w, fs, run[k]);
    }
  }

  // ---------- finishing ----------

  /** A step of the program itself, not its death. */
  ghost predicate Works(w: Site, s: State, s': State) {
    Check(w, s, s') || Declare(w, s, s') || Remove(s, s') || Certify(w, s, s')
  }

  /** The run goes on by steps of the program itself. */
  ghost predicate Continues(w: Site, run: seq<State>) {
    |run| > 0 && forall k | 0 < k < |run| :: Works(w, run[k - 1], run[k])
  }

  /** Calling the program on a state it can pass, it removes what is left and certifies. */
  lemma {:induction false} RestRemoved(w: Site, fs0: Files, s: State) returns (run: seq<State>)
    requires Inv(w, fs0, s) && s.pc.Removing?
    ensures Continues(w, run) && run[0] == s && run[|run| - 1] == State(AfterCall(w, fs0), Finished)
    decreases |fs0[w.manifest].entries| - s.pc.k
  {
    hide Untouched, IntentFirst, ReceiptTrue, AfterCall;
    var m := fs0[w.manifest];
    ManifestStays(w, fs0, s);
    if s.pc.k == |m.entries| {
      var fs := if w.receipt in s.fs then s.fs else s.fs[w.receipt := Receipt(s.fs[w.manifest], |m.entries|)];
      var s' := State(fs, Finished);
      assert Certify(w, s, s');
      CertifyInv(w, fs0, s, s');
      ReceiptIsEnd(w, fs0, s');
      run := [s, s'];
    } else {
      var s' := State(s.fs - {m.entries[s.pc.k].original.path}, Removing(m, s.pc.k + 1));
      assert Remove(s, s');
      RemoveInv(w, fs0, s, s');
      var rest := RestRemoved(w, fs0, s');
      run := [s] + rest;
    }
  }

  lemma FromTheStart(w: Site, fs0: Files, s: State) returns (run: seq<State>)
    requires Inv(w, fs0, s) && s.pc == Idle && Separate(fs0[w.manifest])
    ensures Continues(w, run) && run[0] == s && run[|run| - 1] == State(AfterCall(w, fs0), Finished)
  {
    hide Untouched, IntentFirst, ReceiptTrue, AfterCall, PcRight;
    StillPasses(w, fs0, s);
    ManifestStays(w, fs0, s);
    var m := fs0[w.manifest];
    var checked := s.(pc := Checked(m, w.intent in s.fs));
    assert Check(w, s, checked);
    NextInv(w, fs0, s, checked);
    var started := State(if w.intent in s.fs then s.fs else s.fs[w.intent := Intent(m)], Removing(m, 0));
    assert Declare(w, checked, started);
    DeclareInv(w, fs0, checked, started);
    var rest := RestRemoved(w, fs0, started);
    run := [s, checked] + rest;
  }

  /** Wherever a run of a fresh capture was cut off, one call that is not killed ends with every original
      removed and the receipt written, where no original lies where a compact copy lies. */
  lemma CanFinish(w: Site, fs: Files, run: seq<State>)
    requires Fresh(w, fs) && IsRun(w, fs, run) && Separate(fs[w.manifest])
    ensures var s := State(run[|run| - 1].fs, Idle);
      exists rest :: Continues(w, rest) && rest[0] == s && rest[|rest| - 1] == State(AfterCall(w, fs), Finished)
    ensures forall e | e in fs[w.manifest].entries :: e.original.path !in AfterCall(w, fs)
    ensures w.receipt in AfterCall(w, fs)
  {
    var s := State(run[|run| - 1].fs, Idle);
    RunInv(w, fs, run, |run| - 1);
    NextInv(w, fs, run[|run| - 1], s);
    var rest := FromTheStart(w, fs, s);
    RunInv(w, fs, run, 0);
    forall e | e in fs[w.manifest].entries
      ensures e.original.path !in AfterCall(w, fs) && w.receipt in AfterCall(w, fs)
    {
      OriginalsAre(w, fs, e.original.path);
      OriginalsListed(fs[w.manifest], e.original.path);
    }
  }

  /** If the checks fail at first nothing is ever changed. */
  lemma {:induction false} RefusalKeepsAll(w: Site, fs: Files, run: seq<State>, k: nat)
    requires IsRun(w, fs, run) && k < |run|
    ensures !Passes(w, fs) ==> run[k] == State(fs, Idle)
  {
    if k > 0 && !Passes(w, fs) {
      RefusalKeepsAll(w, fs, run, k - 1);
      assert Next(w, run[k - 1], run[k]);
    }
  }
}
