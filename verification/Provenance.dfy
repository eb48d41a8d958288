/** The manifest check against split contamination: one pass that fills five maps, from
    keys to the split or the use they are bound to, accepts exactly the manifests whose
    rows are valid and agree pairwise, in whatever order they come. */
module Provenance {
  import opened Basics

  datatype TuningUse = Unused | UsedForFix

  datatype Entry = Entry(pairId: string, split: string, series: string, derivation: string,
                         family: string, version: string, tuningUse: TuningUse, oldSha: string, newSha: string)

  datatype Fault = DuplicatePair | InvalidSplit | BlankField | FixedHoldout | SeriesCrosses | DerivationCrosses
                 | ProducerCrosses | HashCrossesSplit | HashCrossesGroup

  datatype Verdict = Accepted | Rejected(fault: Fault)

  /** Unicode White_Space. */
  predicate IsSpace(c: char) {
    var n := c as int;
    0x09 <= n <= 0x0D || n == 0x20 || n == 0x85 || n == 0xA0 || n == 0x1680 || 0x2000 <= n <= 0x200A
    || n == 0x2028 || n == 0x2029 || n == 0x202F || n == 0x205F || n == 0x3000
  }

  /** Nothing is left after trimming. */
  predicate IsBlank(s: string) {
    forall i | 0 <= i < |s| :: IsSpace(s[i])
  }

  /** Equal when ASCII letters are compared without case. */
  predicate SameIgnoringCase(a: string, b: string) {
    |a| == |b| && forall i | 0 <= i < |a| :: AsciiLower(a[i]) == AsciiLower(b[i])
  }

  /** The code points with the property White_Space. */
  const WHITE_SPACE: set<int> := {
    0x09, 0x0A, 0x0B, 0x0C, 0x0D, 0x20, 0x85, 0xA0, 0x1680, 0x2000, 0x2001, 0x2002, 0x2003, 0x2004, 0x2005, 0x2006,
    0x2007, 0x2008, 0x2009, 0x200A, 0x2028, 0x2029, 0x202F, 0x205F, 0x3000 }

  ghost function TrimmedStart(s: string): string {
    if s != [] && s[0] as int in WHITE_SPACE then TrimmedStart(s[1..]) else s
  }

  ghost function TrimmedEnd(s: string): string {
    if s != [] && s[|s| - 1] as int in WHITE_SPACE then TrimmedEnd(s[..|s| - 1]) else s
  }

  lemma SpaceMeans(c: char)
    ensures IsSpace(c) <==> c as int in WHITE_SPACE
  {}

  lemma {:induction false} TrimmedStartIs(s: string)
    ensures IsBlank(s) <==> TrimmedStart(s) == []
    ensures IsBlank(s) <==> IsBlank(TrimmedStart(s))
  {
    hide IsSpace;
    if s != [] {
      SpaceMeans(s[0]);
      if IsSpace(s[0]) {
        TrimmedStartIs(s[1..]);
        assert s == [s[0]] + s[1..];
      }
    }
  }

  /** A field is blank exactly when trimming it leaves nothing. */
  lemma BlankMeans(s: string)
    ensures IsBlank(s) <==> TrimmedEnd(TrimmedStart(s)) == []
  {
    TrimmedStartIs(s);
    SomethingKept(TrimmedStart(s));
    FrontKept(s);
  }

  /** Trimming the end stops at what is no space, so a front that is none stays. */
  lemma {:induction false} SomethingKept(s: string)
    ensures s != [] && s[0] as int !in WHITE_SPACE ==> TrimmedEnd(s) != []
    ensures s == [] ==> TrimmedEnd(s) == []
  {
    if |s| > 1 {
      SomethingKept(s[..|s| - 1]);
    }
  }

  lemma {:induction false} FrontKept(s: string)
    ensures TrimmedStart(s) != [] ==> TrimmedStart(s)[0] as int !in WHITE_SPACE
  {
    if s != [] && s[0] as int in WHITE_SPACE {
      FrontKept(s[1..]);
    }
  }

  /** Two names are the same but for case exactly when they differ at most in the case of letters. */
  lemma IgnoringCaseMeans(a: string, b: string)
    ensures SameIgnoringCase(a, b) <==>
      |a| == |b| && forall i | 0 <= i < |a| :: a[i] == b[i] || TwoCases(a[i], b[i])
  {
    hide AsciiLower;
    if |a| == |b| {
      forall i | 0 <= i < |a|
        ensures AsciiLower(a[i]) == AsciiLower(b[i]) <==> a[i] == b[i] || TwoCases(a[i], b[i])
      {
        FoldMeans(a[i], b[i]);
      }
    }
  }

  predicate KnownProducer(e: Entry) {
    !SameIgnoringCase(e.family, "unknown")
  }

  /** The producer is known unless its family is that one word in any case. */
  lemma KnownMeans(e: Entry)
    ensures var word := "unknown";
      KnownProducer(e) <==>
        |e.family| != |word| || exists i | 0 <= i < |word| :: e.family[i] != word[i] && !TwoCases(e.family[i], word[i])
  {
    IgnoringCaseMeans(e.family, "unknown");
  }

  predicate RowValid(e: Entry) {
    && e.split in ["dev", "holdout"] && !IsBlank(e.series) && !IsBlank(e.derivation)
    && !(e.split == "holdout" && e.tuningUse == UsedForFix)
  }

  predicate SharesHash(e: Entry, f: Entry) {
    e.oldSha == f.oldSha || e.oldSha == f.newSha || e.newSha == f.oldSha || e.newSha == f.newSha
  }

  /** Two rows leak nothing across the splits. */
  predicate Agree(e: Entry, f: Entry) {
    && (e.series == f.series ==> e.split == f.split)
    && (e.derivation == f.derivation ==> e.split == f.split)
    && (KnownProducer(e) && KnownProducer(f) && e.family == f.family && e.version == f.version ==> e.split == f.split)
    && (SharesHash(e, f) ==> e.split == f.split && e.derivation == f.derivation)
  }

  ghost predicate PairsAgree(entries: seq<Entry>) {
    forall e, f | e in entries && f in entries :: Agree(e, f)
  }

  ghost predicate UniquePairs(entries: seq<Entry>) {
    forall i, j | 0 <= i < j < |entries| :: entries[i].pairId != entries[j].pairId
  }

  ghost predicate Clean(entries: seq<Entry>) {
    && UniquePairs(entries)
    && (forall e | e in entries :: RowValid(e))
    && PairsAgree(entries)
  }

  // ---------- facts the rows put into the maps ----------

  /** A key and the value its row gives it. */
  datatype Fact<K, V> = Fact(key: K, value: V)

  /** A row's split, or its split and derivation, under each of its keys. */
  function SeriesFacts(e: Entry): seq<Fact<string, string>> { [Fact(e.series, e.split)] }

  function DerivationFacts(e: Entry): seq<Fact<string, string>> { [Fact(e.derivation, e.split)] }

  function ProducerFacts(e: Entry): seq<Fact<(string, string), string>> {
    if KnownProducer(e) then [Fact((e.family, e.version), e.split)] else []
  }

  function HashFacts(e: Entry): seq<Fact<string, (string, string)>> {
    [Fact(e.oldSha, (e.split, e.derivation)), Fact(e.newSha, (e.split, e.derivation))]
  }

  ghost function FactsOf<K, V>(entries: seq<Entry>, row: Entry -> seq<Fact<K, V>>): seq<Fact<K, V>> {
    if entries == [] then []
    else FactsOf(entries[..|entries| - 1], row) + row(entries[|entries| - 1])
  }

  /** No key has two values. */
  ghost predicate Consistent<K(!new), V(!new)>(facts: seq<Fact<K, V>>) {
    forall x, y | x in facts && y in facts && x.key == y.key :: x.value == y.value
  }

  /** Every two rows give the keys they share the same values. */
  ghost predicate RowsAgree<K(!new), V(!new)>(entries: seq<Entry>, row: Entry -> seq<Fact<K, V>>) {
    forall e, f, x, y | e in entries && f in entries && x in row(e) && y in row(f) && x.key == y.key ::
      x.value == y.value
  }

  lemma {:induction false} FactFromRow<K, V>(entries: seq<Entry>, row: Entry -> seq<Fact<K, V>>, x: Fact<K, V>)
    ensures x in FactsOf(entries, row) <==> exists e :: e in entries && x in row(e)
  {
    if entries != [] {
      var n := |entries| - 1;
      FactFromRow(entries[..n], row, x);
      assert entries == entries[..n] + [entries[n]];
    }
  }

  lemma ConsistentIsAgreement<K(!new), V(!new)>(entries: seq<Entry>, row: Entry -> seq<Fact<K, V>>)
    ensures Consistent(FactsOf(entries, row)) <==> RowsAgree(entries, row)
  {
    forall x ensures x in FactsOf(entries, row) <==> exists e :: e in entries && x in row(e) {
      FactFromRow(entries, row, x);
    }
  }

  predicate SameProducer(e: Entry, f: Entry) {
    KnownProducer(e) && KnownProducer(f) && e.family == f.family && e.version == f.version
  }

  ghost predicate SeriesApart(entries: seq<Entry>) {
    forall e, f | e in entries && f in entries && e.series == f.series :: e.split == f.split
  }

  ghost predicate DerivationsApart(entries: seq<Entry>) {
    forall e, f | e in entries && f in entries && e.derivation == f.derivation :: e.split == f.split
  }

  ghost predicate ProducersApart(entries: seq<Entry>) {
    forall e, f | e in entries && f in entries && SameProducer(e, f) :: e.split == f.split
  }

  ghost predicate HashesApart(entries: seq<Entry>) {
    forall e, f | e in entries && f in entries && SharesHash(e, f) :: e.split == f.split && e.derivation == f.derivation
  }

  lemma SeriesPairwise(entries: seq<Entry>)
    ensures RowsAgree(entries, SeriesFacts) <==> SeriesApart(entries)
  {
    forall e, f | RowsAgree(entries, SeriesFacts) && e in entries && f in entries && e.series == f.series
      ensures e.split == f.split
    {
      assert Fact(e.series, e.split) in SeriesFacts(e) && Fact(f.series, f.split) in SeriesFacts(f);
    }
  }

  lemma DerivationPairwise(entries: seq<Entry>)
    ensures RowsAgree(entries, DerivationFacts) <==> DerivationsApart(entries)
  {
    forall e, f | RowsAgree(entries, DerivationFacts) && e in entries && f in entries && e.derivation == f.derivation
      ensures e.split == f.split
    {
      assert Fact(e.derivation, e.split) in DerivationFacts(e) && Fact(f.derivation, f.split) in DerivationFacts(f);
    }
  }

  lemma ProducerPairwise(entries: seq<Entry>)
    ensures RowsAgree(entries, ProducerFacts) <==> ProducersApart(entries)
  {
    forall e, f | RowsAgree(entries, ProducerFacts) && e in entries && f in entries && SameProducer(e, f)
      ensures e.split == f.split
    {
      assert Fact((e.family, e.version), e.split) in ProducerFacts(e);
      assert Fact((f.family, f.version), f.split) in ProducerFacts(f);
    }
  }

  lemma HashPairwise(entries: seq<Entry>)
    ensures RowsAgree(entries, HashFacts) <==> HashesApart(entries)
  {
    forall e, f | RowsAgree(entries, HashFacts) && e in entries && f in entries && SharesHash(e, f)
      ensures e.split == f.split && e.derivation == f.derivation
    {
      var u, v := (e.split, e.derivation), (f.split, f.derivation);
      assert HashFacts(e)[0] in HashFacts(e) && HashFacts(e)[1] in HashFacts(e);
      assert HashFacts(f)[0] in HashFacts(f) && HashFacts(f)[1] in HashFacts(f);
      assert u == v;
    }
  }

  lemma PairsMeanApart(entries: seq<Entry>)
    requires PairsAgree(entries)
    ensures SeriesApart(entries) && DerivationsApart(entries) && ProducersApart(entries) && HashesApart(entries)
  {
    forall e, f | e in entries && f in entries
      ensures (e.series == f.series ==> e.split == f.split) && (e.derivation == f.derivation ==> e.split == f.split)
      ensures SameProducer(e, f) ==> e.split == f.split
      ensures SharesHash(e, f) ==> e.split == f.split && e.derivation == f.derivation
    {
      assert Agree(e, f);
    }
  }

  lemma ApartMeansPairs(entries: seq<Entry>)
    requires SeriesApart(entries) && DerivationsApart(entries) && ProducersApart(entries) && HashesApart(entries)
    ensures PairsAgree(entries)
  {
    forall e, f | e in entries && f in entries ensures Agree(e, f) {
      assert SameProducer(e, f) ==> e.split == f.split;
    }
  }

  ghost predicate AllAgree(entries: seq<Entry>) {
    && RowsAgree(entries, SeriesFacts) && RowsAgree(entries, DerivationFacts)
    && RowsAgree(entries, ProducerFacts) && RowsAgree(entries, HashFacts)
  }

  lemma AgreementIsPairwise(entries: seq<Entry>)
    ensures PairsAgree(entries) <==> AllAgree(entries)
  {
    hide RowsAgree, PairsAgree, SeriesApart, DerivationsApart, ProducersApart, HashesApart;
    SeriesPairwise(entries);
    DerivationPairwise(entries);
    ProducerPairwise(entries);
    HashPairwise(entries);
    if AllAgree(entries) {
      ApartMeansPairs(entries);
    }
    if PairsAgree(entries) {
      PairsMeanApart(entries);
    }
  }

  // ---------- the maps ----------

  /** The map holds exactly these facts, so they are consistent. */
  ghost predicate Holds<K(!new), V(!new)>(m: map<K, V>, facts: seq<Fact<K, V>>) {
    && (forall x | x in facts :: x.key in m && m[x.key] == x.value)
    && (forall k | k in m :: exists x :: x in facts && x.key == k)
  }

  /** Inserting replaces the value; a different old value is a conflict. */
  method Insert<K(==,!new), V(==,!new)>(m: map<K, V>, key: K, value: V, ghost facts: seq<Fact<K, V>>)
    returns (ok: bool, updated: map<K, V>)
    requires Holds(m, facts)
    ensures ok ==> Holds(updated, facts + [Fact(key, value)])
    ensures !ok ==> !Consistent(facts + [Fact(key, value)])
  {
    updated := m[key := value];
    ok := key !in m || m[key] == value;
    ghost var more := facts + [Fact(key, value)];
    assert Fact(key, value) in more;
    if ok {
      forall k | k in updated ensures exists x :: x in more && x.key == k {
        if k != key {
          var x :| x in facts && x.key == k;
          assert x in more;
        }
      }
    } else {
      ghost var x :| x in facts && x.key == key;
      assert x in more;
    }
  }

  datatype Maps = Maps(pairs: set<string>, series: map<string, string>, derivations: map<string, string>,
                       producers: map<(string, string), string>, hashes: map<string, (string, string)>)

  ghost predicate Recorded(m: Maps, seen: seq<Entry>) {
    && UniquePairs(seen) && (forall e | e in seen :: RowValid(e))
    && (forall p :: p in m.pairs <==> exists i :: 0 <= i < |seen| && seen[i].pairId == p)
    && Holds(m.series, FactsOf(seen, SeriesFacts)) && Holds(m.derivations, FactsOf(seen, DerivationFacts))
    && Holds(m.producers, FactsOf(seen, ProducerFacts)) && Holds(m.hashes, FactsOf(seen, HashFacts))
  }

  lemma HeldRowsAgree<K(!new), V(!new)>(m: map<K, V>, seen: seq<Entry>, row: Entry -> seq<Fact<K, V>>)
    requires Holds(m, FactsOf(seen, row))
    ensures RowsAgree(seen, row)
  {
    ConsistentIsAgreement(seen, row);
  }

  lemma RecordedIsClean(m: Maps, seen: seq<Entry>)
    requires Recorded(m, seen)
    ensures Clean(seen)
  {
    HeldRowsAgree(m.series, seen, SeriesFacts);
    HeldRowsAgree(m.derivations, seen, DerivationFacts);
    HeldRowsAgree(m.producers, seen, ProducerFacts);
    HeldRowsAgree(m.hashes, seen, HashFacts);
    AgreementIsPairwise(seen);
  }

  lemma CleanIsConsistent(entries: seq<Entry>)
    requires Clean(entries)
    ensures Consistent(FactsOf(entries, SeriesFacts)) && Consistent(FactsOf(entries, DerivationFacts))
    ensures Consistent(FactsOf(entries, ProducerFacts)) && Consistent(FactsOf(entries, HashFacts))
  {
    ConsistentIsAgreement(entries, SeriesFacts);
    ConsistentIsAgreement(entries, DerivationFacts);
    ConsistentIsAgreement(entries, ProducerFacts);
    ConsistentIsAgreement(entries, HashFacts);
    AgreementIsPairwise(entries);
  }

  lemma FactsMore<K, V>(seen: seq<Entry>, e: Entry, row: Entry -> seq<Fact<K, V>>)
    ensures FactsOf(seen + [e], row) == FactsOf(seen, row) + row(e)
  {
    assert (seen + [e])[..|seen|] == seen;
  }

  lemma FewerConsistent<K(!new), V(!new)>(facts: seq<Fact<K, V>>, more: seq<Fact<K, V>>)
    requires Consistent(facts + more)
    ensures Consistent(facts)
  {
    forall x | x in facts ensures x in facts + more {}
  }

  lemma CleanPrefix(entries: seq<Entry>, k: nat)
    requires k <= |entries| && Clean(entries)
    ensures Clean(entries[..k])
  {
    forall e | e in entries[..k] ensures e in entries {}
  }

  method CheckHashes(hashes: map<string, (string, string)>, e: Entry, ghost facts: seq<Fact<string, (string, string)>>)
    returns (ok: bool, updated: map<string, (string, string)>, first: (string, string))
    requires Holds(hashes, facts)
    ensures ok ==> Holds(updated, facts + HashFacts(e))
    ensures !ok ==> !Consistent(facts + HashFacts(e))
  {
    var value := (e.split, e.derivation);
    first := value;
    ghost var one := facts + [Fact(e.oldSha, value)];
    assert facts + HashFacts(e) == one + [Fact(e.newSha, value)];
    ok, updated := Insert(hashes, e.oldSha, value, facts);
    if !ok {
      first := hashes[e.oldSha];
      if Consistent(one + [Fact(e.newSha, value)]) {
        FewerConsistent(one, [Fact(e.newSha, value)]);
      }
      return;
    }
    var before := updated;
    ok, updated := Insert(before, e.newSha, value, one);
    if !ok {
      first := before[e.newSha];
    }
  }

  /** The checks of a row on its own. */
  method CheckFields(e: Entry) returns (verdict: Verdict)
    ensures verdict == Accepted <==> RowValid(e)
    ensures verdict == Rejected(InvalidSplit) <==> e.split !in ["dev", "holdout"]
    ensures verdict.Rejected? ==> verdict.fault in {InvalidSplit, BlankField, FixedHoldout}
  {
    if e.split !in ["dev", "holdout"] {
      return Rejected(InvalidSplit);
    }
    if IsBlank(e.series) || IsBlank(e.derivation) {
      return Rejected(BlankField);
    }
    if e.split == "holdout" && e.tuningUse == UsedForFix {
      return Rejected(FixedHoldout);
    }
    verdict := Accepted;
  }

  /** Every map holds the facts of the rows seen and of this one. */
  ghost predicate HoldsAll(m: Maps, seen: seq<Entry>, e: Entry) {
    && Holds(m.series, FactsOf(seen, SeriesFacts) + SeriesFacts(e))
    && Holds(m.derivations, FactsOf(seen, DerivationFacts) + DerivationFacts(e))
    && Holds(m.producers, FactsOf(seen, ProducerFacts) + ProducerFacts(e))
    && Holds(m.hashes, FactsOf(seen, HashFacts) + HashFacts(e))
  }

  /** The producer is checked only when its family is known. */
  method InsertProducer(producers: map<(string, string), string>, e: Entry,
                        ghost facts: seq<Fact<(string, string), string>>)
    returns (ok: bool, updated: map<(string, string), string>)
    requires Holds(producers, facts)
    ensures ok ==> Holds(updated, facts + ProducerFacts(e))
    ensures !ok ==> !Consistent(facts + ProducerFacts(e))
  {
    if KnownProducer(e) {
      ok, updated := Insert(producers, (e.family, e.version), e.split, facts);
    } else {
      assert facts + ProducerFacts(e) == facts;
      ok, updated := true, producers;
    }
  }

  /** The checks of a row against the maps, in order. */
  method CheckMaps(m: Maps, e: Entry, ghost seen: seq<Entry>) returns (verdict: Verdict, updated: Maps)
    requires Recorded(m, seen)
    ensures verdict == Accepted ==> HoldsAll(updated, seen, e) && updated.pairs == m.pairs + {e.pairId}
    ensures verdict.Rejected? ==> Conflicting(seen, e)
    ensures verdict.Rejected? ==> verdict.fault !in {DuplicatePair, InvalidSplit, BlankField, FixedHoldout}
  {
    hide Holds, Consistent, UniquePairs;
    updated := m;
    var ok, series := Insert(m.series, e.series, e.split, FactsOf(seen, SeriesFacts));
    if !ok {
      return Rejected(SeriesCrosses), updated;
    }
    var derivations, producers, hashes, first;
    ok, derivations := Insert(m.derivations, e.derivation, e.split, FactsOf(seen, DerivationFacts));
    if !ok {
      return Rejected(DerivationCrosses), updated;
    }
    ok, producers := InsertProducer(m.producers, e, FactsOf(seen, ProducerFacts));
    if !ok {
      return Rejected(ProducerCrosses), updated;
    }
    ok, hashes, first := CheckHashes(m.hashes, e, FactsOf(seen, HashFacts));
    if !ok {
      return Rejected(if first.0 != e.split then HashCrossesSplit else HashCrossesGroup), updated;
    }
    updated := Maps(m.pairs + {e.pairId}, series, derivations, producers, hashes);
    verdict := Accepted;
  }

  /** Some key of this row has another value in a row seen. */
  ghost predicate Conflicting(seen: seq<Entry>, e: Entry) {
    || !Consistent(FactsOf(seen, SeriesFacts) + SeriesFacts(e))
    || !Consistent(FactsOf(seen, DerivationFacts) + DerivationFacts(e))
    || !Consistent(FactsOf(seen, ProducerFacts) + ProducerFacts(e))
    || !Consistent(FactsOf(seen, HashFacts) + HashFacts(e))
  }

  /** All checks of one row; a rejected row spoils every manifest it ends. */
  method CheckRow(m: Maps, e: Entry, ghost seen: seq<Entry>) returns (verdict: Verdict, updated: Maps)
    requires Recorded(m, seen)
    ensures verdict == Accepted ==> Recorded(updated, seen + [e])
    ensures verdict.Rejected? ==> !Clean(seen + [e])
  {
    updated := m;
    ghost var more := seen + [e];
    assert more[|seen|] == e;
    if e.pairId in m.pairs {
      ghost var i :| 0 <= i < |seen| && seen[i].pairId == e.pairId;
      assert more[i] == seen[i];
      return Rejected(DuplicatePair), updated;
    }
    verdict := CheckFields(e);
    if verdict != Accepted {
      assert e in more;
      return;
    }
    verdict, updated := CheckMaps(m, e, seen);
    if verdict == Accepted {
      RecordedMore(m, updated, seen, e);
    } else {
      Spoils(seen, e);
    }
  }

  /** A conflict in the facts of the rows up to this one. */
  lemma Spoils(seen: seq<Entry>, e: Entry)
    requires Conflicting(seen, e)
    ensures !Clean(seen + [e])
  {
    FactsMore(seen, e, SeriesFacts);
    FactsMore(seen, e, DerivationFacts);
    FactsMore(seen, e, ProducerFacts);
    FactsMore(seen, e, HashFacts);
    if Clean(seen + [e]) {
      CleanIsConsistent(seen + [e]);
      assert false;
    }
  }

  lemma RecordedMore(m: Maps, updated: Maps, seen: seq<Entry>, e: Entry)
    requires Recorded(m, seen) && RowValid(e) && e.pairId !in m.pairs
    requires updated.pairs == m.pairs + {e.pairId}
    requires HoldsAll(updated, seen, e)
    ensures Recorded(updated, seen + [e])
  {
    FactsMore(seen, e, SeriesFacts);
    FactsMore(seen, e, DerivationFacts);
    FactsMore(seen, e, ProducerFacts);
    FactsMore(seen, e, HashFacts);
    PairsMore(m.pairs, seen, e);
  }

  lemma PairsMore(pairs: set<string>, seen: seq<Entry>, e: Entry)
    requires UniquePairs(seen) && (forall p :: p in pairs <==> exists i :: 0 <= i < |seen| && seen[i].pairId == p)
    requires e.pairId !in pairs
    ensures UniquePairs(seen + [e])
    ensures forall p :: p in pairs + {e.pairId} <==> exists i :: 0 <= i < |seen + [e]| && (seen + [e])[i].pairId == p
  {
    var more := seen + [e];
    forall p ensures p in pairs + {e.pairId} <==> exists i :: 0 <= i < |more| && more[i].pairId == p {
      if p == e.pairId {
        assert more[|seen|].pairId == p;
      } else if p in pairs {
        var i :| 0 <= i < |seen| && seen[i].pairId == p;
        assert more[i].pairId == p;
      }
    }
  }

  /** Accepts exactly the clean manifests. */
  method ValidateManifest(entries: seq<Entry>) returns (verdict: Verdict)
    ensures verdict == Accepted <==> Clean(entries)
  {
    var maps := Maps({}, map[], map[], map[], map[]);
    for k := 0 to |entries|
      invariant Recorded(maps, entries[..k])
    {
      ghost var seen := entries[..k];
      assert entries[..k + 1] == seen + [entries[k]];
      verdict, maps := CheckRow(maps, entries[k], seen);
      if verdict != Accepted {
        if Clean(entries) {
          CleanPrefix(entries, k + 1);
        }
        return;
      }
    }
    assert entries[..|entries|] == entries;
    RecordedIsClean(maps, entries);
    verdict := Accepted;
  }

  // ---------- order ----------

  /** A value occurring twice occurs at two places. */
  lemma {:induction false} TwoPlaces(entries: seq<Entry>, e: Entry)
    requires multiset(entries)[e] >= 2
    ensures exists i, j :: 0 <= i < j < |entries| && entries[i] == e && entries[j] == e
  {
    var n := |entries| - 1;
    var front := entries[..n];
    assert entries == front + [entries[n]];
    if entries[n] == e {
      assert e in multiset(front);
      var i :| 0 <= i < n && front[i] == e;
      assert entries[i] == e && entries[n] == e;
    } else {
      TwoPlaces(front, e);
      var i, j :| 0 <= i < j < n && front[i] == e && front[j] == e;
      assert entries[i] == e && entries[j] == e;
    }
  }

  lemma {:induction false} TwoCopies(entries: seq<Entry>, i: nat, j: nat)
    requires i < j < |entries| && entries[i] == entries[j]
    ensures multiset(entries)[entries[i]] >= 2
  {
    var a, b := entries[..j], entries[j..];
    assert entries == a + b;
    assert a[i] == entries[i] && b[0] == entries[i];
    assert entries[i] in multiset(a) && entries[i] in multiset(b);
  }

  lemma UniqueReordered(a: seq<Entry>, b: seq<Entry>)
    requires multiset(a) == multiset(b) && UniquePairs(a)
    ensures UniquePairs(b)
  {
    forall i, j | 0 <= i < j < |b| ensures b[i].pairId != b[j].pairId {
      assert b[i] in multiset(a) && b[j] in multiset(a);
      if b[i] == b[j] {
        TwoCopies(b, i, j);
        TwoPlaces(a, b[i]);
        assert false;
      }
    }
  }

  /** The order of the rows does not matter. */
  lemma OrderDoesNotMatter(a: seq<Entry>, b: seq<Entry>)
    requires multiset(a) == multiset(b)
    ensures Clean(a) <==> Clean(b)
  {
    forall e ensures e in a <==> e in b {
      assert e in a <==> e in multiset(a);
      assert e in b <==> e in multiset(b);
    }
    if UniquePairs(a) {
      UniqueReordered(a, b);
    }
    if UniquePairs(b) {
      UniqueReordered(b, a);
    }
  }
}
