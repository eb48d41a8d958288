/** What the source atoms of a resolved literal selector are, said of the block alone. */
module SelectorSources {
  // The atoms of an output scalar are gathered from the source map and then from the unmapped
  // tokens, and each is kept at its first place. Here they are described by where they are
  // mentioned: in which entry or token of the block, and at which place in it.

  import opened Basics
  import opened LiteralSelectors
  import opened Utf8

  /** Atom a of this scalar stands at place j of the i-th entry, the unmapped tokens counted on
      behind the entries of the source map. */
  ghost predicate Mentioned(b: Block, scalar: nat, a: Atom, i: nat, j: nat) {
    if i < |b.sourceMap| then
      var e := b.sourceMap[i];
      e.start <= scalar < e.end && j < |e.atoms| && e.atoms[j] == a
    else
      && i - |b.sourceMap| < |b.unmapped|
      && var u := b.unmapped[i - |b.sourceMap|];
      u.scalar == scalar && j < |u.atoms| && u.atoms[j] == a
  }

  ghost predicate Earlier(i: nat, j: nat, i': nat, j': nat) {
    i < i' || (i == i' && j < j')
  }

  /** The first atom is mentioned somewhere before every mention of the second. */
  ghost predicate MentionedFirst(b: Block, scalar: nat, x: Atom, y: Atom) {
    exists i: nat, j: nat :: Mentioned(b, scalar, x, i, j)
      && forall i': nat, j': nat | Mentioned(b, scalar, y, i', j') :: Earlier(i, j, i', j')
  }

  /** Exactly the atoms mentioned for the scalar, each once, in the order in which they are first mentioned. */
  ghost predicate AtomsOf(b: Block, scalar: nat, atoms: seq<Atom>) {
    && (forall a :: a in atoms <==> exists i: nat, j: nat :: Mentioned(b, scalar, a, i, j))
    && (forall x, y | 0 <= x < y < |atoms| :: atoms[x] != atoms[y])
    && (forall x, y | 0 <= x < y < |atoms| :: MentionedFirst(b, scalar, atoms[x], atoms[y]))
  }

  // ---------- each value at its first place ----------

  /** x occurs before any y does. */
  ghost predicate OccursFirst(list: seq<Atom>, x: Atom, y: Atom) {
    exists p :: 0 <= p < |list| && list[p] == x && y !in list[..p + 1]
  }

  lemma OccursFirstKept(list: seq<Atom>, last: Atom, x: Atom, y: Atom)
    requires OccursFirst(list, x, y)
    ensures OccursFirst(list + [last], x, y)
  {
    var p :| 0 <= p < |list| && list[p] == x && y !in list[..p + 1];
    assert (list + [last])[..p + 1] == list[..p + 1];
    assert (list + [last])[p] == x;
  }

  lemma OccursBeforeNew(list: seq<Atom>, x: Atom, last: Atom)
    requires x in list && last !in list
    ensures OccursFirst(list + [last], x, last)
  {
    var p :| 0 <= p < |list| && list[p] == x;
    assert (list + [last])[p] == x;
    assert (list + [last])[..p + 1] == list[..p + 1];
    assert forall q | 0 <= q < p + 1 :: list[..p + 1][q] == list[q];
  }

  lemma {:induction false} DistinctMeans(list: seq<Atom>)
    ensures forall a :: a in Distinct(list) <==> a in list
    ensures forall x, y | 0 <= x < y < |Distinct(list)| :: Distinct(list)[x] != Distinct(list)[y]
    ensures forall x, y | 0 <= x < y < |Distinct(list)| :: OccursFirst(list, Distinct(list)[x], Distinct(list)[y])
  {
    if list != [] {
      var n := |list| - 1;
      var front, last := list[..n], list[n];
      assert list == front + [last];
      DistinctMeans(front);
      var before := Distinct(front);
      forall x, y | 0 <= x < y < |Distinct(list)|
        ensures OccursFirst(list, Distinct(list)[x], Distinct(list)[y])
      {
        if y < |before| {
          OccursFirstKept(front, last, before[x], before[y]);
        } else {
          assert before[x] in before;
          OccursBeforeNew(front, before[x], last);
        }
      }
    }
  }

  // ---------- the gathered list ----------

  ghost function Flat(groups: seq<seq<Atom>>): seq<Atom> {
    if groups == [] then [] else groups[0] + Flat(groups[1..])
  }

  /** The atoms each entry and each token gives the scalar. */
  ghost function Groups(b: Block, scalar: nat): (groups: seq<seq<Atom>>)
    ensures |groups| == |b.sourceMap| + |b.unmapped|
  {
    MapGroups(b.sourceMap, scalar) + TokenGroups(b.unmapped, scalar)
  }

  ghost function MapGroups(entries: seq<MapEntry>, scalar: nat): seq<seq<Atom>> {
    seq(|entries|, i requires 0 <= i < |entries| =>
      if entries[i].start <= scalar < entries[i].end then entries[i].atoms else [])
  }

  ghost function TokenGroups(unmapped: seq<Unmapped>, scalar: nat): seq<seq<Atom>> {
    seq(|unmapped|, i requires 0 <= i < |unmapped| => if unmapped[i].scalar == scalar then unmapped[i].atoms else [])
  }

  lemma {:induction false} FlatJoin(x: seq<seq<Atom>>, y: seq<seq<Atom>>)
    ensures Flat(x + y) == Flat(x) + Flat(y)
  {
    if x == [] {
      assert x + y == y;
    } else {
      FlatJoin(x[1..], y);
      assert (x + y)[1..] == x[1..] + y;
      Associates(x[0], Flat(x[1..]), Flat(y));
    }
  }

  lemma {:induction false} CoveringIsFlat(entries: seq<MapEntry>, scalar: nat)
    ensures Covering(entries, scalar) == Flat(MapGroups(entries, scalar))
  {
    if entries != [] {
      CoveringIsFlat(entries[1..], scalar);
      assert MapGroups(entries, scalar)[1..] == MapGroups(entries[1..], scalar);
    }
  }

  lemma {:induction false} UnmappedIsFlat(unmapped: seq<Unmapped>, scalar: nat)
    ensures UnmappedAtoms(unmapped, scalar) == Flat(TokenGroups(unmapped, scalar))
  {
    if unmapped != [] {
      UnmappedIsFlat(unmapped[1..], scalar);
      assert TokenGroups(unmapped, scalar)[1..] == TokenGroups(unmapped[1..], scalar);
    }
  }

  lemma ProjectIsFlat(b: Block, scalar: nat)
    ensures ProjectAtoms(b, scalar) == Distinct(Flat(Groups(b, scalar)))
  {
    CoveringIsFlat(b.sourceMap, scalar);
    UnmappedIsFlat(b.unmapped, scalar);
    FlatJoin(MapGroups(b.sourceMap, scalar), TokenGroups(b.unmapped, scalar));
  }

  ghost predicate InGroup(groups: seq<seq<Atom>>, a: Atom, i: nat, j: nat) {
    i < |groups| && j < |groups[i]| && groups[i][j] == a
  }

  lemma MentionedInGroup(b: Block, scalar: nat, a: Atom, i: nat, j: nat)
    ensures InGroup(Groups(b, scalar), a, i, j) <==> Mentioned(b, scalar, a, i, j)
  {
    var m := |b.sourceMap|;
    if i < m {
      assert Groups(b, scalar)[i] == MapGroups(b.sourceMap, scalar)[i];
    } else if i - m < |b.unmapped| {
      assert Groups(b, scalar)[i] == TokenGroups(b.unmapped, scalar)[i - m];
    }
  }

  /** Where the j-th atom of group i stands in the flat list. */
  ghost function FlatAt(groups: seq<seq<Atom>>, i: nat, j: nat): nat
    requires i < |groups|
  {
    |Flat(groups[..i])| + j
  }

  lemma InFlat(groups: seq<seq<Atom>>, a: Atom, i: nat, j: nat)
    requires InGroup(groups, a, i, j)
    ensures FlatAt(groups, i, j) < |Flat(groups)| && Flat(groups)[FlatAt(groups, i, j)] == a
  {
    var before, after := groups[..i], groups[i + 1..];
    assert groups == before + ([groups[i]] + after);
    FlatJoin(before, [groups[i]] + after);
    assert ([groups[i]] + after)[1..] == after;
  }

  lemma {:induction false} FromFlat(groups: seq<seq<Atom>>, p: nat) returns (i: nat, j: nat)
    requires p < |Flat(groups)|
    ensures i < |groups| && p == FlatAt(groups, i, j) && InGroup(groups, Flat(groups)[p], i, j)
  {
    if p < |groups[0]| {
      i, j := 0, p;
    } else {
      i, j := FromFlat(groups[1..], p - |groups[0]|);
      assert groups[..i + 1][1..] == groups[1..][..i];
      i := i + 1;
    }
  }

  /** The flat list keeps the order of the places. */
  lemma FlatInOrder(groups: seq<seq<Atom>>, a: Atom, i: nat, j: nat, c: Atom, i': nat, j': nat)
    requires InGroup(groups, a, i, j) && InGroup(groups, c, i', j') && FlatAt(groups, i, j) < FlatAt(groups, i', j')
    ensures Earlier(i, j, i', j')
  {
    if i' < i {
      FlatBefore(groups, i', i);
    }
  }

  /** All of an earlier group stands before a later one. */
  lemma FlatBefore(groups: seq<seq<Atom>>, i: nat, i': nat)
    requires i < i' < |groups|
    ensures FlatAt(groups, i, |groups[i]|) <= FlatAt(groups, i', 0)
  {
    var middle := groups[i + 1..i'];
    assert groups[..i'] == groups[..i] + ([groups[i]] + middle);
    FlatJoin(groups[..i], [groups[i]] + middle);
    assert ([groups[i]] + middle)[1..] == middle;
  }

  lemma FirstIsMentionedFirst(b: Block, scalar: nat, x: Atom, y: Atom)
    requires OccursFirst(Flat(Groups(b, scalar)), x, y)
    ensures MentionedFirst(b, scalar, x, y)
  {
    hide Flat, Groups, FlatAt, Mentioned;
    var groups := Groups(b, scalar);
    var list := Flat(groups);
    var p :| 0 <= p < |list| && list[p] == x && y !in list[..p + 1];
    var i, j := FromFlat(groups, p);
    MentionedInGroup(b, scalar, x, i, j);
    forall i': nat, j': nat | Mentioned(b, scalar, y, i', j') ensures Earlier(i, j, i', j') {
      MentionedInGroup(b, scalar, y, i', j');
      InFlat(groups, y, i', j');
      NotBefore(list, p, y, FlatAt(groups, i', j'));
      FlatInOrder(groups, x, i, j, y, i', j');
    }
  }

  lemma NotBefore(list: seq<Atom>, p: nat, y: Atom, q: nat)
    requires p < |list| && y !in list[..p + 1] && q < |list| && list[q] == y
    ensures p < q
  {
    assert forall r | 0 <= r < p + 1 :: list[..p + 1][r] == list[r] != y;
  }

  lemma InListMentioned(b: Block, scalar: nat, a: Atom)
    ensures a in Flat(Groups(b, scalar)) <==> exists i: nat, j: nat :: Mentioned(b, scalar, a, i, j)
  {
    hide Flat, Groups, FlatAt, Mentioned, InGroup;
    var groups := Groups(b, scalar);
    if a in Flat(groups) {
      var p :| 0 <= p < |Flat(groups)| && Flat(groups)[p] == a;
      var i, j := FromFlat(groups, p);
      MentionedInGroup(b, scalar, a, i, j);
    }
    if i: nat, j: nat :| Mentioned(b, scalar, a, i, j) {
      MentionedInGroup(b, scalar, a, i, j);
      InFlat(groups, a, i, j);
    }
  }

  /** The projected atoms of a scalar are those mentioned for it, each once, first mention first. */
  lemma ProjectedAtoms(b: Block, scalar: nat)
    ensures AtomsOf(b, scalar, ProjectAtoms(b, scalar))
  {
    hide Distinct, ProjectAtoms, Flat, Groups, Mentioned, MentionedFirst, OccursFirst;
    var list, atoms := Flat(Groups(b, scalar)), ProjectAtoms(b, scalar);
    ProjectIsFlat(b, scalar);
    DistinctMeans(list);
    forall a ensures a in atoms <==> exists i: nat, j: nat :: Mentioned(b, scalar, a, i, j) {
      InListMentioned(b, scalar, a);
    }
    forall x, y | 0 <= x < y < |atoms| ensures MentionedFirst(b, scalar, atoms[x], atoms[y]) {
      FirstIsMentionedFirst(b, scalar, atoms[x], atoms[y]);
    }
  }

  // ---------- what a verdict reports ----------

  /** The sources of the quote found at scalar k, one for each of its scalars. */
  ghost predicate SourcesOf(s: Selector, b: Block, k: nat, sources: seq<ScalarSource>) {
    && k <= |b.text| && |sources| == |s.quote|
    && forall j | 0 <= j < |sources| ::
      && sources[j].scalar == k + j && sources[j].value == s.quote[j]
      && sources[j].byte == |Bytes(b.text[..k])| + |Bytes(s.quote[..j])|
      && sources[j].atoms != [] && AtomsOf(b, k + j, sources[j].atoms)
  }

  /** A unique verdict reports, for the only occurrence, exactly the atoms of each quoted scalar. */
  lemma UniqueReports(s: Selector, source: Source, hash: nat, view: View, r: Resolution)
    requires Justified(s, source, hash, view, r) && r.status == Unique
    ensures exists p :: Only(s, source.blocks, p) && SourcesOf(s, source.blocks[p.block], p.at, r.sources)
  {
    hide AtomsOf, ProjectAtoms, Bytes;
    var p :| Settled(s, source.blocks, p, r);
    var b := source.blocks[p.block];
    forall j | 0 <= j < |r.sources| ensures AtomsOf(b, p.at + j, r.sources[j].atoms) {
      ProjectedAtoms(b, p.at + j);
    }
  }

  /** Where a source is reported missing, no atom is mentioned for some scalar of the only occurrence. */
  lemma MissingReports(s: Selector, source: Source, hash: nat, view: View, r: Resolution)
    requires Justified(s, source, hash, view, r) && r.status == MissingSource
    ensures exists p :: Only(s, source.blocks, p) && LacksSource(s, source.blocks[p.block], p.at)
  {
    hide AtomsOf, ProjectAtoms, Bytes;
    var p :| Settled(s, source.blocks, p, r);
    var b := source.blocks[p.block];
    var j: nat :| j < |s.quote| && SourceAt(s, b, p.at, j).atoms == [];
    ProjectedAtoms(b, p.at + j);
    assert AtomsOf(b, p.at + j, []);
  }

  /** Some scalar of the quote found at scalar k has no atom. */
  ghost predicate LacksSource(s: Selector, b: Block, k: nat) {
    exists scalar: nat :: k <= scalar < k + |s.quote| && AtomsOf(b, scalar, [])
  }

  /** The charge for projecting is one for each entry and one for each of its atoms. */
  lemma {:induction false} ProjectionIsCounted(entries: seq<MapEntry>)
    ensures ProjectionCost(entries)
         == |entries| + |Flat(seq(|entries|, i requires 0 <= i < |entries| => entries[i].atoms))|
  {
    if entries != [] {
      var n := |entries| - 1;
      ProjectionIsCounted(entries[..n]);
      var front := seq(n, i requires 0 <= i < n => entries[..n][i].atoms);
      FlatJoin(front, [entries[n].atoms]);
      assert [entries[n].atoms][1..] == [];
      assert seq(|entries|, i requires 0 <= i < |entries| => entries[i].atoms) == front + [entries[n].atoms];
    }
  }

  // ---------- scope and overflow ----------

  /** A block is in scope exactly when neither locator names another one. */
  lemma ScopeMeans(s: Selector, b: Block)
    ensures InScope(s, b) <==>
      s.block in {None, Some(b.id)} && (s.page == None || exists page :: page in b.pages && s.page == Some(page))
  {}

  /** The checked sum and products overflow exactly when the charge does not fit, as long as there is a quote. */
  lemma OverflowMeans(s: Selector, b: Block)
    requires s.quote != []
    ensures CostOverflows(s, b) <==> HitCost(s, b) >= USIZE
    ensures HitCost(s, b) == 2 * |s.quote| * ProjectionCost(b.sourceMap)
  {}

  // ---------- the atoms counted ----------

  ghost function AllAtoms(sources: seq<ScalarSource>): seq<Atom> {
    Flat(seq(|sources|, i requires 0 <= i < |sources| => sources[i].atoms))
  }

  lemma {:induction false} AtomsAreCounted(sources: seq<ScalarSource>)
    ensures AtomsIn(sources) == |AllAtoms(sources)|
  {
    if sources != [] {
      var n := |sources| - 1;
      AtomsAreCounted(sources[..n]);
      var front := seq(n, i requires 0 <= i < n => sources[..n][i].atoms);
      FlatJoin(front, [sources[n].atoms]);
      assert [sources[n].atoms][1..] == [];
      assert seq(|sources|, i requires 0 <= i < |sources| => sources[i].atoms) == front + [sources[n].atoms];
    }
  }

  /** The atoms that count against the limit are all that are reported, in every scalar of every resolution. */
  lemma {:induction false} TotalIsCounted(rs: seq<Resolution>)
    ensures TotalAtoms(rs) == |Flat(seq(|rs|, i requires 0 <= i < |rs| => AllAtoms(rs[i].sources)))|
  {
    hide AtomsIn, AllAtoms;
    if rs != [] {
      var n := |rs| - 1;
      TotalIsCounted(rs[..n]);
      AtomsAreCounted(rs[n].sources);
      var front := seq(n, i requires 0 <= i < n => AllAtoms(rs[..n][i].sources));
      FlatJoin(front, [AllAtoms(rs[n].sources)]);
      assert [AllAtoms(rs[n].sources)][1..] == [];
      assert seq(|rs|, i requires 0 <= i < |rs| => AllAtoms(rs[i].sources)) == front + [AllAtoms(rs[n].sources)];
    }
  }
}
