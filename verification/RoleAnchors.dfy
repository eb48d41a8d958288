/** Role anchors: locating named members in a text, merging two member lists
    into anchors, and the mask refined segment by segment between anchors. */
module RoleAnchors {
  import opened Basics
  import opened Alignment
  import opened LcsTables
  import opened EditEvidence
  import opened StructureProbe

  datatype AnchorError =
    | IdentityLength
    | IdentityNotFound
    | IdentityAmbiguous
    | OutOfSourceOrder
    | RangeOutside
    | Tables(error: Error)
    | EmptyAnchor

  datatype MemberSpec = MemberSpec(identity: string, name: string)

  datatype Member = Member(identity: string, range: Span)

  datatype Anchor = Anchor(identity: string, oldRange: Option<Span>, newRange: Option<Span>)

  // ---------- locating members ----------

  predicate OccursAt(text: string, needle: string, start: nat) {
    && start + |needle| <= |text|
    && forall k | 0 <= k < |needle| :: AsciiLower(text[start + k]) == AsciiLower(needle[k])
  }

  /** The needle stands there when every character is its own, or the other case of the same letter. */
  lemma OccursMeans(text: string, needle: string, start: nat)
    ensures OccursAt(text, needle, start) <==>
      && start + |needle| <= |text|
      && forall k | 0 <= k < |needle| :: text[start + k] == needle[k] || TwoCases(text[start + k], needle[k])
  {
    hide AsciiLower;
    if start + |needle| <= |text| {
      forall k | 0 <= k < |needle|
        ensures AsciiLower(text[start + k]) == AsciiLower(needle[k])
          <==> text[start + k] == needle[k] || TwoCases(text[start + k], needle[k])
      {
        FoldMeans(text[start + k], needle[k]);
      }
    }
  }

  /** The range is the one and only case-folded occurrence of a nonempty needle. */
  ghost predicate OnlyOccurrence(text: string, needle: string, range: Span) {
    && needle != [] && range.end == range.start + |needle|
    && OccursAt(text, needle, range.start)
    && forall other: nat | OccursAt(text, needle, other) :: other == range.start
  }

  method FindUniqueCaseFolded(text: string, needle: string) returns (r: Result<Span, AnchorError>)
    ensures r.Ok? ==> OnlyOccurrence(text, needle, r.value)
    ensures r.Err? ==> forall range :: !OnlyOccurrence(text, needle, range)
    ensures r == Err(IdentityAmbiguous) ==>
      exists p: nat, q: nat :: p < q && OccursAt(text, needle, p) && OccursAt(text, needle, q)
    ensures r == Err(IdentityNotFound) ==> forall p: nat :: !OccursAt(text, needle, p)
  {
    if needle == [] || |needle| > |text| {
      return Err(IdentityLength);
    }
    var matches: seq<nat> := [];
    for start := 0 to |text| - |needle| + 1
      invariant forall k | 0 <= k < |matches| :: matches[k] < start && OccursAt(text, needle, matches[k])
      invariant forall k, l | 0 <= k < l < |matches| :: matches[k] < matches[l]
      invariant forall p: nat | p < start && OccursAt(text, needle, p) :: p in matches
    {
      if OccursAt(text, needle, start) {
        matches := matches + [start];
      }
    }
    if |matches| == 1 {
      r := Ok(Span(matches[0], matches[0] + |needle|));
    } else if matches == [] {
      r := Err(IdentityNotFound);
    } else {
      assert OccursAt(text, needle, matches[0]) && OccursAt(text, needle, matches[1]);
      r := Err(IdentityAmbiguous);
    }
  }

  /** Nonempty member ranges, each starting no earlier than the previous one ends. */
  ghost predicate Ordered(members: seq<Member>, length: nat) {
    && (forall k | 0 <= k < |members| :: members[k].range.start < members[k].range.end <= length)
    && forall k, l | 0 <= k < l < |members| :: members[k].range.end <= members[l].range.start
  }

  /** Every name has exactly one occurrence, and the occurrences come in list order. */
  ghost predicate Located(text: string, specs: seq<MemberSpec>, members: seq<Member>) {
    && |members| == |specs| && Ordered(members, |text|)
    && forall k | 0 <= k < |specs| ::
         members[k].identity == specs[k].identity && OnlyOccurrence(text, specs[k].name, members[k].range)
  }

  /** Succeeds exactly when a located list exists, and then returns it. */
  method LocateFunctionMembers(text: string, specs: seq<MemberSpec>) returns (r: Result<seq<Member>, AnchorError>)
    ensures r.Ok? ==> Located(text, specs, r.value)
    ensures r.Err? ==> forall members :: !Located(text, specs, members)
  {
    var members: seq<Member> := [];
    var previousEnd := 0;
    for n := 0 to |specs|
      invariant Located(text, specs[..n], members)
      invariant forall k | 0 <= k < n :: members[k].range.end <= previousEnd
      invariant previousEnd == if n == 0 then 0 else members[n - 1].range.end
    {
      var found := FindUniqueCaseFolded(text, specs[n].name);
      if found.Err? {
        return Err(found.error);
      }
      if found.value.start < previousEnd {
        return Err(OutOfSourceOrder);
      }
      previousEnd := found.value.end;
      members := members + [Member(specs[n].identity, found.value)];
    }
    assert specs[..|specs|] == specs;
    r := Ok(members);
  }

  // ---------- merging two member lists ----------

  /** The old members the anchors name, in anchor order. */
  ghost function OldMembers(anchors: seq<Anchor>): seq<Member> {
    if anchors == [] then []
    else
      var a := anchors[|anchors| - 1];
      OldMembers(anchors[..|anchors| - 1]) + if a.oldRange.Some? then [Member(a.identity, a.oldRange.value)] else []
  }

  ghost function NewMembers(anchors: seq<Anchor>): seq<Member> {
    if anchors == [] then []
    else
      var a := anchors[|anchors| - 1];
      NewMembers(anchors[..|anchors| - 1]) + if a.newRange.Some? then [Member(a.identity, a.newRange.value)] else []
  }

  /** Both sides appear complete, once each and in order, every anchor names a
      side, and a two-sided anchor pairs members of one identity: its own. */
  ghost predicate Merges(anchors: seq<Anchor>, olds: seq<Member>, news: seq<Member>) {
    && OldMembers(anchors) == olds
    && NewMembers(anchors) == news
    && forall k | 0 <= k < |anchors| :: anchors[k].oldRange.Some? || anchors[k].newRange.Some?
  }

  lemma MergesStep(anchors: seq<Anchor>, olds: seq<Member>, news: seq<Member>, a: Anchor)
    requires Merges(anchors, olds, news) && (a.oldRange.Some? || a.newRange.Some?)
    ensures Merges(anchors + [a],
                   olds + if a.oldRange.Some? then [Member(a.identity, a.oldRange.value)] else [],
                   news + if a.newRange.Some? then [Member(a.identity, a.newRange.value)] else [])
  {
    var all := anchors + [a];
    assert all[..|all| - 1] == anchors;
  }

  ghost predicate Distinct(members: seq<Member>) {
    forall k, l | 0 <= k < l < |members| :: members[k].identity != members[l].identity
  }

  /** The identities both sides name come in the same order on both. */
  ghost predicate SameOrder(olds: seq<Member>, news: seq<Member>) {
    forall k, l, i, j | 0 <= k < l < |olds| && 0 <= i < |news| && 0 <= j < |news|
      && olds[k].identity == news[i].identity && olds[l].identity == news[j].identity :: i < j
  }

  function Both(o: Member, n: Member): Anchor {
    Anchor(o.identity, Some(o.range), Some(n.range))
  }

  /** Every identity both sides name has its two-sided anchor. */
  ghost predicate PairsCommon(anchors: seq<Anchor>, olds: seq<Member>, news: seq<Member>) {
    forall o, n | o in olds && n in news && o.identity == n.identity :: Both(o, n) in anchors
  }

  /** Common identities are passed on both sides together, and then they have their anchor. */
  ghost predicate PairedSoFar(anchors: seq<Anchor>, olds: seq<Member>, news: seq<Member>, o: nat, n: nat) {
    forall k, j | 0 <= k < |olds| && 0 <= j < |news| && olds[k].identity == news[j].identity ::
      (k < o <==> j < n) && (k < o ==> Both(olds[k], news[j]) in anchors)
  }

  /** The look-ahead: whether an old member is still to come on the new side. */
  predicate StillToCome(news: seq<Member>, n: nat, identity: string) {
    exists k | n <= k < |news| :: news[k].identity == identity
  }

  lemma PairedStep(anchors: seq<Anchor>, olds: seq<Member>, news: seq<Member>, o: nat, n: nat, anchor: Anchor)
    requires Distinct(olds) && Distinct(news) && o < |olds| && n < |news|
    requires PairedSoFar(anchors, olds, news, o, n)
    requires olds[o].identity == news[n].identity && anchor == Both(olds[o], news[n])
    ensures PairedSoFar(anchors + [anchor], olds, news, o + 1, n + 1)
  {}

  /** An old member the new side no longer names has no partner. */
  lemma UnpairedOld(anchors: seq<Anchor>, olds: seq<Member>, news: seq<Member>, o: nat, n: nat, anchor: Anchor)
    requires o < |olds| && n <= |news| && PairedSoFar(anchors, olds, news, o, n)
    requires !StillToCome(news, n, olds[o].identity)
    ensures PairedSoFar(anchors + [anchor], olds, news, o + 1, n)
  {}

  /** A new member before the partner of the next old one has no partner, for the order is the same. */
  lemma UnpairedNew(anchors: seq<Anchor>, olds: seq<Member>, news: seq<Member>, o: nat, n: nat, anchor: Anchor)
    requires o <= |olds| && n < |news| && PairedSoFar(anchors, olds, news, o, n) && SameOrder(olds, news)
    requires o < |olds| ==> StillToCome(news, n, olds[o].identity) && olds[o].identity != news[n].identity
    ensures PairedSoFar(anchors + [anchor], olds, news, o, n + 1)
  {}

  /** Where an anchor's members stand in their lists. */
  lemma {:induction false} AnchorPlace(anchors: seq<Anchor>, p: nat, q: nat)
    requires p < q <= |anchors| && anchors[p].oldRange.Some? && anchors[p].newRange.Some?
    ensures var k, j := |OldMembers(anchors[..p])|, |NewMembers(anchors[..p])|;
      && k < |OldMembers(anchors[..q])| && j < |NewMembers(anchors[..q])|
      && OldMembers(anchors[..q])[k] == Member(anchors[p].identity, anchors[p].oldRange.value)
      && NewMembers(anchors[..q])[j] == Member(anchors[p].identity, anchors[p].newRange.value)
  {
    assert anchors[..q][..q - 1] == anchors[..q - 1];
    if p < q - 1 {
      AnchorPlace(anchors, p, q - 1);
    }
  }

  /** Anchors keep both orders, so pairing every common identity needs them to agree. */
  lemma PairsNeedOrder(anchors: seq<Anchor>, olds: seq<Member>, news: seq<Member>)
    requires Merges(anchors, olds, news) && Distinct(olds) && Distinct(news) && PairsCommon(anchors, olds, news)
    ensures SameOrder(olds, news)
  {
    assert anchors[..|anchors|] == anchors;
    forall k, l, i, j | 0 <= k < l < |olds| && 0 <= i < |news| && 0 <= j < |news|
      && olds[k].identity == news[i].identity && olds[l].identity == news[j].identity
      ensures i < j
    {
      PairInOrder(anchors, olds, news, k, l, i, j);
    }
  }

  lemma PairInOrder(anchors: seq<Anchor>, olds: seq<Member>, news: seq<Member>, k: nat, l: nat, i: nat, j: nat)
    requires Merges(anchors, olds, news) && Distinct(olds) && Distinct(news)
    requires k < l < |olds| && i < |news| && j < |news|
    requires Both(olds[k], news[i]) in anchors && Both(olds[l], news[j]) in anchors
    requires olds[k].identity == news[i].identity && olds[l].identity == news[j].identity
    ensures i < j
  {
    var p :| 0 <= p < |anchors| && anchors[p] == Both(olds[k], news[i]);
    var q :| 0 <= q < |anchors| && anchors[q] == Both(olds[l], news[j]);
    assert anchors[..|anchors|] == anchors;
    AnchorPlace(anchors, p, |anchors|);
    AnchorPlace(anchors, q, |anchors|);
    if p < q {
      AnchorPlace(anchors, p, q);
    } else if q < p {
      AnchorPlace(anchors, q, p);
    }
  }

  /** Distinct identities are all paired exactly when their common ones come in the same order. */
  method MergeFunctionMembers(olds: seq<Member>, news: seq<Member>) returns (anchors: seq<Anchor>)
    ensures Merges(anchors, olds, news)
    ensures Distinct(olds) && Distinct(news) ==> (PairsCommon(anchors, olds, news) <==> SameOrder(olds, news))
  {
    hide OldMembers, NewMembers, Distinct, SameOrder, PairsCommon, PairedSoFar;
    anchors := [];
    var o, n := 0, 0;
    NothingPaired(olds, news);
    while o < |olds| || n < |news|
      invariant o <= |olds| && n <= |news|
      invariant Merges(anchors, olds[..o], news[..n])
      invariant Distinct(olds) && Distinct(news) && SameOrder(olds, news) ==> PairedSoFar(anchors, olds, news, o, n)
      decreases |olds| - o + |news| - n
    {
      ghost var before, o0, n0 := anchors, o, n;
      ghost var ordered := Distinct(olds) && Distinct(news) && SameOrder(olds, news);
      var anchor;
      if o < |olds| && n < |news| && olds[o].identity == news[n].identity {
        anchor := Both(olds[o], news[n]);
        if ordered { PairedStep(anchors, olds, news, o, n, anchor); }
        o, n := o + 1, n + 1;
      } else if o < |olds| && n < |news| && !StillToCome(news, n, olds[o].identity) {
        anchor := Anchor(olds[o].identity, Some(olds[o].range), None);
        if ordered { UnpairedOld(anchors, olds, news, o, n, anchor); }
        o := o + 1;
      } else if o < |olds| && n < |news| {
        anchor := Anchor(news[n].identity, None, Some(news[n].range));
        if ordered { UnpairedNew(anchors, olds, news, o, n, anchor); }
        n := n + 1;
      } else if o < |olds| {
        anchor := Anchor(olds[o].identity, Some(olds[o].range), None);
        if ordered { UnpairedOld(anchors, olds, news, o, n, anchor); }
        o := o + 1;
      } else {
        anchor := Anchor(news[n].identity, None, Some(news[n].range));
        if ordered { UnpairedNew(anchors, olds, news, o, n, anchor); }
        n := n + 1;
      }
      anchors := anchors + [anchor];
      MergesStep(before, olds[..o0], news[..n0], anchor);
      assert olds[..o] == olds[..o0] + if anchor.oldRange.Some? then [olds[o0]] else [];
      assert news[..n] == news[..n0] + if anchor.newRange.Some? then [news[n0]] else [];
    }
    assert olds[..o] == olds && news[..n] == news;
    if Distinct(olds) && Distinct(news) { PairedAtEnd(anchors, olds, news); }
  }

  lemma NothingPaired(olds: seq<Member>, news: seq<Member>)
    ensures PairedSoFar([], olds, news, 0, 0) && Merges([], [], [])
  {}

  lemma PairedAtEnd(anchors: seq<Anchor>, olds: seq<Member>, news: seq<Member>)
    requires Merges(anchors, olds, news) && Distinct(olds) && Distinct(news)
    requires SameOrder(olds, news) ==> PairedSoFar(anchors, olds, news, |olds|, |news|)
    ensures PairsCommon(anchors, olds, news) <==> SameOrder(olds, news)
  {
    if PairsCommon(anchors, olds, news) {
      PairsNeedOrder(anchors, olds, news);
    }
  }

  // ---------- the mask refined between anchors ----------

  /** One stretch of both texts. The probe refines it by its own LCS tables, or,
      when a one-sided anchor stands there, marks it changed outright. */
  datatype Segment = Segment(before: Span, after: Span, refined: bool)

  function Start(side: Option<Span>, cursor: nat): nat {
    if side.Some? then side.value.start else cursor
  }

  function End(side: Option<Span>, cursor: nat): nat {
    if side.Some? then side.value.end else cursor
  }

  /** The anchors can be walked left to right inside texts of these lengths. */
  ghost predicate Walkable(anchors: seq<Anchor>, o: nat, n: nat, oldLength: nat, newLength: nat) {
    if anchors == [] then o <= oldLength && n <= newLength
    else
      var a := anchors[0];
      && (a.oldRange.Some? || a.newRange.Some?)
      && o <= Start(a.oldRange, o) <= End(a.oldRange, o) <= oldLength
      && n <= Start(a.newRange, n) <= End(a.newRange, n) <= newLength
      && Walkable(anchors[1..], End(a.oldRange, o), End(a.newRange, n), oldLength, newLength)
  }

  /** The stretches the walk visits: before each anchor, at each anchor, and the tail. */
  ghost function Segments(anchors: seq<Anchor>, o: nat, n: nat, oldLength: nat, newLength: nat): seq<Segment> {
    if anchors == [] then [Segment(Span(o, oldLength), Span(n, newLength), true)]
    else
      var a := anchors[0];
      var os, ns := Start(a.oldRange, o), Start(a.newRange, n);
      var oe, ne := End(a.oldRange, o), End(a.newRange, n);
      [Segment(Span(o, os), Span(n, ns), true),
       Segment(Span(os, oe), Span(ns, ne), a.oldRange.Some? && a.newRange.Some?)]
      + Segments(anchors[1..], oe, ne, oldLength, newLength)
  }

  /** The stretches follow one another without gap or overlap on both sides, so
      every position of either text is written exactly once. */
  ghost predicate Tiles(segments: seq<Segment>, o: nat, n: nat, oldLength: nat, newLength: nat) {
    if segments == [] then o == oldLength && n == newLength
    else
      && segments[0].before.start == o <= segments[0].before.end <= oldLength
      && segments[0].after.start == n <= segments[0].after.end <= newLength
      && Tiles(segments[1..], segments[0].before.end, segments[0].after.end, oldLength, newLength)
  }

  lemma {:induction false} SegmentsTile(anchors: seq<Anchor>, o: nat, n: nat, oldLength: nat, newLength: nat)
    requires Walkable(anchors, o, n, oldLength, newLength)
    ensures Tiles(Segments(anchors, o, n, oldLength, newLength), o, n, oldLength, newLength)
  {
    var all := Segments(anchors, o, n, oldLength, newLength);
    if anchors == [] {
      assert all[1..] == [];
    } else {
      var a := anchors[0];
      var rest := Segments(anchors[1..], End(a.oldRange, o), End(a.newRange, n), oldLength, newLength);
      SegmentsTile(anchors[1..], End(a.oldRange, o), End(a.newRange, n), oldLength, newLength);
      assert all[1..][1..] == rest;
    }
  }

  lemma {:induction false} MembersFront(anchors: seq<Anchor>)
    requires anchors != []
    ensures var a := anchors[0];
      && OldMembers(anchors)
           == (if a.oldRange.Some? then [Member(a.identity, a.oldRange.value)] else []) + OldMembers(anchors[1..])
      && NewMembers(anchors)
           == (if a.newRange.Some? then [Member(a.identity, a.newRange.value)] else []) + NewMembers(anchors[1..])
  {
    var m := |anchors| - 1;
    if m > 0 {
      MembersFront(anchors[..m]);
      assert anchors[..m][1..] == anchors[1..][..m - 1] && anchors[1..][m - 1] == anchors[m];
    } else {
      assert OldMembers(anchors[..0]) == [] && NewMembers(anchors[..0]) == [];
    }
  }

  /** Ordered members that start no earlier than the cursor. */
  ghost predicate OrderedFrom(members: seq<Member>, cursor: nat, length: nat) {
    cursor <= length && Ordered(members, length) && (members != [] ==> cursor <= members[0].range.start)
  }

  lemma OrderedRest(members: seq<Member>, cursor: nat, length: nat)
    requires OrderedFrom(members, cursor, length) && members != []
    ensures OrderedFrom(members[1..], members[0].range.end, length)
  {}

  lemma MergesFront(anchors: seq<Anchor>, olds: seq<Member>, news: seq<Member>)
    requires Merges(anchors, olds, news) && anchors != []
    ensures var a := anchors[0];
      && (a.oldRange.Some? ==> olds != [] && olds[0] == Member(a.identity, a.oldRange.value))
      && (a.newRange.Some? ==> news != [] && news[0] == Member(a.identity, a.newRange.value))
      && Merges(anchors[1..], if a.oldRange.Some? then olds[1..] else olds,
                if a.newRange.Some? then news[1..] else news)
  {
    MembersFront(anchors);
  }

  /** Merging ordered members gives anchors that can be walked: on them the
      mask never fails for its ranges, only for its tables. */
  lemma {:induction false} MergedIsWalkable(anchors: seq<Anchor>, olds: seq<Member>, news: seq<Member>,
                                            o: nat, n: nat, oldLength: nat, newLength: nat)
    requires Merges(anchors, olds, news) && OrderedFrom(olds, o, oldLength) && OrderedFrom(news, n, newLength)
    ensures Walkable(anchors, o, n, oldLength, newLength)
    decreases |anchors|
  {
    if anchors != [] {
      var a := anchors[0];
      MergesFront(anchors, olds, news);
      if a.oldRange.Some? {
        OrderedRest(olds, o, oldLength);
      }
      if a.newRange.Some? {
        OrderedRest(news, n, newLength);
      }
      MergedIsWalkable(anchors[1..], if a.oldRange.Some? then olds[1..] else olds,
                       if a.newRange.Some? then news[1..] else news,
                       End(a.oldRange, o), End(a.newRange, n), oldLength, newLength);
    }
  }

  // ---------- what the walk writes ----------

  ghost function MandatoryOld(before: string, after: string): Mask {
    seq(|before|, i requires 0 <= i < |before| => !KeptOld(before, after, i))
  }

  ghost function MandatoryNew(before: string, after: string): Mask {
    seq(|after|, j requires 0 <= j < |after| => !KeptNew(before, after, j))
  }

  ghost predicate Inside(s: Segment, before: string, after: string) {
    s.before.start <= s.before.end <= |before| && s.after.start <= s.after.end <= |after|
  }

  ghost function OldText(s: Segment, before: string, after: string): string
    requires Inside(s, before, after)
  {
    before[s.before.start..s.before.end]
  }

  ghost function NewText(s: Segment, before: string, after: string): string
    requires Inside(s, before, after)
  {
    after[s.after.start..s.after.end]
  }

  /** The mandatory masks of the stretches, one after another. */
  ghost function FlatOld(before: string, after: string, segments: seq<Segment>, o: nat, n: nat): Mask
    requires Tiles(segments, o, n, |before|, |after|)
  {
    if segments == [] then []
    else
      var s := segments[0];
      MandatoryOld(OldText(s, before, after), NewText(s, before, after))
      + FlatOld(before, after, segments[1..], s.before.end, s.after.end)
  }

  ghost function FlatNew(before: string, after: string, segments: seq<Segment>, o: nat, n: nat): Mask
    requires Tiles(segments, o, n, |before|, |after|)
  {
    if segments == [] then []
    else
      var s := segments[0];
      MandatoryNew(OldText(s, before, after), NewText(s, before, after))
      + FlatNew(before, after, segments[1..], s.before.end, s.after.end)
  }

  predicate TablesFit(rows: nat, columns: nat) {
    (rows + 1) * (columns + 1) * 4 * 2 <= MAX_LCS_MEMORY_BYTES
  }

  /** The memory guard of every stretch that runs tables of its own. */
  ghost predicate Fits(segments: seq<Segment>) {
    forall k | 0 <= k < |segments| && segments[k].refined ::
      && segments[k].before.start <= segments[k].before.end
      && segments[k].after.start <= segments[k].after.end
      && TablesFit(segments[k].before.end - segments[k].before.start, segments[k].after.end - segments[k].after.start)
  }

  /** The part `[from, to)` of a mask replaced. */
  ghost function Overwritten(mask: Mask, start: nat, part: Mask): Mask
    requires start + |part| <= |mask|
  {
    mask[..start] + part + mask[start + |part|..]
  }

  method WriteMask(mask: array<bool>, start: nat, part: Mask)
    requires start + |part| <= mask.Length
    modifies mask
    ensures mask[..] == Overwritten(old(mask[..]), start, part)
  {
    for index := 0 to |part|
      invariant forall k | 0 <= k < mask.Length ::
                  mask[k] == if start <= k < start + index then part[k - start] else old(mask[k])
    {
      mask[start + index] := part[index];
    }
  }

  method RefineSegment(before: string, after: string, s: Segment, olds: array<bool>, news: array<bool>)
    returns (r: Result<(), AnchorError>)
    requires olds.Length == |before| && news.Length == |after| && olds != news
    modifies olds, news
    ensures r.Ok? <==> Inside(s, before, after) && TablesFit(s.before.end - s.before.start, s.after.end - s.after.start)
    ensures r.Ok? ==>
      && olds[..] == Overwritten(old(olds[..]), s.before.start,
                                 MandatoryOld(OldText(s, before, after), NewText(s, before, after)))
      && news[..] == Overwritten(old(news[..]), s.after.start,
                                 MandatoryNew(OldText(s, before, after), NewText(s, before, after)))
  {
    if s.before.start > s.before.end || s.before.end > |before|
       || s.after.start > s.after.end || s.after.end > |after| {
      return Err(RangeOutside);
    }
    var u := before[s.before.start..s.before.end];
    var v := after[s.after.start..s.after.end];
    LengthsUnderGuard(|u|, |v|);
    var tables := New(u, v);
    if tables.Err? {
      return Err(AnchorError.Tables(tables.error));
    }
    var localOld, localNew := MandatoryChanged(tables.value, u, v);
    assert localOld == MandatoryOld(u, v) && localNew == MandatoryNew(u, v);
    WriteMask(olds, s.before.start, localOld);
    WriteMask(news, s.after.start, localNew);
    r := Ok(());
  }

  method MarkChanged(mask: array<bool>, range: Span) returns (r: Result<(), AnchorError>)
    modifies mask
    ensures r.Ok? <==> range.start <= range.end <= mask.Length
    ensures r.Ok? ==> mask[..] == Overwritten(old(mask[..]), range.start, seq(range.end - range.start, _ => true))
    ensures r.Err? ==> mask[..] == old(mask[..])
  {
    if range.start > range.end || range.end > mask.Length {
      return Err(RangeOutside);
    }
    WriteMask(mask, range.start, seq(range.end - range.start, _ => true));
    r := Ok(());
  }

  /** Against an empty text everything is mandatorily changed, so marking a
      one-sided anchor writes what refining it against nothing would. */
  lemma OneSidedMask(text: string)
    ensures MandatoryOld(text, "") == seq(|text|, _ => true) && MandatoryNew(text, "") == []
    ensures MandatoryNew("", text) == seq(|text|, _ => true) && MandatoryOld("", text) == []
  {
    forall i: nat, x | Optimal(text, "", x) ensures !UsesOld(x, i) {
      OptimalLength(text, "", x);
    }
    forall j: nat, x | Optimal("", text, x) ensures !UsesNew(x, j) {
      OptimalLength("", text, x);
    }
  }

  /** What stands between cursor and anchor, and the anchor itself. */
  function Gap(a: Anchor, o: nat, n: nat): Segment {
    Segment(Span(o, Start(a.oldRange, o)), Span(n, Start(a.newRange, n)), true)
  }

  function Body(a: Anchor, o: nat, n: nat): Segment {
    Segment(Span(Start(a.oldRange, o), End(a.oldRange, o)), Span(Start(a.newRange, n), End(a.newRange, n)),
            a.oldRange.Some? && a.newRange.Some?)
  }

  ghost predicate StepOk(a: Anchor, o: nat, n: nat, before: string, after: string) {
    && (a.oldRange.Some? || a.newRange.Some?)
    && Inside(Gap(a, o, n), before, after) && Inside(Body(a, o, n), before, after)
    && Fits([Gap(a, o, n), Body(a, o, n)])
  }

  /** The anchor itself: refine both sides, or mark the only one. */
  method BodyStep(before: string, after: string, a: Anchor, ghost o: nat, ghost n: nat, body: Segment,
                  olds: array<bool>, news: array<bool>)
    returns (r: Result<(), AnchorError>)
    requires olds.Length == |before| && news.Length == |after| && olds != news
    requires o <= |before| && n <= |after| && body == Body(a, o, n)
    modifies olds, news
    ensures r.Ok? <==> (a.oldRange.Some? || a.newRange.Some?) && Inside(body, before, after) && Fits([body])
    ensures r.Ok? ==>
      && olds[..] == Overwritten(old(olds[..]), body.before.start,
                                 MandatoryOld(OldText(body, before, after), NewText(body, before, after)))
      && news[..] == Overwritten(old(news[..]), body.after.start,
                                 MandatoryNew(OldText(body, before, after), NewText(body, before, after)))
  {
    assert [body][0] == body;
    match (a.oldRange, a.newRange)
    case (Some(_), Some(_)) =>
      r := RefineSegment(before, after, body, olds, news);
    case (Some(range), None) =>
      r := MarkChanged(olds, range);
      if r.Ok? {
        OneSidedMask(OldText(body, before, after));
      }
    case (None, Some(range)) =>
      r := MarkChanged(news, range);
      if r.Ok? {
        OneSidedMask(NewText(body, before, after));
      }
    case (None, None) =>
      r := Err(EmptyAnchor);
  }

  /** Two parts written one after the other. */
  lemma BothWritten(m0: Mask, m1: Mask, m2: Mask, start: nat, first: Mask, second: Mask)
    requires start + |first| + |second| <= |m0|
    requires m1 == Overwritten(m0, start, first) && m2 == Overwritten(m1, start + |first|, second)
    ensures m2[..start + |first| + |second|] == m0[..start] + first + second
  {
    assert m1[..start + |first|] == m0[..start] + first;
  }

  /** One anchor: refine the gap before it, then refine it or mark its one side. */
  method AnchorStep(before: string, after: string, a: Anchor, o: nat, n: nat, olds: array<bool>, news: array<bool>)
    returns (r: Result<(), AnchorError>)
    requires olds.Length == |before| && news.Length == |after| && olds != news
    requires o <= |before| && n <= |after|
    modifies olds, news
    ensures r.Ok? <==> StepOk(a, o, n, before, after)
    ensures r.Ok? ==>
      var gap, body := Gap(a, o, n), Body(a, o, n);
      && olds[..body.before.end] == old(olds[..o])
           + MandatoryOld(OldText(gap, before, after), NewText(gap, before, after))
           + MandatoryOld(OldText(body, before, after), NewText(body, before, after))
      && news[..body.after.end] == old(news[..n])
           + MandatoryNew(OldText(gap, before, after), NewText(gap, before, after))
           + MandatoryNew(OldText(body, before, after), NewText(body, before, after))
  {
    hide MandatoryOld, MandatoryNew, Overwritten, StepOk, Fits;
    var gap, body := Gap(a, o, n), Body(a, o, n);
    StepOkParts(a, o, n, before, after);
    ghost var olds0, news0 := olds[..], news[..];
    r := RefineSegment(before, after, gap, olds, news);
    if r.Err? {
      return;
    }
    ghost var olds1, news1 := olds[..], news[..];
    r := BodyStep(before, after, a, o, n, body, olds, news);
    if r.Ok? {
      MandatoryLengths(OldText(gap, before, after), NewText(gap, before, after));
      MandatoryLengths(OldText(body, before, after), NewText(body, before, after));
      BothWritten(olds0, olds1, olds[..], o, MandatoryOld(OldText(gap, before, after), NewText(gap, before, after)),
                  MandatoryOld(OldText(body, before, after), NewText(body, before, after)));
      BothWritten(news0, news1, news[..], n, MandatoryNew(OldText(gap, before, after), NewText(gap, before, after)),
                  MandatoryNew(OldText(body, before, after), NewText(body, before, after)));
    }
  }

  lemma MandatoryLengths(before: string, after: string)
    ensures |MandatoryOld(before, after)| == |before| && |MandatoryNew(before, after)| == |after|
  {}

  lemma StepOkParts(a: Anchor, o: nat, n: nat, before: string, after: string)
    ensures var gap, body := Gap(a, o, n), Body(a, o, n);
      StepOk(a, o, n, before, after)
      <==> Inside(gap, before, after)
           && TablesFit(gap.before.end - gap.before.start, gap.after.end - gap.after.start)
           && (a.oldRange.Some? || a.newRange.Some?) && Inside(body, before, after) && Fits([body])
  {
    var gap, body := Gap(a, o, n), Body(a, o, n);
    assert [gap, body][0] == gap && [gap, body][1] == body && [body][0] == body;
  }

  ghost predicate Derived(before: string, after: string, segments: seq<Segment>, oldMask: Mask, newMask: Mask) {
    && Tiles(segments, 0, 0, |before|, |after|)
    && oldMask == FlatOld(before, after, segments, 0, 0)
    && newMask == FlatNew(before, after, segments, 0, 0)
  }

  ghost predicate Succeeds(before: string, after: string, anchors: seq<Anchor>, o: nat, n: nat) {
    && Walkable(anchors, o, n, |before|, |after|)
    && Fits(Segments(anchors, o, n, |before|, |after|))
  }

  /** Masks written up to the cursors, completed by the stretches still to come. */
  ghost predicate Completes(before: string, after: string, anchors: seq<Anchor>, o: nat, n: nat,
                            writtenOld: Mask, writtenNew: Mask, oldMask: Mask, newMask: Mask)
  {
    && Walkable(anchors, o, n, |before|, |after|)
    && var segments := Segments(anchors, o, n, |before|, |after|);
    && Tiles(segments, o, n, |before|, |after|)
    && oldMask == writtenOld + FlatOld(before, after, segments, o, n)
    && newMask == writtenNew + FlatNew(before, after, segments, o, n)
  }

  lemma SucceedsStep(before: string, after: string, anchors: seq<Anchor>, o: nat, n: nat)
    requires anchors != []
    ensures var a := anchors[0];
      Succeeds(before, after, anchors, o, n) <==>
        StepOk(a, o, n, before, after)
        && Succeeds(before, after, anchors[1..], End(a.oldRange, o), End(a.newRange, n))
  {
    var a := anchors[0];
    var rest := Segments(anchors[1..], End(a.oldRange, o), End(a.newRange, n), |before|, |after|);
    FitsConcat([Gap(a, o, n), Body(a, o, n)], rest);
  }

  lemma FitsConcat(u: seq<Segment>, v: seq<Segment>)
    ensures Fits(u + v) <==> Fits(u) && Fits(v)
  {
    if Fits(u + v) {
      assert forall k | 0 <= k < |u| :: u[k] == (u + v)[k];
      assert forall k | 0 <= k < |v| :: v[k] == (u + v)[|u| + k];
    }
  }

  lemma CompletesStep(before: string, after: string, anchors: seq<Anchor>, o: nat, n: nat,
                      writtenOld: Mask, writtenNew: Mask, oldMask: Mask, newMask: Mask)
    requires anchors != [] && Completes(before, after, anchors, o, n, writtenOld, writtenNew, oldMask, newMask)
    requires Inside(Gap(anchors[0], o, n), before, after) && Inside(Body(anchors[0], o, n), before, after)
    ensures var a := anchors[0];
      var gap, body := Gap(a, o, n), Body(a, o, n);
      Completes(before, after, anchors[1..], End(a.oldRange, o), End(a.newRange, n),
                writtenOld + MandatoryOld(OldText(gap, before, after), NewText(gap, before, after))
                           + MandatoryOld(OldText(body, before, after), NewText(body, before, after)),
                writtenNew + MandatoryNew(OldText(gap, before, after), NewText(gap, before, after))
                           + MandatoryNew(OldText(body, before, after), NewText(body, before, after)),
                oldMask, newMask)
  {
    hide MandatoryOld, MandatoryNew, OldText, NewText;
    var a := anchors[0];
    var all := Segments(anchors, o, n, |before|, |after|);
    var rest := Segments(anchors[1..], End(a.oldRange, o), End(a.newRange, n), |before|, |after|);
    SegmentsTile(anchors[1..], End(a.oldRange, o), End(a.newRange, n), |before|, |after|);
    var gap, body := Gap(a, o, n), Body(a, o, n);
    assert all[0] == gap && all[1..][0] == body && all[1..][1..] == rest;
    var u, v := MandatoryOld(OldText(gap, before, after), NewText(gap, before, after)),
                MandatoryOld(OldText(body, before, after), NewText(body, before, after));
    var x, y := MandatoryNew(OldText(gap, before, after), NewText(gap, before, after)),
                MandatoryNew(OldText(body, before, after), NewText(body, before, after));
    var f := FlatOld(before, after, rest, body.before.end, body.after.end);
    var g := FlatNew(before, after, rest, body.before.end, body.after.end);
    assert FlatOld(before, after, all, o, n) == u + FlatOld(before, after, all[1..], gap.before.end, gap.after.end);
    assert FlatOld(before, after, all[1..], gap.before.end, gap.after.end) == v + f;
    assert FlatNew(before, after, all, o, n) == x + FlatNew(before, after, all[1..], gap.before.end, gap.after.end);
    assert FlatNew(before, after, all[1..], gap.before.end, gap.after.end) == y + g;
    assert writtenOld + (u + (v + f)) == writtenOld + u + v + f;
    assert writtenNew + (x + (y + g)) == writtenNew + x + y + g;
  }

  /** Mid-walk: the walk still succeeds exactly when the whole walk does, and
      then what is written so far is a prefix of the final masks. */
  ghost predicate Pending(before: string, after: string, anchors: seq<Anchor>, k: nat, o: nat, n: nat,
                          writtenOld: Mask, writtenNew: Mask)
  {
    && k <= |anchors| && o <= |before| && n <= |after|
    && (Succeeds(before, after, anchors, 0, 0) <==> Succeeds(before, after, anchors[k..], o, n))
    && (Succeeds(before, after, anchors, 0, 0) ==>
          && var segments := Segments(anchors, 0, 0, |before|, |after|);
          && Tiles(segments, 0, 0, |before|, |after|)
          && Completes(before, after, anchors[k..], o, n, writtenOld, writtenNew,
                       FlatOld(before, after, segments, 0, 0), FlatNew(before, after, segments, 0, 0)))
  }

  lemma PendingStart(before: string, after: string, anchors: seq<Anchor>)
    ensures Pending(before, after, anchors, 0, 0, 0, [], [])
  {
    assert anchors[0..] == anchors;
    if Succeeds(before, after, anchors, 0, 0) {
      SegmentsTile(anchors, 0, 0, |before|, |after|);
    }
  }

  lemma PendingStep(before: string, after: string, anchors: seq<Anchor>, k: nat, o: nat, n: nat,
                    writtenOld: Mask, writtenNew: Mask)
    requires k < |anchors| && Pending(before, after, anchors, k, o, n, writtenOld, writtenNew)
    ensures !StepOk(anchors[k], o, n, before, after) ==> !Succeeds(before, after, anchors, 0, 0)
    ensures StepOk(anchors[k], o, n, before, after) ==>
      var a := anchors[k];
      var gap, body := Gap(a, o, n), Body(a, o, n);
      Pending(before, after, anchors, k + 1, End(a.oldRange, o), End(a.newRange, n),
              writtenOld + MandatoryOld(OldText(gap, before, after), NewText(gap, before, after))
                         + MandatoryOld(OldText(body, before, after), NewText(body, before, after)),
              writtenNew + MandatoryNew(OldText(gap, before, after), NewText(gap, before, after))
                         + MandatoryNew(OldText(body, before, after), NewText(body, before, after)))
  {
    var rest := anchors[k..];
    assert rest[0] == anchors[k] && rest[1..] == anchors[k + 1..];
    SucceedsStep(before, after, rest, o, n);
    if Succeeds(before, after, anchors, 0, 0) {
      var segments := Segments(anchors, 0, 0, |before|, |after|);
      CompletesStep(before, after, rest, o, n, writtenOld, writtenNew,
                    FlatOld(before, after, segments, 0, 0), FlatNew(before, after, segments, 0, 0));
    }
  }

  /** After the last anchor the tail is the only stretch left. */
  lemma PendingTail(before: string, after: string, anchors: seq<Anchor>, o: nat, n: nat, writtenOld: Mask,
                    writtenNew: Mask)
    requires Pending(before, after, anchors, |anchors|, o, n, writtenOld, writtenNew)
    ensures Succeeds(before, after, anchors, 0, 0) <==> TablesFit(|before| - o, |after| - n)
    ensures Succeeds(before, after, anchors, 0, 0) ==>
      Derived(before, after, Segments(anchors, 0, 0, |before|, |after|),
              writtenOld + MandatoryOld(before[o..], after[n..]), writtenNew + MandatoryNew(before[o..], after[n..]))
  {
    assert anchors[|anchors|..] == [];
    TailStretch(before, after, o, n);
  }

  lemma TailStretch(before: string, after: string, o: nat, n: nat)
    requires o <= |before| && n <= |after|
    ensures Succeeds(before, after, [], o, n) <==> TablesFit(|before| - o, |after| - n)
    ensures var segments := Segments([], o, n, |before|, |after|);
      && Tiles(segments, o, n, |before|, |after|)
      && FlatOld(before, after, segments, o, n) == MandatoryOld(before[o..], after[n..])
      && FlatNew(before, after, segments, o, n) == MandatoryNew(before[o..], after[n..])
  {
    hide FlatOld, FlatNew, MandatoryOld, MandatoryNew;
    var tail := Segment(Span(o, |before|), Span(n, |after|), true);
    var segments := Segments([], o, n, |before|, |after|);
    assert segments == [tail];
    assert segments[1..] == [];
    OneStretch(before, after, segments, o, n);
    assert before[o..|before|] == before[o..] && after[n..|after|] == after[n..];
  }

  lemma OneStretch(before: string, after: string, segments: seq<Segment>, o: nat, n: nat)
    requires |segments| == 1 && segments[1..] == [] && Tiles(segments, o, n, |before|, |after|)
    ensures var u, v := OldText(segments[0], before, after), NewText(segments[0], before, after);
      && FlatOld(before, after, segments, o, n) == MandatoryOld(u, v)
      && FlatNew(before, after, segments, o, n) == MandatoryNew(u, v)
  {
    var s := segments[0];
    assert FlatOld(before, after, segments[1..], s.before.end, s.after.end) == [];
    assert FlatNew(before, after, segments[1..], s.before.end, s.after.end) == [];
  }

  /** The walk fails exactly when the anchors cannot be walked or some refined
      stretch exceeds the table guard; otherwise the masks are the mandatory
      masks of the stretches laid end to end. */
  method DerivedMaskForAnchors(before: string, after: string, anchors: seq<Anchor>)
    returns (r: Result<(Mask, Mask), AnchorError>)
    ensures r.Ok? <==> Succeeds(before, after, anchors, 0, 0)
    ensures r.Ok? ==> Derived(before, after, Segments(anchors, 0, 0, |before|, |after|), r.value.0, r.value.1)
  {
    var olds := new bool[|before|](_ => false);
    var news := new bool[|after|](_ => false);
    var o: nat, n: nat := 0, 0;
    PendingStart(before, after, anchors);
    assert olds[..0] == [] && news[..0] == [];
    for k := 0 to |anchors|
      invariant o <= |before| && n <= |after|
      invariant Pending(before, after, anchors, k, o, n, olds[..o], news[..n])
    {
      PendingStep(before, after, anchors, k, o, n, olds[..o], news[..n]);
      var step := AnchorStep(before, after, anchors[k], o, n, olds, news);
      if step.Err? {
        return Err(step.error);
      }
      o, n := End(anchors[k].oldRange, o), End(anchors[k].newRange, n);
    }
    PendingTail(before, after, anchors, o, n, olds[..o], news[..n]);
    var last := RefineSegment(before, after, Segment(Span(o, |before|), Span(n, |after|), true), olds, news);
    if last.Err? {
      return Err(last.error);
    }
    assert before[o..|before|] == before[o..] && after[n..|after|] == after[n..];
    r := Ok((olds[..], news[..]));
  }

  // ---------- what the segmented mask certifies ----------

  ghost function SegmentCost(before: string, after: string, segments: seq<Segment>, o: nat, n: nat): int
    requires Tiles(segments, o, n, |before|, |after|)
  {
    if segments == [] then 0
    else
      var s := segments[0];
      OptimalCost(OldText(s, before, after), NewText(s, before, after))
      + SegmentCost(before, after, segments[1..], s.before.end, s.after.end)
  }

  /** On every stretch all optimal alignments keep the same positions. */
  ghost predicate EverySegmentAgrees(before: string, after: string, segments: seq<Segment>) {
    forall k | 0 <= k < |segments| ::
      Inside(segments[k], before, after)
        && KeepsAgree(OldText(segments[k], before, after), NewText(segments[k], before, after))
  }

  ghost function Shifted(x: Pairing, o: nat, n: nat): Pairing {
    seq(|x|, k requires 0 <= k < |x| => Pair(x[k].o + o, x[k].n + n))
  }

  /** Alignments of two stretches concatenate, so the longest lengths add up to at most the whole. */
  lemma LcsSuperadditive(u: string, v: string, u': string, v': string)
    ensures Lcs(u, v) + Lcs(u', v') <= Lcs(u + u', v + v')
  {
    var x := PrefixWitness(u, v, |u|, |v|);
    var y := PrefixWitness(u', v', |u'|, |v'|);
    var b, a := u + u', v + v';
    assert AlignsIn(b, a, x, 0, 0, |u|, |v|);
    Join(b, a, x, Shifted(y, |u|, |v|), |u|, |v|, |u|, |v|);
    OptimalLength(b, a, x + Shifted(y, |u|, |v|));
  }

  lemma {:induction false} ChangedCountConcat(x: Mask, y: Mask)
    ensures ChangedCount(x + y) == ChangedCount(x) + ChangedCount(y)
  {
    if y == [] {
      assert x + y == x;
    } else {
      assert (x + y)[..|x + y| - 1] == x + y[..|y| - 1];
      ChangedCountConcat(x, y[..|y| - 1]);
    }
  }

  lemma {:induction false} KeptTextConcat(u: string, v: string, x: Mask, y: Mask)
    requires |u| == |x| && |v| == |y|
    ensures KeptText(u + v, x + y) == KeptText(u, x) + KeptText(v, y)
  {
    if y == [] {
      assert u + v == u && x + y == x;
    } else {
      var n := |y| - 1;
      assert (u + v)[..|u + v| - 1] == u + v[..n] && (x + y)[..|x + y| - 1] == x + y[..n];
      KeptTextConcat(u, v[..n], x, y[..n]);
    }
  }

  /** The stretch costs sum to at least the global optimum. */
  lemma {:induction false} SegmentCostsCoverOptimum(before: string, after: string, segments: seq<Segment>, o: nat,
                                                    n: nat)
    requires o <= |before| && n <= |after| && Tiles(segments, o, n, |before|, |after|)
    ensures SegmentCost(before, after, segments, o, n) >= OptimalCost(before[o..], after[n..])
    decreases |segments|
  {
    if segments == [] {
      assert before[o..] == [] && after[n..] == [];
    } else {
      var s := segments[0];
      var u, v := OldText(s, before, after), NewText(s, before, after);
      var u', v' := before[s.before.end..], after[s.after.end..];
      SegmentCostsCoverOptimum(before, after, segments[1..], s.before.end, s.after.end);
      assert before[o..] == u + u' && after[n..] == v + v';
      LcsSuperadditive(u, v, u', v');
    }
  }

  /** The segmented mask costs at most the sum of the stretch costs, and exactly
      the sum precisely when each stretch has one kept-position set; then it is a
      complete edit witness. */
  lemma {:induction false} SegmentedEvidence(before: string, after: string, segments: seq<Segment>, o: nat, n: nat)
    requires o <= |before| && n <= |after| && Tiles(segments, o, n, |before|, |after|)
    ensures var oldMask, newMask := FlatOld(before, after, segments, o, n), FlatNew(before, after, segments, o, n);
      && |oldMask| == |before| - o && |newMask| == |after| - n
      && MaskCost(oldMask, newMask) <= SegmentCost(before, after, segments, o, n)
      && (MaskCost(oldMask, newMask) == SegmentCost(before, after, segments, o, n) <==>
            EverySegmentAgrees(before, after, segments))
      && (EverySegmentAgrees(before, after, segments) ==>
            KeptText(before[o..], oldMask) == KeptText(after[n..], newMask))
    decreases |segments|
  {
    hide MandatoryOld, MandatoryNew, KeptText, KeepsAgree, EverySegmentAgrees, Lcs;
    if segments == [] {
      assert before[o..] == [] && after[n..] == [];
      NoSegments(before, after);
    } else {
      var s, rest := segments[0], segments[1..];
      var u, v := OldText(s, before, after), NewText(s, before, after);
      SegmentedEvidence(before, after, rest, s.before.end, s.after.end);
      var x, y := MandatoryOld(u, v), MandatoryNew(u, v);
      var x', y' := FlatOld(before, after, rest, s.before.end, s.after.end),
        FlatNew(before, after, rest, s.before.end, s.after.end);
      assert before[o..] == u + before[s.before.end..] && after[n..] == v + after[s.after.end..];
      OneSegment(u, v);
      MandatoryLengths(u, v);
      ChangedCountConcat(x, x');
      ChangedCountConcat(y, y');
      KeptTextConcat(u, before[s.before.end..], x, x');
      KeptTextConcat(v, after[s.after.end..], y, y');
      AgreesFront(before, after, segments);
    }
  }

  lemma NoSegments(before: string, after: string)
    ensures EverySegmentAgrees(before, after, []) && KeptText([], []) == []
  {}

  lemma OneSegment(u: string, v: string)
    ensures var x, y := MandatoryOld(u, v), MandatoryNew(u, v);
      && MaskCost(x, y) <= OptimalCost(u, v)
      && (MaskCost(x, y) == OptimalCost(u, v) <==> KeepsAgree(u, v))
      && (KeepsAgree(u, v) <==> KeptText(u, x) == KeptText(v, y))
  {
    var x, y := MandatoryOld(u, v), MandatoryNew(u, v);
    assert MandatoryMasks(u, v, x, y);
    var w := OptimalWitness(u, v);
    MandatoryInside(u, v, x, y, w);
    MandatoryEquivalence(u, v, x, y);
  }

  lemma AgreesFront(before: string, after: string, segments: seq<Segment>)
    requires segments != [] && Inside(segments[0], before, after)
    ensures EverySegmentAgrees(before, after, segments) <==>
      KeepsAgree(OldText(segments[0], before, after), NewText(segments[0], before, after))
      && EverySegmentAgrees(before, after, segments[1..])
  {
    assert segments == [segments[0]] + segments[1..];
    if EverySegmentAgrees(before, after, segments) {
      forall k | 0 <= k < |segments[1..]|
        ensures Inside(segments[1..][k], before, after)
        ensures KeepsAgree(OldText(segments[1..][k], before, after), NewText(segments[1..][k], before, after))
      {
        assert segments[1..][k] == segments[k + 1];
      }
    }
  }
}
