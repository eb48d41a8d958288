/** The span algebra of the precision metrics: merging, lengths, intersection counts and
    intersection over union, against sets of covered positions; and the choice among the
    accepted variants of an expected change. */
module Spans {
  import opened Basics
  import opened Sorting

  // ---------- covered positions ----------

  ghost function Interval(lo: nat, hi: nat): (r: set<nat>)
    ensures forall p: nat :: p in r <==> lo <= p < hi
    ensures |r| == SatSub(hi, lo)
    decreases hi
  {
    if hi <= lo then {} else Interval(lo, hi - 1) + {hi - 1}
  }

  ghost predicate Covers(spans: seq<Span>, p: nat) {
    exists k :: 0 <= k < |spans| && spans[k].start <= p < spans[k].end
  }

  ghost predicate SameCover(x: seq<Span>, y: seq<Span>) {
    forall p: nat :: Covers(x, p) <==> Covers(y, p)
  }

  ghost predicate AllNonempty(spans: seq<Span>) {
    forall k | 0 <= k < |spans| :: spans[k].start < spans[k].end <= USIZE_MAX
  }

  ghost function Cover(spans: seq<Span>): set<nat> {
    if spans == [] then {} else Interval(spans[0].start, spans[0].end) + Cover(spans[1..])
  }

  lemma {:induction false} InCover(spans: seq<Span>, p: nat)
    ensures p in Cover(spans) <==> Covers(spans, p)
  {
    if spans != [] {
      InCover(spans[1..], p);
      CoversFront(spans, p);
    }
  }

  lemma CoverIs(spans: seq<Span>)
    ensures forall p: nat :: p in Cover(spans) <==> Covers(spans, p)
  {
    forall p: nat ensures p in Cover(spans) <==> Covers(spans, p) {
      InCover(spans, p);
    }
  }

  lemma CoversFront(spans: seq<Span>, p: nat)
    requires spans != []
    ensures Covers(spans, p) <==> spans[0].start <= p < spans[0].end || Covers(spans[1..], p)
  {
    if Covers(spans[1..], p) {
      var k :| 0 <= k < |spans[1..]| && spans[1..][k].start <= p < spans[1..][k].end;
      assert spans[k + 1] == spans[1..][k];
    }
    if Covers(spans, p) {
      var k :| 0 <= k < |spans| && spans[k].start <= p < spans[k].end;
      assert k > 0 ==> spans[1..][k - 1] == spans[k];
    }
  }

  /** Nonempty spans in increasing order with a gap between neighbours. */
  ghost predicate Separated(spans: seq<Span>) {
    && AllNonempty(spans)
    && forall k, l | 0 <= k < l < |spans| :: spans[k].end < spans[l].start
  }

  // ---------- merging ----------

  /** The key is the whole span, so every sort returns the same list. */
  predicate KeyAtMost(x: Span, y: Span) {
    x.start < y.start || (x.start == y.start && x.end <= y.end)
  }

  lemma SameElementsSameCover(x: seq<Span>, y: seq<Span>)
    requires multiset(x) == multiset(y)
    ensures SameCover(x, y)
  {
    forall p: nat ensures Covers(x, p) <==> Covers(y, p) {
      if Covers(x, p) {
        var k :| 0 <= k < |x| && x[k].start <= p < x[k].end;
        assert x[k] in multiset(y);
      }
      if Covers(y, p) {
        var k :| 0 <= k < |y| && y[k].start <= p < y[k].end;
        assert y[k] in multiset(x);
      }
    }
  }

  /** Taking in the next span: grow the last one when they touch, else start a new one. */
  function MergeNext(merged: seq<Span>, span: Span): seq<Span> {
    if merged != [] && span.start <= merged[|merged| - 1].end then
      var last := merged[|merged| - 1];
      merged[..|merged| - 1] + [Span(last.start, Max(last.end, span.end))]
    else merged + [span]
  }

  lemma MergeNextCover(merged: seq<Span>, span: Span)
    requires merged != [] ==> merged[|merged| - 1].start <= span.start
    ensures forall p: nat :: Covers(MergeNext(merged, span), p) <==> Covers(merged, p) || span.start <= p < span.end
  {
    if merged != [] && span.start <= merged[|merged| - 1].end {
      var last, rest := merged[|merged| - 1], merged[..|merged| - 1];
      assert merged == rest + [last];
      CoversLast(rest, last);
      CoversLast(rest, Span(last.start, Max(last.end, span.end)));
    } else {
      CoversLast(merged, span);
    }
  }

  lemma MergeNextSeparated(merged: seq<Span>, span: Span)
    requires Separated(merged) && span.start < span.end <= USIZE_MAX
    requires merged != [] ==> merged[|merged| - 1].start <= span.start
    ensures Separated(MergeNext(merged, span))
  {
    assert forall k | 0 <= k < |merged| - 1 :: merged[k].end < merged[|merged| - 1].start;
  }

  /** Merging keeps exactly the covered positions, of any spans at all; nonempty
      spans come out separated. */
  method MergeSpans(spans: seq<Span>) returns (merged: seq<Span>)
    ensures SameCover(merged, spans)
    ensures AllNonempty(spans) ==> Separated(merged)
  {
    hide SameCover, Separated, AllNonempty, Sorted, Sort, KeyAtMost;
    var sorted := Sort(KeyAtMost, spans);
    SortedSpans(spans);
    merged := [];
    for n := 0 to |sorted|
      invariant MergedSoFar(spans, sorted, n, merged)
    {
      MergedMore(spans, sorted, n, merged);
      merged := MergeNext(merged, sorted[n]);
    }
    assert sorted[..|sorted|] == sorted;
    SameCoverOn(merged, sorted, spans);
  }

  lemma SortedSpans(spans: seq<Span>)
    ensures var sorted := Sort(KeyAtMost, spans);
      && SameCover(sorted, spans) && Sorted(KeyAtMost, sorted) && MergedSoFar(spans, sorted, 0, [])
      && (AllNonempty(spans) ==> AllNonempty(sorted))
  {
    var sorted := Sort(KeyAtMost, spans);
    SortKeeps(KeyAtMost, spans);
    SortSorts(KeyAtMost, spans);
    SameElementsSameCover(sorted, spans);
    if AllNonempty(spans) {
      SortKeepsNonempty(spans, sorted);
    }
  }

  /** The first n spans are merged, the last merged one beginning no later than they do. */
  ghost predicate MergedSoFar(spans: seq<Span>, sorted: seq<Span>, n: nat, merged: seq<Span>) {
    && n <= |sorted| && SameCover(merged, sorted[..n])
    && (merged != [] ==> n > 0 && merged[|merged| - 1].start <= sorted[n - 1].start)
    && (AllNonempty(spans) ==> Separated(merged))
  }

  lemma MergedMore(spans: seq<Span>, sorted: seq<Span>, n: nat, merged: seq<Span>)
    requires MergedSoFar(spans, sorted, n, merged) && n < |sorted| && Sorted(KeyAtMost, sorted)
    requires AllNonempty(spans) ==> AllNonempty(sorted)
    ensures MergedSoFar(spans, sorted, n + 1, MergeNext(merged, sorted[n]))
  {
    hide Covers, Separated;
    var span := sorted[n];
    assert n > 0 ==> KeyAtMost(sorted[n - 1], span);
    MergeNextCover(merged, span);
    assert sorted[..n + 1] == sorted[..n] + [span];
    CoversLast(sorted[..n], span);
    if AllNonempty(spans) {
      MergeNextSeparated(merged, span);
    }
  }

  lemma SameCoverOn(x: seq<Span>, y: seq<Span>, z: seq<Span>)
    requires SameCover(x, y) && SameCover(y, z)
    ensures SameCover(x, z)
  {}

  lemma SortKeepsNonempty(spans: seq<Span>, sorted: seq<Span>)
    requires multiset(sorted) == multiset(spans)
    requires AllNonempty(spans)
    ensures AllNonempty(sorted)
  {
    forall k | 0 <= k < |sorted| ensures sorted[k].start < sorted[k].end <= USIZE_MAX {
      assert sorted[k] in multiset(spans);
    }
  }

  lemma CoversLast(spans: seq<Span>, last: Span)
    ensures forall p: nat :: Covers(spans + [last], p) <==> Covers(spans, p) || last.start <= p < last.end
  {
    forall p: nat ensures Covers(spans + [last], p) <==> Covers(spans, p) || last.start <= p < last.end {
      var all := spans + [last];
      assert all[|spans|] == last;
      assert forall k | 0 <= k < |spans| :: all[k] == spans[k];
    }
  }

  // ---------- lengths ----------

  function SpansLen(spans: seq<Span>): nat {
    if spans == [] then 0
    else SatAdd(SpansLen(spans[..|spans| - 1]), SatSub(spans[|spans| - 1].end, spans[|spans| - 1].start))
  }

  /** On separated spans the saturating sum is the number of covered positions. */
  lemma {:induction false} LenIsCover(spans: seq<Span>)
    requires Separated(spans)
    ensures SpansLen(spans) == |Cover(spans)| <= USIZE_MAX
  {
    CoverFits(spans);
    if spans == [] {
      assert Cover(spans) == {};
    } else {
      LenIsCover(spans[..|spans| - 1]);
      LastDisjoint(spans);
    }
  }

  lemma LastDisjoint(spans: seq<Span>)
    requires Separated(spans) && spans != []
    ensures var last := spans[|spans| - 1];
      |Cover(spans)| == |Cover(spans[..|spans| - 1])| + (last.end - last.start)
  {
    hide Cover, Covers;
    var last, rest := spans[|spans| - 1], spans[..|spans| - 1];
    assert spans == rest + [last];
    CoversLast(rest, last);
    CoverIs(spans);
    CoverIs(rest);
    forall p: nat | Covers(rest, p) ensures p < last.start {
      BeforeLast(spans, p);
    }
    DisjointUnion(Cover(spans), Cover(rest), Interval(last.start, last.end));
  }

  lemma BeforeLast(spans: seq<Span>, p: nat)
    requires Separated(spans) && spans != [] && Covers(spans[..|spans| - 1], p)
    ensures p < spans[|spans| - 1].start
  {
    var rest := spans[..|spans| - 1];
    var k :| 0 <= k < |rest| && rest[k].start <= p < rest[k].end;
    assert spans[k].end < spans[|spans| - 1].start;
  }

  lemma DisjointUnion(whole: set<nat>, x: set<nat>, y: set<nat>)
    requires forall p :: p in whole <==> p in x || p in y
    requires forall p | p in x :: p !in y
    ensures |whole| == |x| + |y|
  {
    assert whole == x + y;
  }

  lemma CoverFits(spans: seq<Span>)
    requires Separated(spans)
    ensures |Cover(spans)| <= USIZE_MAX
  {
    forall p | p in Cover(spans) ensures p < USIZE_MAX {
      InCover(spans, p);
    }
    SubsetSize(Cover(spans), Interval(0, USIZE_MAX));
  }

  // ---------- the two-pointer intersection count ----------

  function Overlap(a: Span, b: Span): nat {
    SatSub(Min(a.end, b.end), Max(a.start, b.start))
  }

  ghost function Shared(x: seq<Span>, y: seq<Span>): nat { |Cover(x) * Cover(y)| }

  lemma SharedCommutes(x: seq<Span>, y: seq<Span>)
    ensures Shared(x, y) == Shared(y, x)
  {
    assert Cover(x) * Cover(y) == Cover(y) * Cover(x);
  }

  /** In separated spans only the head reaches positions up to its end. */
  lemma OnlyHead(spans: seq<Span>, p: nat)
    requires Separated(spans) && spans != [] && Covers(spans, p)
    ensures p <= spans[0].end ==> spans[0].start <= p < spans[0].end
  {
    var k :| 0 <= k < |spans| && spans[k].start <= p < spans[k].end;
    assert k > 0 ==> spans[0].end < spans[k].start;
  }

  lemma BeyondHead(spans: seq<Span>, p: nat)
    requires Separated(spans) && spans != [] && Covers(spans[1..], p)
    ensures spans[0].end < p
  {
    var rest := spans[1..];
    var k :| 0 <= k < |rest| && rest[k].start <= p < rest[k].end;
    assert rest[k] == spans[k + 1];
  }

  /** Dropping the span that ends first loses exactly its overlap with the other head. */
  lemma DropFirst(left: seq<Span>, right: seq<Span>)
    requires Separated(left) && Separated(right) && left != [] && right != []
    requires left[0].end <= right[0].end
    ensures Shared(left, right) == Overlap(left[0], right[0]) + Shared(left[1..], right)
  {
    var a, b := left[0], right[0];
    var common := Interval(Max(a.start, b.start), Min(a.end, b.end));
    forall p: nat ensures p in Cover(left) * Cover(right) <==> p in common || p in Cover(left[1..]) * Cover(right) {
      SharedPosition(left, right, p);
    }
    forall p | p in common ensures p !in Cover(left[1..]) * Cover(right) {
      SharedPosition(left, right, p);
    }
    DisjointUnion(Cover(left) * Cover(right), common, Cover(left[1..]) * Cover(right));
  }

  lemma SharedPosition(left: seq<Span>, right: seq<Span>, p: nat)
    requires Separated(left) && Separated(right) && left != [] && right != []
    requires left[0].end <= right[0].end
    ensures var common := Max(left[0].start, right[0].start) <= p < Min(left[0].end, right[0].end);
      && (p in Cover(left) && p in Cover(right) <==> common || (p in Cover(left[1..]) && p in Cover(right)))
      && (common ==> p !in Cover(left[1..]))
  {
    InCover(left, p);
    InCover(right, p);
    InCover(left[1..], p);
    CoversFront(left, p);
    CoversFront(right, p);
    if Covers(right, p) {
      OnlyHead(right, p);
    }
    if Covers(left[1..], p) {
      BeyondHead(left, p);
    }
  }

  lemma TailSeparated(spans: seq<Span>)
    requires Separated(spans) && spans != []
    ensures Separated(spans[1..])
  {}

  /** The running total plus what the unread tails still share is the size of the whole intersection. */
  ghost predicate Counted(left: seq<Span>, right: seq<Span>, i: nat, j: nat, total: nat) {
    && i <= |left| && j <= |right|
    && Separated(left[i..]) && Separated(right[j..])
    && total + Shared(left[i..], right[j..]) == Shared(left, right)
  }

  lemma CountLeft(left: seq<Span>, right: seq<Span>, i: nat, j: nat, total: nat)
    requires Counted(left, right, i, j, total) && i < |left| && j < |right| && left[i].end <= right[j].end
    ensures Counted(left, right, i + 1, j, total + Overlap(left[i], right[j]))
  {
    DropFirst(left[i..], right[j..]);
    TailSeparated(left[i..]);
    assert left[i..][1..] == left[i + 1..];
  }

  lemma CountRight(left: seq<Span>, right: seq<Span>, i: nat, j: nat, total: nat)
    requires Counted(left, right, i, j, total) && i < |left| && j < |right| && right[j].end < left[i].end
    ensures Counted(left, right, i, j + 1, total + Overlap(left[i], right[j]))
  {
    DropFirst(right[j..], left[i..]);
    TailSeparated(right[j..]);
    assert right[j..][1..] == right[j + 1..];
    SharedCommutes(left[i..], right[j..]);
    SharedCommutes(left[i..], right[j + 1..]);
  }

  lemma CountDone(left: seq<Span>, right: seq<Span>, i: nat, j: nat, total: nat)
    requires Counted(left, right, i, j, total) && (i == |left| || j == |right|)
    ensures total == Shared(left, right)
  {
    assert i == |left| ==> Cover(left[i..]) == {};
    assert j == |right| ==> Cover(right[j..]) == {};
  }

  method IntersectionLen(left: seq<Span>, right: seq<Span>) returns (total: nat)
    requires Separated(left) && Separated(right)
    ensures total == Shared(left, right) <= USIZE_MAX
  {
    var i, j := 0, 0;
    total := 0;
    assert left[0..] == left && right[0..] == right;
    SharedFits(left, right);
    CoverFits(left);
    while i < |left| && j < |right|
      invariant Counted(left, right, i, j, total)
      decreases |left| - i + |right| - j
    {
      ghost var i0, j0 := i, j;
      var overlap := Overlap(left[i], right[j]);
      if left[i].end <= right[j].end {
        CountLeft(left, right, i, j, total);
        i := i + 1;
      } else {
        CountRight(left, right, i, j, total);
        j := j + 1;
      }
      total := SatAdd(total, overlap);
    }
    CountDone(left, right, i, j, total);
  }

  lemma SharedFits(x: seq<Span>, y: seq<Span>)
    ensures Shared(x, y) <= |Cover(x)| && Shared(x, y) <= |Cover(y)|
  {
    SubsetSize(Cover(x) * Cover(y), Cover(x));
    SubsetSize(Cover(x) * Cover(y), Cover(y));
  }

  // ---------- the precision counts ----------

  datatype TokenCounts = TokenCounts(truePositives: nat, falsePositives: nat, falseNegatives: nat, unchangedTokens: nat)

  ghost function Changed(spans: seq<Span>): nat { |Cover(spans)| }

  /** True and false positives partition the reported positions, and true positives and
      false negatives the expected ones, exactly when the partitioned total fits a usize;
      the true positives are the shared positions as long as these fit. */
  ghost predicate CountsMean(actualOld: seq<Span>, actualNew: seq<Span>,
                             expectedOld: seq<Span>, expectedNew: seq<Span>,
                             oldTotal: nat, newTotal: nat, c: TokenCounts)
  {
    var shared := Shared(actualOld, expectedOld) + Shared(actualNew, expectedNew);
    var reported := Changed(actualOld) + Changed(actualNew);
    var expected := Changed(expectedOld) + Changed(expectedNew);
    && c.truePositives == Min(shared, USIZE_MAX) && shared <= Min(reported, expected)
    && (c.truePositives + c.falsePositives == reported <==> reported <= USIZE_MAX)
    && (c.truePositives + c.falseNegatives == expected <==> expected <= USIZE_MAX)
    && (expected <= oldTotal + newTotal <= USIZE_MAX ==>
          c.truePositives + c.falseNegatives + c.unchangedTokens == oldTotal + newTotal)
  }

  method CountTokens(actualOld: seq<Span>, actualNew: seq<Span>, expectedOld: seq<Span>, expectedNew: seq<Span>,
                     oldTotal: nat, newTotal: nat)
    returns (c: TokenCounts)
    requires AllNonempty(actualOld) && AllNonempty(actualNew) && AllNonempty(expectedOld) && AllNonempty(expectedNew)
    ensures CountsMean(actualOld, actualNew, expectedOld, expectedNew, oldTotal, newTotal, c)
  {
    var ao := MergeSpans(actualOld);
    var an := MergeSpans(actualNew);
    var eo := MergeSpans(expectedOld);
    var en := MergeSpans(expectedNew);
    var old' := IntersectionLen(ao, eo);
    var new' := IntersectionLen(an, en);
    LenIsCover(ao);
    LenIsCover(an);
    LenIsCover(eo);
    LenIsCover(en);
    CoverUnchanged(ao, actualOld);
    CoverUnchanged(an, actualNew);
    CoverUnchanged(eo, expectedOld);
    CoverUnchanged(en, expectedNew);
    SharedFits(actualOld, expectedOld);
    SharedFits(actualNew, expectedNew);
    var truePositives := SatAdd(old', new');
    var actualTotal := SatAdd(SpansLen(ao), SpansLen(an));
    var expectedTotal := SatAdd(SpansLen(eo), SpansLen(en));
    c := TokenCounts(truePositives, SatSub(actualTotal, truePositives), SatSub(expectedTotal, truePositives),
                     SatSub(SatAdd(oldTotal, newTotal), expectedTotal));
  }

  lemma CoverUnchanged(merged: seq<Span>, spans: seq<Span>)
    requires SameCover(merged, spans)
    ensures Cover(merged) == Cover(spans)
  {
    CoverIs(merged);
    CoverIs(spans);
  }

  // ---------- intersection over union ----------

  function SpanIou(expected: Span, actual: Span): real
    requires expected.start <= expected.end
  {
    var intersection := Overlap(expected, actual);
    var union := SatSub(SatAdd(expected.end - expected.start, SatSub(actual.end, actual.start)), intersection);
    if union == 0 then 0.0 else intersection as real / union as real
  }

  lemma IntervalsMeet(x: Span, y: Span)
    ensures Interval(x.start, x.end) * Interval(y.start, y.end)
         == Interval(Max(x.start, y.start), Min(x.end, y.end))
  {}

  lemma UnionSize(a: set<nat>, b: set<nat>)
    ensures |a + b| + |a * b| == |a| + |b| && |a * b| <= |a + b|
  {
    SubsetSize(a * b, a + b);
  }

  /** The positions that both spans cover, and those that either does. */
  ghost function InBoth(x: Span, y: Span): set<nat> { Interval(x.start, x.end) * Interval(y.start, y.end) }

  ghost function InEither(x: Span, y: Span): set<nat> { Interval(x.start, x.end) + Interval(y.start, y.end) }

  /** While the lengths fit, the ratio times the number of positions in either span is the number in both. */
  lemma IouIsShare(expected: Span, actual: Span)
    requires expected.start <= expected.end
    requires |Interval(expected.start, expected.end)| + |Interval(actual.start, actual.end)| <= USIZE_MAX
    ensures SpanIou(expected, actual) * |InEither(expected, actual)| as real == |InBoth(expected, actual)| as real
    ensures InEither(expected, actual) == {} ==> SpanIou(expected, actual) == 0.0
  {
    hide Interval, InBoth, InEither, SpanIou;
    BothAndEither(expected, actual);
    IouIsQuotient(expected, actual);
    ShareOf(SpanIou(expected, actual), |InBoth(expected, actual)|, |InEither(expected, actual)|);
  }

  lemma BothAndEither(x: Span, y: Span)
    ensures |InEither(x, y)| + |InBoth(x, y)| == |Interval(x.start, x.end)| + |Interval(y.start, y.end)|
    ensures |InBoth(x, y)| <= |InEither(x, y)|
  {
    hide Interval;
    UnionSize(Interval(x.start, x.end), Interval(y.start, y.end));
  }

  lemma IouIsQuotient(expected: Span, actual: Span)
    requires expected.start <= expected.end
    requires |Interval(expected.start, expected.end)| + |Interval(actual.start, actual.end)| <= USIZE_MAX
    ensures var both, either := |InBoth(expected, actual)|, |InEither(expected, actual)|;
      SpanIou(expected, actual) == if either == 0 then 0.0 else both as real / either as real
  {
    hide Interval, InEither;
    IntervalsMeet(expected, actual);
    BothAndEither(expected, actual);
  }

  lemma ShareOf(share: real, both: nat, either: nat)
    requires both <= either && share == if either == 0 then 0.0 else both as real / either as real
    ensures share * either as real == both as real
  {
    if either != 0 {
      Quotient(both, either);
    }
  }

  lemma Quotient(a: nat, b: nat)
    requires b != 0
    ensures a as real / b as real * b as real == a as real
  {}

  /** The acceptance threshold 1 is reached exactly by equal nonempty spans whose
      doubled length still fits a usize: beyond that the union saturates. */
  lemma IouOne(expected: Span, actual: Span)
    requires expected.start < expected.end <= USIZE_MAX && actual.start < actual.end <= USIZE_MAX
    ensures SpanIou(expected, actual) == 1.0 <==> expected == actual && 2 * (expected.end - expected.start) <= USIZE_MAX
  {
    var intersection := Overlap(expected, actual);
    var union := SatSub(SatAdd(expected.end - expected.start, SatSub(actual.end, actual.start)), intersection);
    if union != 0 {
      RatioIsOne(intersection, union);
    }
  }

  lemma RatioIsOne(a: nat, b: nat)
    requires b != 0
    ensures a as real / b as real == 1.0 <==> a == b
  {
    if a as real / b as real == 1.0 {
      assert a as real == 1.0 * b as real;
    }
  }

  // ---------- choosing among the variants of an expected span ----------

  function BestSpanIou(expected: Span, actual: seq<Span>): real
    requires expected.start <= expected.end
  {
    if actual == [] then 0.0
    else
      var rest, last := BestSpanIou(expected, actual[..|actual| - 1]), SpanIou(expected, actual[|actual| - 1]);
      if rest < last then last else rest
  }

  lemma {:induction false} BestIsAttained(expected: Span, actual: seq<Span>)
    requires expected.start <= expected.end
    ensures forall a | a in actual :: SpanIou(expected, a) <= BestSpanIou(expected, actual)
    ensures BestSpanIou(expected, actual) == 0.0
      || exists a :: a in actual && SpanIou(expected, a) == BestSpanIou(expected, actual)
  {
    if actual != [] {
      var rest, last := actual[..|actual| - 1], actual[|actual| - 1];
      BestIsAttained(expected, rest);
      assert actual == rest + [last];
    }
  }

  ghost predicate AllOrdered(variants: seq<Span>) {
    forall v | v in variants :: v.start <= v.end
  }

  /** Variant i overlaps the actual spans best, and is the first to do so. */
  ghost predicate FirstBest(variants: seq<Span>, actual: seq<Span>, i: nat)
    requires AllOrdered(variants)
  {
    && i < |variants|
    && (forall j | 0 <= j < |variants| :: BestSpanIou(variants[j], actual) <= BestSpanIou(variants[i], actual))
    && (forall j | 0 <= j < i :: BestSpanIou(variants[j], actual) < BestSpanIou(variants[i], actual))
  }

  method SelectExpectedSpan(variants: seq<Span>, actual: seq<Span>) returns (best: Option<Span>)
    requires AllOrdered(variants)
    ensures best.None? <==> variants == []
    ensures best.Some? ==> exists i: nat :: FirstBest(variants, actual, i) && best.value == variants[i]
  {
    hide BestSpanIou;
    var bestIou := 0.0;
    best := None;
    ghost var at: nat := 0;
    for k := 0 to |variants|
      invariant best.None? <==> k == 0
      invariant best.Some? ==> at < k && best.value == variants[at] && bestIou == BestSpanIou(variants[at], actual)
      invariant best.Some? ==> FirstBest(variants[..k], actual, at)
    {
      var iou := BestSpanIou(variants[k], actual);
      assert variants[..k + 1] == variants[..k] + [variants[k]];
      if best.None? || iou > bestIou {
        best, bestIou, at := Some(variants[k]), iou, k;
      }
    }
    assert variants[..|variants|] == variants;
  }

  lemma IouAtMostOne(expected: Span, actual: Span)
    requires expected.start < expected.end && actual.start < actual.end
    requires 2 * (expected.end - expected.start) <= USIZE_MAX
    ensures SpanIou(expected, actual) <= 1.0
  {
    var intersection := Overlap(expected, actual);
    var union := SatSub(SatAdd(expected.end - expected.start, SatSub(actual.end, actual.start)), intersection);
    if union != 0 {
      RatioAtMostOne(intersection, union);
    }
  }

  lemma RatioAtMostOne(a: nat, b: nat)
    requires a <= b && b != 0
    ensures a as real / b as real <= 1.0
  {}

  /** When a variant was reported verbatim, the variant chosen was too. */
  lemma VerbatimVariantWins(variants: seq<Span>, actual: seq<Span>, i: nat, verbatim: Span)
    requires AllOrdered(variants) && FirstBest(variants, actual, i) && AllNonempty(variants) && AllNonempty(actual)
    requires forall v | v in variants :: 2 * (v.end - v.start) <= USIZE_MAX
    requires verbatim in variants && verbatim in actual
    ensures variants[i] in actual
  {
    hide SpanIou, BestSpanIou;
    var chosen := variants[i];
    BestIsAttained(verbatim, actual);
    IouOne(verbatim, verbatim);
    BestIsAttained(chosen, actual);
    var j :| 0 <= j < |variants| && variants[j] == verbatim;
    var a :| a in actual && SpanIou(chosen, a) == BestSpanIou(chosen, actual);
    IouAtMostOne(chosen, a);
    IouOne(chosen, a);
  }
}
