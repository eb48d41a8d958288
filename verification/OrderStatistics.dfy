/** Percentiles: which sample of an unsorted list is picked, and what it means. A rank is
    either rounded up, or rounded to the nearest whole number with halves going up; the
    sample of a rank is told by counting the samples that are no larger, so it does not
    depend on the order in which they are listed or sorted. */
module OrderStatistics {
  import opened Basics
  import opened Sorting

  function CountAtMost(samples: seq<nat>, v: nat): nat {
    if samples == [] then 0 else (if samples[0] <= v then 1 else 0) + CountAtMost(samples[1..], v)
  }

  lemma {:induction false} CountInSorted(sorted: seq<nat>, k: nat, v: nat)
    requires Sorted(AtMost, sorted) && k < |sorted|
    ensures v >= sorted[k] <==> CountAtMost(sorted, v) > k
  {
    var rest := sorted[1..];
    if k > 0 {
      CountInSorted(rest, k - 1, v);
    } else if rest != [] {
      CountInSorted(rest, 0, v);
    }
  }

  /** The sample with k others before it in any ascending order. */
  function KthSmallest(samples: seq<nat>, k: nat): nat
    requires k < |samples|
  {
    SortKeeps(AtMost, samples);
    Sort(AtMost, samples)[k]
  }

  /** The one sample that a value reaches exactly when more than k samples are no larger. */
  ghost predicate IsKth(samples: seq<nat>, k: nat, value: nat) {
    value in samples && forall v: nat :: v >= value <==> CountAtMost(samples, v) > k
  }

  lemma KthSmallestMeaning(samples: seq<nat>, k: nat)
    requires k < |samples|
    ensures IsKth(samples, k, KthSmallest(samples, k))
  {
    var value, sorted := KthSmallest(samples, k), Sort(AtMost, samples);
    SortKeeps(AtMost, samples);
    SortSorts(AtMost, samples);
    assert value in multiset(sorted) && value in multiset(samples);
    forall v: nat ensures v >= value <==> CountAtMost(samples, v) > k {
      CountInAnyOrder(samples, sorted, v);
      CountInSorted(sorted, k, v);
    }
  }

  /** The order of the samples does not matter. */
  lemma {:induction false} CountInAnyOrder(a: seq<nat>, b: seq<nat>, v: nat)
    requires multiset(a) == multiset(b)
    ensures CountAtMost(a, v) == CountAtMost(b, v)
    decreases |a|
  {
    hide CountAtMost;
    assert |multiset(a)| == |a| && |multiset(b)| == |b|;
    if a != [] {
      assert a[0] in multiset(b);
      var c := Without(a, a[0], v);
      var d := Without(b, a[0], v);
      CountInAnyOrder(c, d, v);
    } else {
      assert b == [];
    }
  }

  lemma Without(samples: seq<nat>, x: nat, v: nat) returns (rest: seq<nat>)
    requires x in samples
    ensures multiset(rest) == multiset(samples) - multiset{x} && |rest| < |samples|
    ensures CountAtMost(samples, v) == CountAtMost([x], v) + CountAtMost(rest, v)
  {
    var i :| 0 <= i < |samples| && samples[i] == x;
    rest := samples[..i] + samples[i + 1..];
    assert samples == samples[..i] + ([x] + samples[i + 1..]);
    TakenOut(samples[..i], x, samples[i + 1..], v);
  }

  lemma TakenOut(before: seq<nat>, x: nat, after: seq<nat>, v: nat)
    ensures multiset(before + after) == multiset(before + ([x] + after)) - multiset{x}
    ensures CountAtMost(before + ([x] + after), v) == CountAtMost([x], v) + CountAtMost(before + after, v)
  {
    CountJoins(before, [x] + after, v);
    CountJoins([x], after, v);
    CountJoins(before, after, v);
  }

  lemma {:induction false} CountJoins(a: seq<nat>, b: seq<nat>, v: nat)
    ensures CountAtMost(a + b, v) == CountAtMost(a, v) + CountAtMost(b, v)
  {
    if a == [] {
      assert a + b == b;
    } else {
      assert (a + b)[1..] == a[1..] + b;
      CountJoins(a[1..], b, v);
    }
  }

  lemma KthInAnyOrder(a: seq<nat>, b: seq<nat>, k: nat, value: nat)
    requires multiset(a) == multiset(b) && IsKth(a, k, value)
    ensures IsKth(b, k, value)
  {
    assert value in multiset(a) && value in multiset(b);
    forall v: nat ensures CountAtMost(a, v) == CountAtMost(b, v) {
      CountInAnyOrder(a, b, v);
    }
  }

  // ---------- rounding up to a rank ----------

  /** Rounded up, at least the first; beyond the last for percentiles over 100. */
  function CeilingRank(n: nat, percentile: nat): nat {
    var ceil := (n * percentile + 99) / 100;
    (if ceil < 1 then 1 else ceil) - 1
  }

  function Percentile(samples: seq<nat>, percentile: nat): Option<nat> {
    if samples == [] then None
    else
      var rank := CeilingRank(|samples|, percentile);
      if rank < |samples| then Some(KthSmallest(samples, rank)) else None
  }

  /** The least sample such that at least the given share of all samples is no larger. */
  lemma PercentileMeaning(samples: seq<nat>, percentile: nat, v: nat)
    requires samples != [] && 1 <= percentile <= 100
    ensures Percentile(samples, percentile).Some? && Percentile(samples, percentile).value in samples
    ensures v >= Percentile(samples, percentile).value <==> CountAtMost(samples, v) * 100 >= |samples| * percentile
  {
    var rank := CeilingRank(|samples|, percentile);
    RankInside(|samples|, percentile);
    KthSmallestMeaning(samples, rank);
  }

  lemma RankInside(n: nat, percentile: nat)
    requires n > 0 && 1 <= percentile <= 100
    ensures CeilingRank(n, percentile) < n
    ensures forall count: nat :: count > CeilingRank(n, percentile) <==> count * 100 >= n * percentile
  {
    assert 1 <= n * percentile <= n * 100;
  }

  // ---------- rounding to the nearest rank ----------

  /** (n - 1) * percent / 100 rounded, halves up. */
  function NearestRank(n: nat, percent: nat): nat
    requires n > 0
  {
    ((n - 1) * percent + 50) / 100
  }

  lemma NearestRankIsNearest(n: nat, percent: nat, other: nat)
    requires n > 0 && percent <= 100
    ensures NearestRank(n, percent) < n
    ensures var exact := (n - 1) * percent;
      exact - 50 < NearestRank(n, percent) * 100 <= exact + 50
    ensures var exact := (n - 1) * percent;
      exact - 50 < other * 100 <= exact + 50 ==> other == NearestRank(n, percent)
  {
    SharePart(n - 1, percent);
    Nearest((n - 1) * percent, n - 1, other);
  }

  lemma SharePart(last: nat, percent: nat)
    requires percent <= 100
    ensures 0 <= last * percent <= last * 100
  {}

  lemma Nearest(exact: nat, last: nat, other: nat)
    requires exact <= last * 100
    ensures (exact + 50) / 100 <= last && exact - 50 < (exact + 50) / 100 * 100 <= exact + 50
    ensures exact - 50 < other * 100 <= exact + 50 ==> other == (exact + 50) / 100
  {}

  function RoundedPercentile(samples: seq<nat>, percent: nat): nat
    requires percent <= 100
  {
    if samples == [] then 0
    else NearestRankIsNearest(|samples|, percent, 0); KthSmallest(samples, NearestRank(|samples|, percent))
  }

  /** The sample at the nearest rank, and 0 of none. */
  ghost predicate IsRoundedPercentile(samples: seq<nat>, percent: nat, value: nat) {
    if samples == [] then value == 0 else IsKth(samples, NearestRank(|samples|, percent), value)
  }

  /** Sorting a list in some other order first does not change the percentile. */
  lemma RoundedPercentileMeaning(samples: seq<nat>, shuffled: seq<nat>, percent: nat)
    requires percent <= 100 && multiset(samples) == multiset(shuffled)
    ensures IsRoundedPercentile(samples, percent, RoundedPercentile(shuffled, percent))
  {
    assert |multiset(samples)| == |samples| == |shuffled|;
    if shuffled != [] {
      NearestRankIsNearest(|samples|, percent, 0);
      var rank := NearestRank(|samples|, percent);
      KthSmallestMeaning(shuffled, rank);
      KthInAnyOrder(shuffled, samples, rank, KthSmallest(shuffled, rank));
    }
  }

  /** The largest sample, and 0 of none. */
  method Maximum(samples: seq<nat>) returns (max: nat)
    ensures IsMaximum(multiset(samples), max)
  {
    max := 0;
    for i := 0 to |samples|
      invariant forall j | 0 <= j < i :: samples[j] <= max
      invariant max == 0 || max in samples
      invariant i > 0 ==> max in samples
    {
      max := Max(max, samples[i]);
    }
  }

  ghost predicate IsMaximum(samples: multiset<nat>, max: nat) {
    && (forall x | x in samples :: x <= max)
    && (if samples == multiset{} then max == 0 else max in samples)
  }
}
