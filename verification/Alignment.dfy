/** Alignments of two texts, the reference of the whole evidence engine. */
module Alignment {
  // An alignment is a strictly increasing list of index pairs that carry equal
  // characters; "optimal" means of maximum length. The table code of LcsTables.dfy and
  // the masks of EditEvidence.dfy are proved against this module, which knows no tables.

  import opened Basics

  datatype Pair = Pair(o: nat, n: nat)

  type Pairing = seq<Pair>

  /** Strictly increasing on both sides. */
  ghost predicate Increasing(x: Pairing) {
    forall k, l | 0 <= k < l < |x| :: x[k].o < x[l].o && x[k].n < x[l].n
  }

  /** An alignment that uses old positions in `[i0, i1)` and new positions in `[j0, j1)` only. */
  ghost predicate AlignsIn(before: string, after: string, x: Pairing, i0: nat, j0: nat, i1: nat, j1: nat) {
    && i1 <= |before| && j1 <= |after|
    && Increasing(x)
    && forall k | 0 <= k < |x| ::
         i0 <= x[k].o < i1 && j0 <= x[k].n < j1 && before[x[k].o] == after[x[k].n]
  }

  ghost predicate Aligns(before: string, after: string, x: Pairing) {
    AlignsIn(before, after, x, 0, 0, |before|, |after|)
  }

  ghost predicate Optimal(before: string, after: string, x: Pairing) {
    && Aligns(before, after, x)
    && forall y | Aligns(before, after, y) :: |y| <= |x|
  }

  ghost predicate UsesOld(x: Pairing, i: nat) {
    exists k :: 0 <= k < |x| && x[k].o == i
  }

  ghost predicate UsesNew(x: Pairing, j: nat) {
    exists k :: 0 <= k < |x| && x[k].n == j
  }

  // ---------- the length of a longest alignment, by prefixes and by suffixes ----------

  ghost function PrefixLcs(before: string, after: string, i: nat, j: nat): nat
    requires i <= |before| && j <= |after|
  {
    if i == 0 || j == 0 then 0
    else if before[i - 1] == after[j - 1] then PrefixLcs(before, after, i - 1, j - 1) + 1
    else Max(PrefixLcs(before, after, i - 1, j), PrefixLcs(before, after, i, j - 1))
  }

  ghost function SuffixLcs(before: string, after: string, i: nat, j: nat): nat
    requires i <= |before| && j <= |after|
    decreases |before| - i, |after| - j
  {
    if i == |before| || j == |after| then 0
    else if before[i] == after[j] then SuffixLcs(before, after, i + 1, j + 1) + 1
    else Max(SuffixLcs(before, after, i + 1, j), SuffixLcs(before, after, i, j + 1))
  }

  ghost function Lcs(before: string, after: string): nat {
    PrefixLcs(before, after, |before|, |after|)
  }

  /** No alignment of two prefixes is longer than PrefixLcs. */
  lemma {:induction false} PrefixUpper(before: string, after: string, i: nat, j: nat, x: Pairing)
    requires AlignsIn(before, after, x, 0, 0, i, j)
    ensures |x| <= PrefixLcs(before, after, i, j)
    decreases i + j
  {
    if x == [] {
      return;
    }
    var last := x[|x| - 1];
    assert last.o < i && last.n < j;
    if before[i - 1] == after[j - 1] {
      var y := x[..|x| - 1];
      assert forall k | 0 <= k < |y| :: y[k].o < last.o && y[k].n < last.n;
      PrefixUpper(before, after, i - 1, j - 1, y);
    } else if last.o == i - 1 {
      PrefixUpper(before, after, i, j - 1, x);
    } else {
      PrefixUpper(before, after, i - 1, j, x);
    }
  }

  /** ... and some alignment of the prefixes has that length. */
  lemma {:induction false} PrefixWitness(before: string, after: string, i: nat, j: nat) returns (x: Pairing)
    requires i <= |before| && j <= |after|
    ensures AlignsIn(before, after, x, 0, 0, i, j)
    ensures |x| == PrefixLcs(before, after, i, j)
    decreases i + j
  {
    if i == 0 || j == 0 {
      x := [];
    } else if before[i - 1] == after[j - 1] {
      x := PrefixWitness(before, after, i - 1, j - 1);
      x := x + [Pair(i - 1, j - 1)];
    } else if PrefixLcs(before, after, i - 1, j) < PrefixLcs(before, after, i, j - 1) {
      x := PrefixWitness(before, after, i, j - 1);
    } else {
      x := PrefixWitness(before, after, i - 1, j);
    }
  }

  /** No alignment of two suffixes is longer than SuffixLcs. */
  lemma {:induction false} SuffixUpper(before: string, after: string, i: nat, j: nat, x: Pairing)
    requires i <= |before| && j <= |after|
    requires AlignsIn(before, after, x, i, j, |before|, |after|)
    ensures |x| <= SuffixLcs(before, after, i, j)
    decreases |before| - i + |after| - j
  {
    if x == [] {
      return;
    }
    var first := x[0];
    assert i <= first.o && j <= first.n;
    if before[i] == after[j] {
      var y := x[1..];
      assert forall k | 0 <= k < |y| :: first.o < y[k].o && first.n < y[k].n;
      SuffixUpper(before, after, i + 1, j + 1, y);
    } else if first.o == i {
      SuffixUpper(before, after, i, j + 1, x);
    } else {
      SuffixUpper(before, after, i + 1, j, x);
    }
  }

  /** ... and some alignment of the suffixes has that length. */
  lemma {:induction false} SuffixWitness(before: string, after: string, i: nat, j: nat) returns (x: Pairing)
    requires i <= |before| && j <= |after|
    ensures AlignsIn(before, after, x, i, j, |before|, |after|)
    ensures |x| == SuffixLcs(before, after, i, j)
    decreases |before| - i + |after| - j
  {
    if i == |before| || j == |after| {
      x := [];
    } else if before[i] == after[j] {
      x := SuffixWitness(before, after, i + 1, j + 1);
      x := [Pair(i, j)] + x;
    } else if SuffixLcs(before, after, i + 1, j) < SuffixLcs(before, after, i, j + 1) {
      x := SuffixWitness(before, after, i, j + 1);
    } else {
      x := SuffixWitness(before, after, i + 1, j);
    }
  }

  /** Neighbouring prefix values never exceed a matching step, so the two extra
      maxima the table code takes on a match change nothing. */
  lemma PrefixNeighbours(before: string, after: string, i: nat, j: nat)
    requires 0 < i <= |before| && 0 < j <= |after|
    ensures PrefixLcs(before, after, i - 1, j) <= PrefixLcs(before, after, i, j)
    ensures PrefixLcs(before, after, i, j - 1) <= PrefixLcs(before, after, i, j)
  {
    var up := PrefixWitness(before, after, i - 1, j);
    PrefixUpper(before, after, i, j, up);
    var left := PrefixWitness(before, after, i, j - 1);
    PrefixUpper(before, after, i, j, left);
  }

  lemma SuffixNeighbours(before: string, after: string, i: nat, j: nat)
    requires i < |before| && j < |after|
    ensures SuffixLcs(before, after, i + 1, j) <= SuffixLcs(before, after, i, j)
    ensures SuffixLcs(before, after, i, j + 1) <= SuffixLcs(before, after, i, j)
  {
    var down := SuffixWitness(before, after, i + 1, j);
    SuffixUpper(before, after, i, j, down);
    var right := SuffixWitness(before, after, i, j + 1);
    SuffixUpper(before, after, i, j, right);
  }

  lemma PrefixBounds(before: string, after: string, i: nat, j: nat)
    requires i <= |before| && j <= |after|
    ensures PrefixLcs(before, after, i, j) <= i
    ensures PrefixLcs(before, after, i, j) <= j
  {}

  lemma {:induction before, after, i, j} SuffixBounds(before: string, after: string, i: nat, j: nat)
    requires i <= |before| && j <= |after|
    ensures SuffixLcs(before, after, i, j) <= |before| - i
    ensures SuffixLcs(before, after, i, j) <= |after| - j
    decreases |before| - i + |after| - j
  {}

  /** Optimal alignments are exactly those of length Lcs, and one exists. */
  lemma OptimalLength(before: string, after: string, x: Pairing)
    requires Aligns(before, after, x)
    ensures |x| <= Lcs(before, after)
    ensures Optimal(before, after, x) <==> |x| == Lcs(before, after)
  {
    var w := PrefixWitness(before, after, |before|, |after|);
    forall y | Aligns(before, after, y) ensures |y| <= Lcs(before, after) {
      PrefixUpper(before, after, |before|, |after|, y);
    }
  }

  lemma OptimalWitness(before: string, after: string) returns (x: Pairing)
    ensures Optimal(before, after, x)
  {
    x := PrefixWitness(before, after, |before|, |after|);
    OptimalLength(before, after, x);
  }

  // ---------- splitting and joining ----------

  /** Two alignments in boxes that follow one another concatenate. */
  lemma Join(before: string, after: string, x: Pairing, y: Pairing, i: nat, j: nat, i': nat, j': nat)
    requires i <= i' && j <= j'
    requires AlignsIn(before, after, x, 0, 0, i, j)
    requires AlignsIn(before, after, y, i', j', |before|, |after|)
    ensures Aligns(before, after, x + y)
  {}

  lemma Before(before: string, after: string, x: Pairing, k: nat)
    requires k < |x| && Aligns(before, after, x)
    ensures AlignsIn(before, after, x[..k], 0, 0, x[k].o, x[k].n)
  {
    var u := x[..k];
    forall l | 0 <= l < |u| ensures u[l].o < x[k].o && u[l].n < x[k].n && before[u[l].o] == after[u[l].n] {
      assert u[l] == x[l];
    }
  }

  lemma After(before: string, after: string, x: Pairing, k: nat)
    requires k < |x| && Aligns(before, after, x)
    ensures AlignsIn(before, after, x[k + 1..], x[k].o + 1, x[k].n + 1, |before|, |after|)
  {
    var v := x[k + 1..];
    forall l | 0 <= l < |v|
      ensures x[k].o < v[l].o < |before| && x[k].n < v[l].n < |after| && before[v[l].o] == after[v[l].n]
    {
      assert v[l] == x[k + 1 + l];
    }
  }

  /** The longest alignment through the pair (i, j) is what the probe computes
      as forward + 1 + reverse: it is attained ... */
  lemma ThroughWitness(before: string, after: string, i: nat, j: nat) returns (x: Pairing)
    requires i < |before| && j < |after| && before[i] == after[j]
    ensures Aligns(before, after, x) && Pair(i, j) in x
    ensures |x| == PrefixLcs(before, after, i, j) + 1 + SuffixLcs(before, after, i + 1, j + 1)
  {
    var u := PrefixWitness(before, after, i, j);
    var v := SuffixWitness(before, after, i + 1, j + 1);
    var w := u + [Pair(i, j)];
    Join(before, after, w, v, i + 1, j + 1, i + 1, j + 1);
    x := w + v;
    assert x[|u|] == Pair(i, j);
  }

  /** ... and never exceeded. */
  lemma ThroughUpper(before: string, after: string, i: nat, j: nat, x: Pairing)
    requires i < |before| && j < |after| && Aligns(before, after, x) && Pair(i, j) in x
    ensures |x| <= PrefixLcs(before, after, i, j) + 1 + SuffixLcs(before, after, i + 1, j + 1)
  {
    var k :| 0 <= k < |x| && x[k] == Pair(i, j);
    Before(before, after, x, k);
    PrefixUpper(before, after, i, j, x[..k]);
    After(before, after, x, k);
    SuffixUpper(before, after, i + 1, j + 1, x[k + 1..]);
  }

  /** The pair test of the probe: forward + 1 + reverse reaches the optimum
      exactly when some optimal alignment uses the pair. */
  lemma ThroughPair(before: string, after: string, i: nat, j: nat)
    requires i < |before| && j < |after| && before[i] == after[j]
    ensures PrefixLcs(before, after, i, j) + 1 + SuffixLcs(before, after, i + 1, j + 1) == Lcs(before, after)
       <==> exists x :: Optimal(before, after, x) && Pair(i, j) in x
  {
    var w := ThroughWitness(before, after, i, j);
    OptimalLength(before, after, w);
    forall x | Optimal(before, after, x) && Pair(i, j) in x
      ensures |w| == Lcs(before, after)
    {
      ThroughUpper(before, after, i, j, x);
      OptimalLength(before, after, x);
    }
  }

  /** Two optimal halves, split at old position s, go around new position j without loss. */
  ghost predicate OptimalAround(before: string, after: string, s: nat, j: nat)
    requires s <= |before| && j < |after|
  {
    PrefixLcs(before, after, s, j) + SuffixLcs(before, after, s, j + 1) == Lcs(before, after)
  }

  /** Some optimal alignment skips new position j exactly when some old split goes around it without loss. */
  lemma AroundColumn(before: string, after: string, j: nat)
    requires j < |after|
    ensures (exists s: nat :: s <= |before| && OptimalAround(before, after, s, j))
       <==> (exists x :: Optimal(before, after, x) && !UsesNew(x, j))
  {
    if s: nat :| s <= |before| && OptimalAround(before, after, s, j) {
      var u := PrefixWitness(before, after, s, j);
      var v := SuffixWitness(before, after, s, j + 1);
      Join(before, after, u, v, s, j, s, j + 1);
      OptimalLength(before, after, u + v);
      assert !UsesNew(u + v, j);
    }
    if x: Pairing :| Optimal(before, after, x) && !UsesNew(x, j) {
      OptimalLength(before, after, x);
      var s := SkipSplit(before, after, x, j);
      assert OptimalAround(before, after, s, j);
    }
  }

  /** An optimal alignment that skips column j splits into two optimal halves around it. */
  lemma SkipSplit(before: string, after: string, x: Pairing, j: nat) returns (s: nat)
    requires j < |after| && Aligns(before, after, x) && !UsesNew(x, j) && |x| == Lcs(before, after)
    ensures s <= |before|
    ensures PrefixLcs(before, after, s, j) + SuffixLcs(before, after, s, j + 1) == Lcs(before, after)
  {
    var k := 0;
    while k < |x| && x[k].n < j
      invariant 0 <= k <= |x|
      invariant forall l | 0 <= l < k :: x[l].n < j
    {
      k := k + 1;
    }
    s := if k < |x| then x[k].o else |before|;
    assert k < |x| ==> x[k].n > j;
    PrefixUpper(before, after, s, j, x[..k]);
    SuffixUpper(before, after, s, j + 1, x[k..]);
    var u := PrefixWitness(before, after, s, j);
    var v := SuffixWitness(before, after, s, j + 1);
    Join(before, after, u, v, s, j, s, j + 1);
    PrefixUpper(before, after, |before|, |after|, u + v);
  }
}
