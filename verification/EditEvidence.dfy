/** Edit masks against alignments: when a pair of masks is an edit witness, when
    it is a minimal one, and what the literal mandatory mask certifies. */
module EditEvidence {
  import opened Alignment
  import opened LcsTables

  type Mask = seq<bool>

  function ChangedCount(mask: Mask): nat {
    if mask == [] then 0
    else ChangedCount(mask[..|mask| - 1]) + if mask[|mask| - 1] then 1 else 0
  }

  /** The characters a mask keeps, in order. */
  function KeptText(values: string, changed: Mask): string
    requires |values| == |changed|
  {
    if values == [] then []
    else
      var n := |values| - 1;
      KeptText(values[..n], changed[..n]) + if changed[n] then [] else [values[n]]
  }

  // ---------- the positions a mask keeps ----------

  ghost predicate StrictlyIncreasing(s: seq<nat>) {
    forall k, l | 0 <= k < l < |s| :: s[k] < s[l]
  }

  ghost function KeptIndices(mask: Mask): (r: seq<nat>)
    ensures StrictlyIncreasing(r)
    ensures forall i: nat :: i in r <==> i < |mask| && !mask[i]
    ensures |r| == |mask| - ChangedCount(mask)
  {
    if mask == [] then []
    else
      var n := |mask| - 1;
      var rest := KeptIndices(mask[..n]);
      assert forall k | 0 <= k < |rest| :: rest[k] in rest;
      assert forall i: nat | i < n :: mask[..n][i] == mask[i];
      if mask[n] then rest else rest + [n]
  }

  lemma {:induction false} KeptTextAt(values: string, mask: Mask)
    requires |values| == |mask|
    ensures |KeptText(values, mask)| == |KeptIndices(mask)|
    ensures forall k | 0 <= k < |KeptIndices(mask)| ::
              KeptIndices(mask)[k] < |values| && KeptText(values, mask)[k] == values[KeptIndices(mask)[k]]
  {
    if values != [] {
      var n := |values| - 1;
      var indices, rest := KeptIndices(mask), KeptIndices(mask[..n]);
      KeptTextAt(values[..n], mask[..n]);
      assert indices == if mask[n] then rest else rest + [n];
      assert KeptText(values, mask) == KeptText(values[..n], mask[..n]) + if mask[n] then [] else [values[n]];
    }
  }

  /** A strictly increasing list inside another is no longer, and equal when as long. */
  lemma {:induction false} IncreasingInside(a: seq<nat>, b: seq<nat>)
    requires StrictlyIncreasing(a) && StrictlyIncreasing(b)
    requires forall i | i in a :: i in b
    ensures |a| <= |b|
    ensures |a| == |b| ==> a == b
  {
    if a != [] {
      var m := |a| - 1;
      assert a[m] in b;
      var t :| 0 <= t < |b| && b[t] == a[m];
      var c := b[..t];
      forall i | i in a[..m] ensures i in c {
        var k :| 0 <= k < m && a[k] == i;
        assert a[k] in b;
        var l :| 0 <= l < |b| && b[l] == a[k];
        assert l < t;
        assert c[l] == i;
      }
      IncreasingInside(a[..m], c);
      if |a| == |b| {
        assert a == a[..m] + [a[m]] && b == b[..t] + [b[t]];
      }
    }
  }

  ghost function Olds(x: Pairing): (s: seq<nat>)
    ensures |s| == |x|
    ensures forall i :: i in s <==> UsesOld(x, i)
  {
    var s := seq(|x|, k requires 0 <= k < |x| => x[k].o);
    assert forall k | 0 <= k < |x| :: s[k] == x[k].o;
    s
  }

  ghost function News(x: Pairing): (s: seq<nat>)
    ensures |s| == |x|
    ensures forall j :: j in s <==> UsesNew(x, j)
  {
    var s := seq(|x|, k requires 0 <= k < |x| => x[k].n);
    assert forall k | 0 <= k < |x| :: s[k] == x[k].n;
    s
  }

  // ---------- masks that are exactly one alignment ----------

  /** The alignment matches precisely the positions the two masks keep. */
  ghost predicate Exactly(before: string, after: string, x: Pairing, oldMask: Mask, newMask: Mask)
    requires |oldMask| == |before| && |newMask| == |after|
  {
    && Aligns(before, after, x)
    && (forall i: nat | i < |before| :: UsesOld(x, i) <==> !oldMask[i])
    && (forall j: nat | j < |after| :: UsesNew(x, j) <==> !newMask[j])
  }

  lemma ExactlyIndices(before: string, after: string, x: Pairing, oldMask: Mask, newMask: Mask)
    requires |oldMask| == |before| && |newMask| == |after|
    requires Exactly(before, after, x, oldMask, newMask)
    ensures Olds(x) == KeptIndices(oldMask) && News(x) == KeptIndices(newMask)
  {
    IncreasingInside(Olds(x), KeptIndices(oldMask));
    IncreasingInside(KeptIndices(oldMask), Olds(x));
    IncreasingInside(News(x), KeptIndices(newMask));
    IncreasingInside(KeptIndices(newMask), News(x));
  }

  /** The kept texts agree exactly when the masks are the complement of some alignment. */
  lemma WitnessIsAlignment(before: string, after: string, oldMask: Mask, newMask: Mask)
    requires |oldMask| == |before| && |newMask| == |after|
    ensures KeptText(before, oldMask) == KeptText(after, newMask)
       <==> exists x :: Exactly(before, after, x, oldMask, newMask)
  {
    if KeptText(before, oldMask) == KeptText(after, newMask) {
      var x := ZipKept(before, after, oldMask, newMask);
    }
    forall x | Exactly(before, after, x, oldMask, newMask)
      ensures KeptText(before, oldMask) == KeptText(after, newMask)
    {
      AlignmentKeepsText(before, after, x, oldMask, newMask);
    }
  }

  lemma ZipKept(before: string, after: string, oldMask: Mask, newMask: Mask) returns (x: Pairing)
    requires |oldMask| == |before| && |newMask| == |after|
    requires KeptText(before, oldMask) == KeptText(after, newMask)
    ensures Exactly(before, after, x, oldMask, newMask)
  {
    var olds, news := KeptIndices(oldMask), KeptIndices(newMask);
    KeptTextAt(before, oldMask);
    KeptTextAt(after, newMask);
    x := Zip(olds, news);
    ZipAligns(before, after, oldMask, newMask, x);
    assert forall i: nat | i < |before| :: UsesOld(x, i) <==> i in olds;
    assert forall j: nat | j < |after| :: UsesNew(x, j) <==> j in news;
  }

  ghost function Zip(olds: seq<nat>, news: seq<nat>): (x: Pairing)
    requires |olds| == |news|
    ensures |x| == |olds| && forall k | 0 <= k < |x| :: x[k] == Pair(olds[k], news[k])
    ensures Olds(x) == olds && News(x) == news
  {
    seq(|olds|, k requires 0 <= k < |olds| => Pair(olds[k], news[k]))
  }

  lemma ZipAligns(before: string, after: string, oldMask: Mask, newMask: Mask, x: Pairing)
    requires |oldMask| == |before| && |newMask| == |after|
    requires KeptText(before, oldMask) == KeptText(after, newMask)
    requires |KeptIndices(oldMask)| == |KeptIndices(newMask)| && x == Zip(KeptIndices(oldMask), KeptIndices(newMask))
    ensures Aligns(before, after, x)
  {
    KeptTextAt(before, oldMask);
    KeptTextAt(after, newMask);
    forall k | 0 <= k < |x|
      ensures x[k].o < |before| && x[k].n < |after| && before[x[k].o] == after[x[k].n]
    {
      assert KeptText(before, oldMask)[k] == before[x[k].o];
      assert KeptText(after, newMask)[k] == after[x[k].n];
    }
  }

  lemma AlignmentKeepsText(before: string, after: string, x: Pairing, oldMask: Mask, newMask: Mask)
    requires |oldMask| == |before| && |newMask| == |after|
    requires Exactly(before, after, x, oldMask, newMask)
    ensures KeptText(before, oldMask) == KeptText(after, newMask)
    ensures |KeptText(before, oldMask)| == |x|
  {
    ExactlyIndices(before, after, x, oldMask, newMask);
    KeptTextAt(before, oldMask);
    KeptTextAt(after, newMask);
    forall k | 0 <= k < |x| ensures KeptText(before, oldMask)[k] == KeptText(after, newMask)[k] {
      assert Olds(x)[k] == x[k].o && News(x)[k] == x[k].n;
    }
  }

  // ---------- costs ----------

  ghost function OptimalCost(before: string, after: string): int {
    |before| + |after| - 2 * Lcs(before, after)
  }

  ghost function MaskCost(oldMask: Mask, newMask: Mask): nat {
    ChangedCount(oldMask) + ChangedCount(newMask)
  }

  /** Every edit witness costs at least the optimum, and costs exactly the
      optimum when it is the complement of an optimal alignment. */
  lemma WitnessCost(before: string, after: string, oldMask: Mask, newMask: Mask)
    requires |oldMask| == |before| && |newMask| == |after|
    requires KeptText(before, oldMask) == KeptText(after, newMask)
    ensures MaskCost(oldMask, newMask) >= OptimalCost(before, after) >= 0
    ensures MaskCost(oldMask, newMask) == OptimalCost(before, after)
       <==> |KeptText(before, oldMask)| == Lcs(before, after)
    ensures MaskCost(oldMask, newMask) == OptimalCost(before, after)
       <==> exists x :: Optimal(before, after, x) && Exactly(before, after, x, oldMask, newMask)
  {
    var x := ZipKept(before, after, oldMask, newMask);
    OptimalLength(before, after, x);
    ExactlyIndices(before, after, x, oldMask, newMask);
    AlignmentKeepsText(before, after, x, oldMask, newMask);
    forall y | Optimal(before, after, y) && Exactly(before, after, y, oldMask, newMask)
      ensures |y| == |x|
    {
      ExactlyIndices(before, after, y, oldMask, newMask);
    }
    PrefixBounds(before, after, |before|, |after|);
  }

  // ---------- the literal mandatory mask ----------

  ghost predicate SamePositions(x: Pairing, y: Pairing) {
    (forall i: nat :: UsesOld(x, i) <==> UsesOld(y, i)) && (forall j: nat :: UsesNew(x, j) <==> UsesNew(y, j))
  }

  /** Every optimal alignment keeps the same positions. */
  ghost predicate KeepsAgree(before: string, after: string) {
    forall x, y | Optimal(before, after, x) && Optimal(before, after, y) :: SamePositions(x, y)
  }

  /** An optimal alignment matches only positions the mandatory masks keep, so
      the masks cost at most the optimum, and cost the optimum only when every
      optimal alignment is exactly their complement. */
  lemma MandatoryInside(before: string, after: string, oldMask: Mask, newMask: Mask, x: Pairing)
    requires MandatoryMasks(before, after, oldMask, newMask) && Optimal(before, after, x)
    ensures forall i: nat | UsesOld(x, i) :: i < |before| && !oldMask[i]
    ensures forall j: nat | UsesNew(x, j) :: j < |after| && !newMask[j]
    ensures MaskCost(oldMask, newMask) <= OptimalCost(before, after)
    ensures MaskCost(oldMask, newMask) == OptimalCost(before, after) <==> Exactly(before, after, x, oldMask, newMask)
  {
    OptimalLength(before, after, x);
    forall i | i in Olds(x) ensures i in KeptIndices(oldMask) {
      assert KeptOld(before, after, i);
      assert i < |before|;
    }
    forall j | j in News(x) ensures j in KeptIndices(newMask) {
      assert KeptNew(before, after, j);
      assert j < |after|;
    }
    CostInside(before, after, oldMask, newMask, x);
  }

  /** An alignment inside the kept positions is all of them exactly when the costs agree. */
  lemma CostInside(before: string, after: string, oldMask: Mask, newMask: Mask, x: Pairing)
    requires |oldMask| == |before| && |newMask| == |after|
    requires Aligns(before, after, x) && |x| == Lcs(before, after)
    requires forall i | i in Olds(x) :: i in KeptIndices(oldMask)
    requires forall j | j in News(x) :: j in KeptIndices(newMask)
    ensures MaskCost(oldMask, newMask) <= OptimalCost(before, after)
    ensures MaskCost(oldMask, newMask) == OptimalCost(before, after) <==> Exactly(before, after, x, oldMask, newMask)
  {
    hide Exactly;
    IncreasingInside(Olds(x), KeptIndices(oldMask));
    IncreasingInside(News(x), KeptIndices(newMask));
    if MaskCost(oldMask, newMask) == OptimalCost(before, after) {
      AllKeptAreUsed(before, after, oldMask, newMask, x);
    }
    if Exactly(before, after, x, oldMask, newMask) {
      ExactlyIndices(before, after, x, oldMask, newMask);
    }
  }

  lemma AllKeptAreUsed(before: string, after: string, oldMask: Mask, newMask: Mask, x: Pairing)
    requires |oldMask| == |before| && |newMask| == |after| && Aligns(before, after, x)
    requires Olds(x) == KeptIndices(oldMask) && News(x) == KeptIndices(newMask)
    ensures Exactly(before, after, x, oldMask, newMask)
  {
    assert forall i: nat | i < |before| :: UsesOld(x, i) <==> i in KeptIndices(oldMask);
    assert forall j: nat | j < |after| :: UsesNew(x, j) <==> j in KeptIndices(newMask);
  }

  /** Where all optimal alignments keep the same positions, the mandatory masks are the
      complement of each of them, at the optimal cost. */
  lemma AgreementIsMinimal(before: string, after: string, oldMask: Mask, newMask: Mask)
    requires MandatoryMasks(before, after, oldMask, newMask) && KeepsAgree(before, after)
    ensures MaskCost(oldMask, newMask) == OptimalCost(before, after)
    ensures forall x | Optimal(before, after, x) :: Exactly(before, after, x, oldMask, newMask)
  {
    var w := OptimalWitness(before, after);
    OptimalLength(before, after, w);
    MandatoryInside(before, after, oldMask, newMask, w);
    forall i | i in KeptIndices(oldMask) ensures i in Olds(w) {
      var x :| Optimal(before, after, x) && UsesOld(x, i);
      assert SamePositions(x, w);
    }
    forall j | j in KeptIndices(newMask) ensures j in News(w) {
      var x :| Optimal(before, after, x) && UsesNew(x, j);
      assert SamePositions(x, w);
    }
    IncreasingInside(KeptIndices(oldMask), Olds(w));
    IncreasingInside(KeptIndices(newMask), News(w));
    forall x | Optimal(before, after, x) ensures Exactly(before, after, x, oldMask, newMask) {
      MandatoryInside(before, after, oldMask, newMask, x);
    }
  }

  /** For the literal mandatory mask three statements say the same thing: the kept
      texts agree, the changed count is the optimal cost, and every optimal
      alignment keeps the same positions. */
  lemma MandatoryEquivalence(before: string, after: string, oldMask: Mask, newMask: Mask)
    requires MandatoryMasks(before, after, oldMask, newMask)
    ensures KeptText(before, oldMask) == KeptText(after, newMask)
       <==> MaskCost(oldMask, newMask) == OptimalCost(before, after)
    ensures KeptText(before, oldMask) == KeptText(after, newMask) <==> KeepsAgree(before, after)
  {
    var w := OptimalWitness(before, after);
    MandatoryInside(before, after, oldMask, newMask, w);
    if KeptText(before, oldMask) == KeptText(after, newMask) {
      WitnessCost(before, after, oldMask, newMask);
    }
    if KeepsAgree(before, after) {
      AgreementIsMinimal(before, after, oldMask, newMask);
    }
    if MaskCost(oldMask, newMask) == OptimalCost(before, after) {
      AlignmentKeepsText(before, after, w, oldMask, newMask);
      forall x, y | Optimal(before, after, x) && Optimal(before, after, y) ensures SamePositions(x, y) {
        MandatoryInside(before, after, oldMask, newMask, x);
        MandatoryInside(before, after, oldMask, newMask, y);
      }
    }
  }

}
