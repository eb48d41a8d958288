/** The probe's operations over the evidence engine: literal mandatory evidence,
    the audit of an annotated mask, the domain proof, and mask/range conversion. */
module StructureProbe {
  import opened Basics
  import opened Alignment
  import opened LcsTables
  import opened RegionBounds
  import opened EditEvidence

  datatype ProbeError =
    | TableError(error: Error)
    | CostOutOfRange
    | MaskLengthMismatch
    | CountOverflowed
    | BadRanges

  function OptimalEditCost(oldLength: nat, newLength: nat, lcs: nat): Result<nat, ProbeError> {
    if oldLength + newLength > USIZE_MAX || 2 * lcs > USIZE_MAX || oldLength + newLength < 2 * lcs
    then Err(CostOutOfRange)
    else Ok(oldLength + newLength - 2 * lcs)
  }

  /** On texts small enough for the tables no step of the cost arithmetic overflows or underflows. */
  lemma CostIsExact(before: string, after: string)
    requires TableBytes(before, after) <= MAX_LCS_MEMORY_BYTES
    ensures OptimalCost(before, after) >= 0
    ensures OptimalEditCost(|before|, |after|, Lcs(before, after)) == Ok(OptimalCost(before, after))
    ensures |before| + |after| <= MAX_LCS_MEMORY_BYTES
  {
    PrefixBounds(before, after, |before|, |after|);
    LengthsUnderGuard(|before|, |after|);
  }

  lemma LengthsUnderGuard(rows: nat, columns: nat)
    ensures rows + columns <= (rows + 1) * (columns + 1) * 4 * 2
  {
    assert (rows + 1) * (columns + 1) == rows * columns + rows + columns + 1;
  }

  // ---------- edit facts and the literal mandatory evidence ----------

  datatype EditFacts = EditFacts(
    changedCount: nat,
    optimalEditCost: nat,
    completeEditWitness: bool,
    minimalCompleteEditWitness: bool,
    changedUnlocalized: bool)

  function FactsOf(before: string, after: string, oldMask: Mask, newMask: Mask, optimalCost: nat)
    : Result<EditFacts, ProbeError>
  {
    if |oldMask| != |before| || |newMask| != |after| then Err(MaskLengthMismatch)
    else
      var changed := ChangedCount(oldMask) + ChangedCount(newMask);
      if changed > USIZE_MAX then Err(CountOverflowed)
      else
        var complete := KeptText(before, oldMask) == KeptText(after, newMask);
        Ok(EditFacts(changed, optimalCost, complete, complete && changed == optimalCost, optimalCost > 0 && !complete))
  }

  lemma {:induction mask} ChangedCountBound(mask: Mask)
    ensures ChangedCount(mask) <= |mask|
  {}

  /** What the reported literal facts mean: the witness is complete exactly when
      all optimal alignments keep the same positions, a complete witness is always
      minimal, and "changed but unlocalized" is exactly their disagreement. */
  ghost predicate LiteralFacts(before: string, after: string, oldMask: Mask, newMask: Mask, facts: EditFacts) {
    && MandatoryMasks(before, after, oldMask, newMask)
    && facts.changedCount == MaskCost(oldMask, newMask)
    && facts.changedCount <= facts.optimalEditCost == OptimalCost(before, after)
    && (facts.completeEditWitness <==> KeepsAgree(before, after))
    && (facts.minimalCompleteEditWitness <==> facts.completeEditWitness)
    && (facts.changedUnlocalized <==> !KeepsAgree(before, after))
  }

  method LiteralMandatoryEvidence(before: string, after: string)
    returns (r: Result<(Mask, Mask, EditFacts), ProbeError>)
    ensures r.Ok? <==> TableBytes(before, after) <= MAX_LCS_MEMORY_BYTES
    ensures r.Ok? ==> LiteralFacts(before, after, r.value.0, r.value.1, r.value.2)
  {
    LengthsUnderGuard(|before|, |after|);
    var tables := New(before, after);
    if tables.Err? {
      return Err(TableError(tables.error));
    }
    var oldMask, newMask := MandatoryChanged(tables.value, before, after);
    CostIsExact(before, after);
    ChangedCountBound(oldMask);
    ChangedCountBound(newMask);
    var cost := OptimalEditCost(|before|, |after|, tables.value.lcs);
    if cost == Err(CostOutOfRange) {
      return Err(CostOutOfRange);
    }
    var facts := FactsOf(before, after, oldMask, newMask, cost.value);
    if facts == Err(MaskLengthMismatch) || facts == Err(CountOverflowed) {
      return Err(CountOverflowed);
    }
    MandatoryEquivalence(before, after, oldMask, newMask);
    ghost var w := OptimalWitness(before, after);
    MandatoryInside(before, after, oldMask, newMask, w);
    r := Ok((oldMask, newMask, facts.value));
  }

  // ---------- masks and ranges ----------

  /** Sorted, disjoint, valid ranges: what the annotation must list. */
  ghost predicate RangesFrom(ranges: seq<Span>, from: nat, length: nat) {
    && (forall k | 0 <= k < |ranges| :: from <= ranges[k].start <= ranges[k].end <= length)
    && forall k, l | 0 <= k < l < |ranges| :: ranges[k].end <= ranges[l].start
  }

  ghost predicate Covered(ranges: seq<Span>, i: int) {
    exists k :: 0 <= k < |ranges| && ranges[k].start <= i < ranges[k].end
  }

  method RangeMask(ranges: seq<Span>, length: nat) returns (r: Result<Mask, ProbeError>)
    ensures r.Ok? <==> RangesFrom(ranges, 0, length)
    ensures r.Err? ==> r.error == BadRanges
    ensures r.Ok? ==> |r.value| == length && forall i | 0 <= i < length :: r.value[i] <==> Covered(ranges, i)
  {
    var mask := new bool[length](_ => false);
    var previousEnd := 0;
    for n := 0 to |ranges|
      invariant RangesFrom(ranges[..n], 0, length)
      invariant previousEnd == if n == 0 then 0 else ranges[n - 1].end
      invariant forall k | 0 <= k < n :: ranges[k].end <= previousEnd
      invariant forall i | 0 <= i < length :: mask[i] <==> Covered(ranges[..n], i)
    {
      var range := ranges[n];
      assert ranges[..n + 1] == ranges[..n] + [range];
      if range.start > range.end || range.end > length || range.start < previousEnd {
        return Err(BadRanges);
      }
      CoveredByOneMore(ranges[..n], range);
      forall i | range.start <= i < range.end {
        mask[i] := true;
      }
      previousEnd := range.end;
    }
    assert ranges[..|ranges|] == ranges;
    r := Ok(mask[..]);
  }

  /** Nonempty ranges with a gap between neighbours: the maximal runs of a mask. */
  ghost predicate Runs(ranges: seq<Span>) {
    && (forall k | 0 <= k < |ranges| :: ranges[k].start < ranges[k].end)
    && forall k, l | 0 <= k < l < |ranges| :: ranges[k].end < ranges[l].start
  }

  /** The runs of a mask are a valid range list that RangeMask turns back into the mask. */
  method MaskRanges(mask: Mask) returns (ranges: seq<Span>)
    ensures RangesFrom(ranges, 0, |mask|) && Runs(ranges)
    ensures forall i | 0 <= i < |mask| :: mask[i] <==> Covered(ranges, i)
  {
    ranges := [];
    var start: Option<nat> := None;
    for index := 0 to |mask|
      invariant RangesFrom(ranges, 0, index) && Runs(ranges)
      invariant forall k | 0 <= k < |ranges| :: ranges[k].end < index
      invariant start.Some? ==> start.value < index && forall i | start.value <= i < index :: mask[i]
      invariant start.Some? ==> forall k | 0 <= k < |ranges| :: ranges[k].end < start.value
      invariant forall i | 0 <= i < (if start.None? then index else start.value) :: mask[i] <==> Covered(ranges, i)
    {
      match (start, mask[index])
      case (None, true) =>
        start := Some(index);
      case (Some(begin), false) =>
        CoveredByOneMore(ranges, Span(begin, index));
        AppendRun(ranges, Span(begin, index));
        ranges := ranges + [Span(begin, index)];
        start := None;
      case _ =>
    }
    if start.Some? {
      CoveredByOneMore(ranges, Span(start.value, |mask|));
      AppendRun(ranges, Span(start.value, |mask|));
      ranges := ranges + [Span(start.value, |mask|)];
    }
  }

  lemma CoveredByOneMore(ranges: seq<Span>, last: Span)
    ensures forall i :: Covered(ranges + [last], i) <==> Covered(ranges, i) || last.start <= i < last.end
  {
    forall i ensures Covered(ranges + [last], i) <==> Covered(ranges, i) || last.start <= i < last.end {
      var all := ranges + [last];
      assert all[|ranges|] == last;
      assert forall k | 0 <= k < |ranges| :: all[k] == ranges[k];
    }
  }

  lemma AppendRun(ranges: seq<Span>, last: Span)
    requires RangesFrom(ranges, 0, last.start) && Runs(ranges) && last.start < last.end
    requires forall k | 0 <= k < |ranges| :: ranges[k].end < last.start
    ensures RangesFrom(ranges + [last], 0, last.end) && Runs(ranges + [last])
  {}

  ghost predicate SameCover(a: seq<Span>, b: seq<Span>) {
    forall i :: Covered(a, i) <==> Covered(b, i)
  }

  /** Runs are canonical: two run lists that cover the same positions are equal,
      so ranges, mask and ranges again is a round trip on runs. */
  lemma {:induction false} RunsUnique(a: seq<Span>, b: seq<Span>)
    requires Runs(a) && Runs(b)
    requires SameCover(a, b)
    ensures a == b
  {
    assert b != [] ==> Covered(b, b[0].start);
    assert a != [] ==> Covered(a, a[0].start);
    if a != [] {
      var m, n := |a| - 1, |b| - 1;
      SameLastRun(a, b);
      RunsUnique(a[..m], b[..n]);
      assert a == a[..m] + [a[m]] && b == b[..n] + [b[n]];
    }
  }

  lemma SameLastRun(a: seq<Span>, b: seq<Span>)
    requires Runs(a) && Runs(b) && a != [] && b != []
    requires SameCover(a, b)
    ensures a[|a| - 1] == b[|b| - 1]
    ensures SameCover(a[..|a| - 1], b[..|b| - 1])
  {
    var u, v := a[|a| - 1], b[|b| - 1];
    assert Covered(b, u.end - 1) && Covered(a, v.end - 1);
    assert !Covered(a, u.start - 1) && !Covered(b, v.start - 1);
    assert u.start < v.start ==> Covered(a, v.start - 1);
    assert v.start < u.start ==> Covered(b, u.start - 1);
    var p, q := a[..|a| - 1], b[..|b| - 1];
    forall i ensures Covered(p, i) <==> Covered(q, i) {
      assert Covered(a, i) <==> Covered(b, i);
    }
  }

  // ---------- auditing an annotated mask ----------

  datatype MaskAudit = MaskAudit(
    scalarLcs: nat,
    scalarOptimalCost: nat,
    oldChangedCount: nat,
    newChangedCount: nat,
    expectedMaskCost: nat,
    isValidEditWitness: bool,
    inPolicySolutionSet: bool,
    expectedKeptPairs: nat,
    goldMinusOptimal: nat)

  ghost predicate MaskIs(mask: Mask, ranges: seq<Span>, length: nat) {
    |mask| == length && forall i | 0 <= i < length :: mask[i] <==> Covered(ranges, i)
  }

  ghost function CoveredIn(ranges: seq<Span>, length: nat): set<nat> {
    set i: nat | i < length && Covered(ranges, i)
  }

  /** The count of a mask is the number of positions it flags. */
  lemma {:induction false} ChangedIsCovered(mask: Mask, ranges: seq<Span>, length: nat)
    requires MaskIs(mask, ranges, length)
    ensures ChangedCount(mask) == |CoveredIn(ranges, length)|
  {
    if length == 0 {
      assert CoveredIn(ranges, length) == {};
    } else {
      ChangedIsCovered(mask[..length - 1], ranges, length - 1);
      assert CoveredIn(ranges, length)
        == CoveredIn(ranges, length - 1) + if mask[length - 1] then {length - 1} else {};
    }
  }

  /** An annotated mask is in the policy solution set exactly when it is the
      complement of an optimal alignment, and for a valid mask the reported
      distance to the optimum is exact. */
  ghost predicate AuditMeans(before: string, after: string, oldMask: Mask, newMask: Mask, audit: MaskAudit)
    requires |oldMask| == |before| && |newMask| == |after|
  {
    && audit.scalarLcs == Lcs(before, after)
    && audit.scalarOptimalCost == OptimalCost(before, after)
    && audit.expectedMaskCost == MaskCost(oldMask, newMask)
    && audit.expectedKeptPairs == |before| - audit.oldChangedCount
    && (audit.isValidEditWitness <==> exists x :: Exactly(before, after, x, oldMask, newMask))
    && (audit.inPolicySolutionSet <==>
          exists x :: Optimal(before, after, x) && Exactly(before, after, x, oldMask, newMask))
    && (audit.isValidEditWitness ==>
          && audit.expectedMaskCost == audit.scalarOptimalCost + audit.goldMinusOptimal
          && (audit.goldMinusOptimal == 0 <==> audit.inPolicySolutionSet))
  }

  method MaskFacts(before: string, after: string, oldRanges: seq<Span>, newRanges: seq<Span>)
    returns (r: Result<MaskAudit, ProbeError>)
    ensures r.Ok? <==>
      && TableBytes(before, after) <= MAX_LCS_MEMORY_BYTES
      && RangesFrom(oldRanges, 0, |before|)
      && RangesFrom(newRanges, 0, |after|)
    ensures r.Ok? ==> forall oldMask, newMask |
                MaskIs(oldMask, oldRanges, |before|) && MaskIs(newMask, newRanges, |after|) ::
                AuditMeans(before, after, oldMask, newMask, r.value)
    ensures r.Ok? ==> r.value.oldChangedCount == |CoveredIn(oldRanges, |before|)|
    ensures r.Ok? ==> r.value.newChangedCount == |CoveredIn(newRanges, |after|)|
    ensures r.Ok? ==> r.value.expectedMaskCost == r.value.oldChangedCount + r.value.newChangedCount
    ensures r.Ok? ==> r.value.expectedKeptPairs == |before| - |CoveredIn(oldRanges, |before|)|
  {
    LengthsUnderGuard(|before|, |after|);
    var tables := New(before, after);
    if tables.Err? {
      return Err(TableError(tables.error));
    }
    var oldChanged := RangeMask(oldRanges, |before|);
    if oldChanged.Err? {
      return Err(oldChanged.error);
    }
    var newChanged := RangeMask(newRanges, |after|);
    if newChanged.Err? {
      return Err(newChanged.error);
    }
    var keptOld := KeptText(before, oldChanged.value);
    var keptNew := KeptText(after, newChanged.value);
    var valid := keptOld == keptNew;
    var maskCost := ChangedCount(oldChanged.value) + ChangedCount(newChanged.value);
    CostIsExact(before, after);
    var cost := OptimalEditCost(|before|, |after|, tables.value.lcs);
    if cost == Err(CostOutOfRange) {
      return Err(CostOutOfRange);
    }
    var audit := MaskAudit(tables.value.lcs, cost.value, ChangedCount(oldChanged.value), ChangedCount(newChanged.value),
                           maskCost, valid, valid && |keptOld| == tables.value.lcs, |keptOld|,
                           SatSub(maskCost, cost.value));
    AuditProof(before, after, oldChanged.value, newChanged.value, audit);
    ChangedIsCovered(oldChanged.value, oldRanges, |before|);
    ChangedIsCovered(newChanged.value, newRanges, |after|);
    assert MaskIs(oldChanged.value, oldRanges, |before|) && MaskIs(newChanged.value, newRanges, |after|);
    forall oldMask, newMask | MaskIs(oldMask, oldRanges, |before|) && MaskIs(newMask, newRanges, |after|)
      ensures AuditMeans(before, after, oldMask, newMask, audit)
    {
      assert oldMask == oldChanged.value && newMask == newChanged.value;
    }
    r := Ok(audit);
  }

  lemma AuditProof(before: string, after: string, oldMask: Mask, newMask: Mask, audit: MaskAudit)
    requires |oldMask| == |before| && |newMask| == |after|
    requires audit.scalarLcs == Lcs(before, after) && audit.scalarOptimalCost == OptimalCost(before, after)
    requires audit.oldChangedCount == ChangedCount(oldMask) && audit.expectedMaskCost == MaskCost(oldMask, newMask)
    requires audit.isValidEditWitness <==> KeptText(before, oldMask) == KeptText(after, newMask)
    requires audit.expectedKeptPairs == |KeptText(before, oldMask)|
    requires audit.inPolicySolutionSet <==> audit.isValidEditWitness && audit.expectedKeptPairs == audit.scalarLcs
    requires audit.goldMinusOptimal == SatSub(audit.expectedMaskCost, audit.scalarOptimalCost)
    ensures AuditMeans(before, after, oldMask, newMask, audit)
  {
    KeptTextAt(before, oldMask);
    WitnessIsAlignment(before, after, oldMask, newMask);
    if audit.isValidEditWitness {
      WitnessCost(before, after, oldMask, newMask);
    }
  }

  // ---------- the domain proof over one query range ----------

  datatype DomainProof = DomainProof(
    queryLength: nat,
    scalarLcs: nat,
    scalarOptimalCost: nat,
    certainChanged: nat,
    ambiguous: nat,
    certainSame: nat,
    minInserted: nat,
    maxInserted: nat)

  ghost predicate Never(before: string, after: string, j: nat) {
    forall x | Optimal(before, after, x) :: !UsesNew(x, j)
  }

  ghost predicate Always(before: string, after: string, j: nat) {
    forall x | Optimal(before, after, x) :: UsesNew(x, j)
  }

  ghost function NeverIn(before: string, after: string, lo: nat, hi: nat): set<nat> {
    set j: nat | lo <= j < hi && Never(before, after, j)
  }

  ghost function AlwaysIn(before: string, after: string, lo: nat, hi: nat): set<nat> {
    set j: nat | lo <= j < hi && Always(before, after, j)
  }

  /** The certain counts are the numbers of never and of always matched positions
      in `[lo, hi)`, the three counts partition the range, and they enclose the
      insertion bounds, which are tight over all optimal alignments. */
  ghost predicate DomainMeans(before: string, after: string, lo: nat, hi: nat, p: DomainProof) {
    && lo <= hi <= |after|
    && p.scalarLcs == Lcs(before, after) && p.scalarOptimalCost == OptimalCost(before, after)
    && p.certainChanged == |NeverIn(before, after, lo, hi)|
    && p.certainSame == |AlwaysIn(before, after, lo, hi)|
    && p.certainChanged + p.ambiguous + p.certainSame == p.queryLength == hi - lo
    && TightBounds(before, after, lo, hi, p.minInserted, p.maxInserted)
    && p.certainChanged <= p.minInserted <= p.maxInserted <= p.certainChanged + p.ambiguous
  }

  method ProveDomain(before: string, after: string, lo: nat, hi: nat) returns (r: Result<DomainProof, ProbeError>)
    ensures r.Ok? <==> TableBytes(before, after) <= MAX_LCS_MEMORY_BYTES && lo <= hi <= |after|
    ensures r.Ok? ==> DomainMeans(before, after, lo, hi, r.value)
  {
    LengthsUnderGuard(|before|, |after|);
    var tables := New(before, after);
    if tables.Err? {
      return Err(TableError(tables.error));
    }
    var t := tables.value;
    var bounds := RegionInsertBounds(t, before, after, lo, hi);
    if bounds.Err? {
      return Err(TableError(bounds.error));
    }
    var changed, ambiguous, same := 0, 0, 0;
    for index := lo to hi
      invariant Counted(before, after, lo, index, changed, ambiguous, same)
    {
      PositionStateMeaning(t, before, after, index);
      CountStep(before, after, lo, index, changed, ambiguous, same);
      var state := NewPositionState(t, before, after, index);
      if state == Err(PositionOutside) {
        return Err(TableError(PositionOutside));
      }
      match state.value
      case CertainChanged => changed := changed + 1;
      case Ambiguous => ambiguous := ambiguous + 1;
      case CertainSame => same := same + 1;
    }
    CostIsExact(before, after);
    var cost := OptimalEditCost(|before|, |after|, t.lcs);
    if cost == Err(CostOutOfRange) {
      return Err(CostOutOfRange);
    }
    r := Ok(DomainProof(hi - lo, t.lcs, cost.value, changed, ambiguous, same, bounds.value.0, bounds.value.1));
  }

  /** The running counts after the positions below index. */
  ghost predicate Counted(before: string, after: string, lo: nat, index: nat, changed: nat, ambiguous: nat, same: nat) {
    && lo <= index
    && changed == |NeverIn(before, after, lo, index)|
    && same == |AlwaysIn(before, after, lo, index)|
    && changed + ambiguous + same == index - lo
    && forall x | Optimal(before, after, x) :: changed <= Inserted(x, lo, index) <= changed + ambiguous
  }

  /** Each position adds to the one count that its optimal alignments agree with. */
  lemma CountStep(before: string, after: string, lo: nat, index: nat, changed: nat, ambiguous: nat, same: nat)
    requires Counted(before, after, lo, index, changed, ambiguous, same)
    ensures Never(before, after, index) ==> Counted(before, after, lo, index + 1, changed + 1, ambiguous, same)
    ensures Always(before, after, index) ==> Counted(before, after, lo, index + 1, changed, ambiguous, same + 1)
    ensures !Never(before, after, index) && !Always(before, after, index) ==>
              Counted(before, after, lo, index + 1, changed, ambiguous + 1, same)
  {
    NeverStep(before, after, lo, index);
    AlwaysStep(before, after, lo, index);
    var w := OptimalWitness(before, after);
    assert !(Never(before, after, index) && Always(before, after, index));
    forall x | Optimal(before, after, x)
      ensures Inserted(x, lo, index + 1) == Inserted(x, lo, index) + if UsesNew(x, index) then 0 else 1
    {}
  }

  lemma NeverStep(before: string, after: string, lo: nat, index: nat)
    requires lo <= index
    ensures |NeverIn(before, after, lo, index + 1)|
         == |NeverIn(before, after, lo, index)| + if Never(before, after, index) then 1 else 0
  {
    if Never(before, after, index) {
      assert NeverIn(before, after, lo, index + 1) == NeverIn(before, after, lo, index) + {index};
    } else {
      assert NeverIn(before, after, lo, index + 1) == NeverIn(before, after, lo, index);
    }
  }

  lemma AlwaysStep(before: string, after: string, lo: nat, index: nat)
    requires lo <= index
    ensures |AlwaysIn(before, after, lo, index + 1)|
         == |AlwaysIn(before, after, lo, index)| + if Always(before, after, index) then 1 else 0
  {
    if Always(before, after, index) {
      assert AlwaysIn(before, after, lo, index + 1) == AlwaysIn(before, after, lo, index) + {index};
    } else {
      assert AlwaysIn(before, after, lo, index + 1) == AlwaysIn(before, after, lo, index);
    }
  }
}
