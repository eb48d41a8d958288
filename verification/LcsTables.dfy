/** The forward and reverse LCS tables, the mandatory-changed masks and the three-way
    position state, each proved against the alignments of Alignment.dfy. */
module LcsTables {
  import opened Basics
  import opened Alignment

  const U32_MAX: nat := 0xFFFF_FFFF
  const MAX_LCS_MEMORY_BYTES: nat := 64 * 1024 * 1024

  datatype Error =
    | LengthExceedsU32
    | MemoryGuard
    | LengthOverflow
    | PositionOutside
    | QueryOutside
    | CountOverflow
    | RowDisagrees
    | BoundUnderflow


  /** Both row-major tables of one pair of texts, and the length they agree on. */
  datatype Tables = Tables(columns: nat, forward: seq<nat>, reverse: seq<nat>, lcs: nat)

  // ---------- row-major indexing ----------

  function Index(rows: nat, columns: nat, i: nat, j: nat): (k: nat)
    requires i < rows && j < columns
    ensures k < rows * columns
  {
    IndexInside(rows, columns, i, j);
    i * columns + j
  }

  lemma IndexInside(rows: nat, columns: nat, i: nat, j: nat)
    requires i < rows && j < columns
    ensures 0 <= i * columns + j < rows * columns
  {
    WholeRows(i, rows, columns);
  }

  /** A whole row separates cells of different rows. */
  lemma WholeRows(i: nat, i': nat, columns: nat)
    requires i < i'
    ensures i * columns + columns <= i' * columns
  {
    assert i * columns + columns == (i + 1) * columns;
  }

  lemma IndexInjective(rows: nat, columns: nat, i: nat, j: nat, i': nat, j': nat)
    requires i < rows && j < columns && i' < rows && j' < columns
    requires i != i' || j != j'
    ensures Index(rows, columns, i, j) != Index(rows, columns, i', j')
  {
    if i < i' {
      WholeRows(i, i', columns);
    } else if i' < i {
      WholeRows(i', i, columns);
    }
  }

  lemma OtherCells(rows: nat, columns: nat, i: nat, j: nat)
    requires i < rows && j < columns
    ensures forall i': nat, j': nat | i' < rows && j' < columns && (i' != i || j' != j) ::
              Index(rows, columns, i', j') != Index(rows, columns, i, j)
  {
    forall i': nat, j': nat | i' < rows && j' < columns && (i' != i || j' != j)
      ensures Index(rows, columns, i', j') != Index(rows, columns, i, j)
    {
      IndexInjective(rows, columns, i', j', i, j);
    }
  }

  /** The tables hold the true LCS of every pair of prefixes and of every pair of suffixes. */
  ghost predicate Holds(t: Tables, before: string, after: string) {
    && t.columns == |after| + 1
    && |t.forward| == |t.reverse| == (|before| + 1) * t.columns
    && t.lcs == Lcs(before, after)
    && (forall i: nat, j: nat | i <= |before| && j <= |after| ::
          t.forward[Index(|before| + 1, t.columns, i, j)] == PrefixLcs(before, after, i, j))
    && (forall i: nat, j: nat | i <= |before| && j <= |after| ::
          t.reverse[Index(|before| + 1, t.columns, i, j)] == SuffixLcs(before, after, i, j))
  }

  /** The bytes the two tables take, as the guard counts them. */
  function TableBytes(before: string, after: string): nat {
    (|before| + 1) * (|after| + 1) * 4 * 2
  }

  /** One row of the forward table, from the exact row above it. */
  method ForwardRow(before: string, after: string, forward: array<nat>, rows: nat, columns: nat, oldCount: nat)
    returns (ok: bool)
    requires rows == |before| + 1 && columns == |after| + 1 && forward.Length == rows * columns
    requires 0 < oldCount <= |before| <= U32_MAX
    requires forward[Index(rows, columns, oldCount, 0)] == 0
    requires forall i: nat, j: nat | i + 1 == oldCount && j < columns ::
               forward[Index(rows, columns, i, j)] == PrefixLcs(before, after, i, j)
    modifies forward
    ensures ok
    ensures forall j: nat | j < columns ::
              forward[Index(rows, columns, oldCount, j)] == PrefixLcs(before, after, oldCount, j)
    ensures forall i: nat, j: nat | i < rows && j < columns && i != oldCount ::
              forward[Index(rows, columns, i, j)] == old(forward[Index(rows, columns, i, j)])
  {
    for newCount := 1 to columns
      invariant forall i: nat, j: nat | i < rows && j < columns && i != oldCount ::
                  forward[Index(rows, columns, i, j)] == old(forward[Index(rows, columns, i, j)])
      invariant forall j: nat | j < newCount ::
                  forward[Index(rows, columns, oldCount, j)] == PrefixLcs(before, after, oldCount, j)
    {
      var diagonal := forward[Index(rows, columns, oldCount - 1, newCount - 1)];
      var up := forward[Index(rows, columns, oldCount - 1, newCount)];
      var left := forward[Index(rows, columns, oldCount, newCount - 1)];
      var value := Max(up, left);
      if before[oldCount - 1] == after[newCount - 1] {
        PrefixBounds(before, after, oldCount - 1, newCount - 1);
        if diagonal == U32_MAX {
          return false;
        }
        PrefixNeighbours(before, after, oldCount, newCount);
        value := Max(Max(diagonal + 1, up), left);
      }
      OtherCells(rows, columns, oldCount, newCount);
      forward[Index(rows, columns, oldCount, newCount)] := value;
    }
    ok := true;
  }

  method FillForward(before: string, after: string, forward: array<nat>) returns (ok: bool)
    requires forward.Length == (|before| + 1) * (|after| + 1)
    requires forall k | 0 <= k < forward.Length :: forward[k] == 0
    requires |before| <= U32_MAX
    modifies forward
    ensures ok
    ensures forall i: nat, j: nat | i <= |before| && j <= |after| ::
              forward[Index(|before| + 1, |after| + 1, i, j)] == PrefixLcs(before, after, i, j)
  {
    var rows, columns := |before| + 1, |after| + 1;
    for oldCount := 1 to rows
      invariant forall i: nat, j: nat | i < oldCount && j < columns ::
                  forward[Index(rows, columns, i, j)] == PrefixLcs(before, after, i, j)
      invariant forall i: nat, j: nat | oldCount <= i < rows && j < columns ::
                  forward[Index(rows, columns, i, j)] == 0
    {
      ok := ForwardRow(before, after, forward, rows, columns, oldCount);
      if !ok {
        return;
      }
    }
    ok := true;
  }

  lemma EmptySuffix(before: string, after: string)
    ensures forall j: nat | j <= |after| :: SuffixLcs(before, after, |before|, j) == 0
    ensures forall i: nat | i <= |before| :: SuffixLcs(before, after, i, |after|) == 0
  {}

  /** The recurrence as the code computes it. */
  lemma SuffixCell(before: string, after: string, i: nat, j: nat)
    requires i < |before| && j < |after|
    ensures var straight := Max(SuffixLcs(before, after, i + 1, j), SuffixLcs(before, after, i, j + 1));
      SuffixLcs(before, after, i, j)
        == if before[i] == after[j] then Max(SuffixLcs(before, after, i + 1, j + 1) + 1, straight) else straight
  {
    if before[i] == after[j] {
      SuffixNeighbours(before, after, i, j);
    }
  }

  /** One row of the reverse table, from the exact row below it. */
  method ReverseRow(before: string, after: string, reverse: array<nat>, rows: nat, columns: nat, oldIndex: nat)
    returns (ok: bool)
    requires rows == |before| + 1 && columns == |after| + 1 && reverse.Length == rows * columns
    requires oldIndex < |before| <= U32_MAX
    requires reverse[Index(rows, columns, oldIndex, |after|)] == 0
    requires forall i: nat, j: nat | i == oldIndex + 1 && j < columns ::
               reverse[Index(rows, columns, i, j)] == SuffixLcs(before, after, i, j)
    modifies reverse
    ensures ok
    ensures forall j: nat | j < columns ::
              reverse[Index(rows, columns, oldIndex, j)] == SuffixLcs(before, after, oldIndex, j)
    ensures forall i: nat, j: nat | i < rows && j < columns && i != oldIndex ::
              reverse[Index(rows, columns, i, j)] == old(reverse[Index(rows, columns, i, j)])
  {
    hide Index, SuffixLcs;
    EmptySuffix(before, after);
    for newIndex := |after| downto 0
      invariant forall i: nat, j: nat | i < rows && j < columns && i != oldIndex ::
                  reverse[Index(rows, columns, i, j)] == old(reverse[Index(rows, columns, i, j)])
      invariant forall j: nat | newIndex <= j < columns ::
                  reverse[Index(rows, columns, oldIndex, j)] == SuffixLcs(before, after, oldIndex, j)
    {
      var diagonal := reverse[Index(rows, columns, oldIndex + 1, newIndex + 1)];
      var down := reverse[Index(rows, columns, oldIndex + 1, newIndex)];
      var right := reverse[Index(rows, columns, oldIndex, newIndex + 1)];
      var value := Max(down, right);
      if before[oldIndex] == after[newIndex] {
        SuffixBounds(before, after, oldIndex + 1, newIndex + 1);
        if diagonal == U32_MAX {
          return false;
        }
        value := Max(Max(diagonal + 1, down), right);
      }
      SuffixCell(before, after, oldIndex, newIndex);
      OtherCells(rows, columns, oldIndex, newIndex);
      reverse[Index(rows, columns, oldIndex, newIndex)] := value;
    }
    ok := true;
  }

  method FillReverse(before: string, after: string, reverse: array<nat>) returns (ok: bool)
    requires reverse.Length == (|before| + 1) * (|after| + 1)
    requires forall k | 0 <= k < reverse.Length :: reverse[k] == 0
    requires |before| <= U32_MAX
    modifies reverse
    ensures ok
    ensures forall i: nat, j: nat | i <= |before| && j <= |after| ::
              reverse[Index(|before| + 1, |after| + 1, i, j)] == SuffixLcs(before, after, i, j)
  {
    hide Index, SuffixLcs;
    var rows, columns := |before| + 1, |after| + 1;
    EmptySuffix(before, after);
    forall i: nat, j: nat | i == |before| && j < columns
      ensures reverse[Index(rows, columns, i, j)] == SuffixLcs(before, after, i, j)
    {
      assert SuffixLcs(before, after, |before|, j) == 0;
    }
    for oldIndex := |before| downto 0
      invariant forall i: nat, j: nat | oldIndex <= i < rows && j < columns ::
                  reverse[Index(rows, columns, i, j)] == SuffixLcs(before, after, i, j)
      invariant forall i: nat, j: nat | i < oldIndex && j < columns ::
                  reverse[Index(rows, columns, i, j)] == 0
    {
      ok := ReverseRow(before, after, reverse, rows, columns, oldIndex);
      if !ok {
        return;
      }
    }
    ok := true;
  }

  /** Building the tables fails on the size guards alone; otherwise both tables are exact. */
  method New(before: string, after: string) returns (r: Result<Tables, Error>)
    ensures r.Ok? <==> TableBytes(before, after) <= MAX_LCS_MEMORY_BYTES && |before| <= U32_MAX && |after| <= U32_MAX
    ensures r.Ok? ==> Holds(r.value, before, after)
    ensures r.Err? ==> r.error == if |before| > U32_MAX || |after| > U32_MAX then LengthExceedsU32 else MemoryGuard
  {
    if |before| > U32_MAX || |after| > U32_MAX {
      return Err(LengthExceedsU32);
    }
    var columns := |after| + 1;
    var cells := (|before| + 1) * columns;
    if cells * 4 * 2 > MAX_LCS_MEMORY_BYTES {
      return Err(MemoryGuard);
    }
    var forward := new nat[cells](_ => 0);
    var reverse := new nat[cells](_ => 0);
    var ok := FillForward(before, after, forward);
    if !ok {
      return Err(LengthOverflow);
    }
    ok := FillReverse(before, after, reverse);
    if !ok {
      return Err(LengthOverflow);
    }
    var last := |before| * columns + |after|;
    assert last == Index(|before| + 1, columns, |before|, |after|);
    r := Ok(Tables(columns, forward[..], reverse[..], forward[last]));
  }

  // ---------- which positions every optimal alignment leaves unmatched ----------

  /** Some optimal alignment uses the pair (i, j), in the terms of the tables. */
  ghost predicate PairKept(before: string, after: string, i: nat, j: nat)
    requires i < |before| && j < |after|
  {
    && before[i] == after[j]
    && PrefixLcs(before, after, i, j) + 1 + SuffixLcs(before, after, i + 1, j + 1) == Lcs(before, after)
  }

  ghost predicate KeptOld(before: string, after: string, i: nat) {
    exists x :: Optimal(before, after, x) && UsesOld(x, i)
  }

  ghost predicate KeptNew(before: string, after: string, j: nat) {
    exists x :: Optimal(before, after, x) && UsesNew(x, j)
  }

  lemma KeptOldByPair(before: string, after: string, i: nat)
    requires i < |before|
    ensures KeptOld(before, after, i) <==> exists j: nat :: j < |after| && PairKept(before, after, i, j)
  {
    if x: Pairing :| Optimal(before, after, x) && UsesOld(x, i) {
      var k :| 0 <= k < |x| && x[k].o == i;
      assert x[k] == Pair(i, x[k].n) && Pair(i, x[k].n) in x;
      ThroughPair(before, after, i, x[k].n);
      assert PairKept(before, after, i, x[k].n);
    }
    if j: nat :| j < |after| && PairKept(before, after, i, j) {
      ThroughPair(before, after, i, j);
      var x: Pairing :| Optimal(before, after, x) && Pair(i, j) in x;
      assert UsesOld(x, i);
    }
  }

  lemma KeptNewByPair(before: string, after: string, j: nat)
    requires j < |after|
    ensures KeptNew(before, after, j) <==> exists i: nat :: i < |before| && PairKept(before, after, i, j)
  {
    if x: Pairing :| Optimal(before, after, x) && UsesNew(x, j) {
      var k :| 0 <= k < |x| && x[k].n == j;
      assert x[k] == Pair(x[k].o, j) && Pair(x[k].o, j) in x;
      ThroughPair(before, after, x[k].o, j);
      assert PairKept(before, after, x[k].o, j);
    }
    if i: nat :| i < |before| && PairKept(before, after, i, j) {
      ThroughPair(before, after, i, j);
      var x: Pairing :| Optimal(before, after, x) && Pair(i, j) in x;
      assert UsesNew(x, j);
    }
  }

  /** A position is reported as mandatorily changed exactly when no optimal alignment keeps it. */
  ghost predicate MandatoryMasks(before: string, after: string, oldChanged: seq<bool>, newChanged: seq<bool>) {
    && |oldChanged| == |before| && |newChanged| == |after|
    && (forall i: nat | i < |before| :: oldChanged[i] <==> !KeptOld(before, after, i))
    && (forall j: nat | j < |after| :: newChanged[j] <==> !KeptNew(before, after, j))
  }

  /** Equal characters whose table sum through the pair reaches the optimum. */
  method OnOptimalPath(t: Tables, before: string, after: string, oldIndex: nat, newIndex: nat) returns (kept: bool)
    requires Holds(t, before, after) && oldIndex < |before| && newIndex < |after|
    ensures kept <==> PairKept(before, after, oldIndex, newIndex)
  {
    if before[oldIndex] != after[newIndex] {
      return false;
    }
    var through := t.forward[Index(|before| + 1, t.columns, oldIndex, newIndex)]
      + 1 + t.reverse[Index(|before| + 1, t.columns, oldIndex + 1, newIndex + 1)];
    kept := through == t.lcs;
  }

  method MandatoryChanged(t: Tables, before: string, after: string)
    returns (oldChanged: seq<bool>, newChanged: seq<bool>)
    requires Holds(t, before, after)
    ensures MandatoryMasks(before, after, oldChanged, newChanged)
  {
    hide PairKept, Holds, KeptOld, KeptNew;
    var olds := new bool[|before|](_ => true);
    var news := new bool[|after|](_ => true);
    for oldIndex := 0 to |before|
      invariant forall i: nat | oldIndex <= i < |before| :: olds[i]
      invariant forall i: nat | i < oldIndex ::
                  olds[i] <==> forall j: nat | j < |after| :: !PairKept(before, after, i, j)
      invariant forall j: nat | j < |after| ::
                  news[j] <==> forall i: nat | i < oldIndex :: !PairKept(before, after, i, j)
    {
      for newIndex := 0 to |after|
        invariant forall i: nat | oldIndex < i < |before| :: olds[i]
        invariant forall i: nat | i < oldIndex ::
                    olds[i] <==> forall j: nat | j < |after| :: !PairKept(before, after, i, j)
        invariant olds[oldIndex] <==> forall j: nat | j < newIndex :: !PairKept(before, after, oldIndex, j)
        invariant forall j: nat | j < newIndex ::
                    news[j] <==> forall i: nat | i <= oldIndex :: !PairKept(before, after, i, j)
        invariant forall j: nat | newIndex <= j < |after| ::
                    news[j] <==> forall i: nat | i < oldIndex :: !PairKept(before, after, i, j)
      {
        var kept := OnOptimalPath(t, before, after, oldIndex, newIndex);
        if kept {
          olds[oldIndex] := false;
          news[newIndex] := false;
        }
      }
    }
    oldChanged, newChanged := olds[..], news[..];
    forall i: nat | i < |before| ensures oldChanged[i] <==> !KeptOld(before, after, i) {
      KeptOldByPair(before, after, i);
    }
    forall j: nat | j < |after| ensures newChanged[j] <==> !KeptNew(before, after, j) {
      KeptNewByPair(before, after, j);
    }
  }

  // ---------- the three-way state of one new position ----------

  datatype PositionState = CertainChanged | Ambiguous | CertainSame

  /** The table sum through the pair (i, j) reaches the optimum. */
  predicate PairReaches(t: Tables, before: string, i: nat, j: nat)
    requires |t.forward| == |t.reverse| == (|before| + 1) * t.columns && i < |before| && j + 1 < t.columns
  {
    var rows := |before| + 1;
    t.forward[Index(rows, t.columns, i, j)] + 1 + t.reverse[Index(rows, t.columns, i + 1, j + 1)] == t.lcs
  }

  /** The table sum that splits the old side at s around new position j reaches the optimum. */
  predicate SplitReaches(t: Tables, before: string, s: nat, j: nat)
    requires |t.forward| == |t.reverse| == (|before| + 1) * t.columns && s <= |before| && j + 1 < t.columns
  {
    var rows := |before| + 1;
    t.forward[Index(rows, t.columns, s, j)] + t.reverse[Index(rows, t.columns, s, j + 1)] == t.lcs
  }

  function NewPositionState(t: Tables, before: string, after: string, newIndex: nat): (r: Result<PositionState, Error>)
    requires Holds(t, before, after)
  {
    if newIndex >= |after| then Err(PositionOutside)
    else
      var canMatch := exists i: nat | i < |before| ::
        before[i] == after[newIndex] && PairReaches(t, before, i, newIndex);
      if !canMatch then Ok(CertainChanged)
      else
        var canAvoid := exists s: nat | s <= |before| :: SplitReaches(t, before, s, newIndex);
        Ok(if canAvoid then Ambiguous else CertainSame)
  }

  /** Certain-changed means never matched, certain-same always, ambiguous both
      ways, over all optimal alignments; only a position past the end fails. */
  lemma PositionStateMeaning(t: Tables, before: string, after: string, j: nat)
    requires Holds(t, before, after)
    ensures var r := NewPositionState(t, before, after, j);
      && (r.Err? <==> j >= |after|)
      && (r.Ok? ==>
            && (r.value == CertainChanged <==> forall x | Optimal(before, after, x) :: !UsesNew(x, j))
            && (r.value == CertainSame <==> forall x | Optimal(before, after, x) :: UsesNew(x, j)))
  {
    if j < |after| {
      CanMatchMeaning(t, before, after, j);
      CanAvoidMeaning(t, before, after, j);
      var w := OptimalWitness(before, after);
    }
  }

  lemma CanMatchMeaning(t: Tables, before: string, after: string, j: nat)
    requires Holds(t, before, after) && j < |after|
    ensures NewPositionState(t, before, after, j) != Ok(CertainChanged) <==> KeptNew(before, after, j)
  {
    KeptNewByPair(before, after, j);
    assert forall i: nat | i < |before| ::
        PairKept(before, after, i, j) <==> before[i] == after[j] && PairReaches(t, before, i, j);
  }

  lemma CanAvoidMeaning(t: Tables, before: string, after: string, j: nat)
    requires Holds(t, before, after) && j < |after|
    ensures (exists s: nat :: s <= |before| && SplitReaches(t, before, s, j))
       <==> (exists x :: Optimal(before, after, x) && !UsesNew(x, j))
  {
    AroundColumn(before, after, j);
    assert forall s: nat | s <= |before| ::
        SplitReaches(t, before, s, j) <==> OptimalAround(before, after, s, j);
  }
}
