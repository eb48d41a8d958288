/** The rolling-row dynamic program that bounds, over all optimal alignments at
    once, how many positions of a new-side range stay unmatched. */
module RegionBounds {
  import opened Basics
  import opened Alignment
  import opened LcsTables

  datatype CountCell = CountCell(lcs: nat, minMatched: nat, maxMatched: nat)

  const ZERO_CELL := CountCell(0, 0, 0)

  function Combine(left: CountCell, right: CountCell): CountCell {
    if left.lcs > right.lcs then left
    else if left.lcs < right.lcs then right
    else CountCell(left.lcs, Min(left.minMatched, right.minMatched), Max(left.maxMatched, right.maxMatched))
  }

  /** How many pairs of x land in the query range. */
  ghost function Selected(x: Pairing, lo: nat, hi: nat): nat {
    if x == [] then 0
    else Selected(x[..|x| - 1], lo, hi) + if lo <= x[|x| - 1].n < hi then 1 else 0
  }

  /** How many positions of `[lo, hi)` the alignment leaves unmatched: the insertions. */
  ghost function Inserted(x: Pairing, lo: nat, hi: nat): nat {
    if hi <= lo then 0
    else Inserted(x, lo, hi - 1) + if UsesNew(x, hi - 1) then 0 else 1
  }

  lemma {:induction false} SelectedStep(x: Pairing, lo: nat, hi: nat)
    requires Increasing(x) && lo < hi
    ensures Selected(x, lo, hi) == Selected(x, lo, hi - 1) + if UsesNew(x, hi - 1) then 1 else 0
  {
    if x != [] {
      var y, last := x[..|x| - 1], x[|x| - 1];
      SelectedStep(y, lo, hi);
      assert forall k | 0 <= k < |y| :: y[k] == x[k];
      assert UsesNew(x, hi - 1) <==> UsesNew(y, hi - 1) || last.n == hi - 1;
      if last.n == hi - 1 {
        assert forall k | 0 <= k < |y| :: y[k].n < last.n;
        assert !UsesNew(y, hi - 1);
      }
    }
  }

  lemma {:induction false} EmptySelection(x: Pairing, lo: nat)
    ensures Selected(x, lo, lo) == 0
  {
    if x != [] {
      EmptySelection(x[..|x| - 1], lo);
    }
  }

  /** Matched and unmatched positions partition the query range. */
  lemma {:induction false} SelectedAndInserted(x: Pairing, lo: nat, hi: nat)
    requires Increasing(x) && lo <= hi
    ensures Selected(x, lo, hi) + Inserted(x, lo, hi) == hi - lo
  {
    if lo == hi {
      EmptySelection(x, lo);
    } else {
      SelectedStep(x, lo, hi);
      SelectedAndInserted(x, lo, hi - 1);
    }
  }

  // ---------- what one cell of the rolling row stands for ----------

  ghost function Extend(c: CountCell, selected: bool): CountCell {
    var one := if selected then 1 else 0;
    CountCell(c.lcs + 1, c.minMatched + one, c.maxMatched + one)
  }

  ghost function StepCell(up: CountCell, left: CountCell, diagonal: CountCell, matches: bool, selected: bool)
    : CountCell
  {
    var best := Combine(up, left);
    if matches then Combine(best, Extend(diagonal, selected)) else best
  }

  ghost function CellAt(before: string, after: string, lo: nat, hi: nat, i: nat, j: nat): CountCell
    requires i <= |before| && j <= |after|
  {
    if i == 0 || j == 0 then ZERO_CELL
    else StepCell(CellAt(before, after, lo, hi, i - 1, j), CellAt(before, after, lo, hi, i, j - 1),
                  CellAt(before, after, lo, hi, i - 1, j - 1), before[i - 1] == after[j - 1], lo <= j - 1 < hi)
  }

  lemma {:induction false} CellLcs(before: string, after: string, lo: nat, hi: nat, i: nat, j: nat)
    requires i <= |before| && j <= |after|
    ensures CellAt(before, after, lo, hi, i, j).lcs == PrefixLcs(before, after, i, j)
  {
    if i > 0 && j > 0 {
      CellLcs(before, after, lo, hi, i - 1, j);
      CellLcs(before, after, lo, hi, i, j - 1);
      CellLcs(before, after, lo, hi, i - 1, j - 1);
      PrefixNeighbours(before, after, i, j);
      StepLcs(CellAt(before, after, lo, hi, i - 1, j), CellAt(before, after, lo, hi, i, j - 1),
              CellAt(before, after, lo, hi, i - 1, j - 1), before[i - 1] == after[j - 1], lo <= j - 1 < hi);
    }
  }

  lemma StepLcs(up: CountCell, left: CountCell, diagonal: CountCell, matches: bool, selected: bool)
    ensures StepCell(up, left, diagonal, matches, selected).lcs
         == if matches then Max(Max(up.lcs, left.lcs), diagonal.lcs + 1) else Max(up.lcs, left.lcs)
  {}

  /** A longest alignment of the prefixes, as the cell (i, j) ranges over them. */
  ghost predicate LongestIn(before: string, after: string, x: Pairing, i: nat, j: nat)
    requires i <= |before| && j <= |after|
  {
    AlignsIn(before, after, x, 0, 0, i, j) && |x| == PrefixLcs(before, after, i, j)
  }

  /** The cell bounds the selection of every longest alignment of its prefixes. */
  lemma {:induction false} CellBounds(before: string, after: string, lo: nat, hi: nat, i: nat, j: nat, x: Pairing)
    requires i <= |before| && j <= |after|
    requires LongestIn(before, after, x, i, j)
    ensures var c := CellAt(before, after, lo, hi, i, j);
      c.minMatched <= Selected(x, lo, hi) <= c.maxMatched
    decreases i + j
  {
    if x == [] {
      EmptyCell(before, after, lo, hi, i, j);
      return;
    }
    var source := LongestSource(before, after, x, i, j);
    CellLcs(before, after, lo, hi, i, j);
    match source
    case Up =>
      CellLcs(before, after, lo, hi, i - 1, j);
      CellBounds(before, after, lo, hi, i - 1, j, x);
    case Left =>
      CellLcs(before, after, lo, hi, i, j - 1);
      CellBounds(before, after, lo, hi, i, j - 1, x);
    case Diagonal =>
      CellLcs(before, after, lo, hi, i - 1, j - 1);
      CellBounds(before, after, lo, hi, i - 1, j - 1, x[..|x| - 1]);
  }

  datatype Source = Up | Left | Diagonal

  /** A longest alignment of two prefixes is one of an earlier pair of prefixes, possibly plus the corner pair. */
  lemma LongestSource(before: string, after: string, x: Pairing, i: nat, j: nat) returns (source: Source)
    requires i <= |before| && j <= |after| && x != []
    requires LongestIn(before, after, x, i, j)
    ensures i > 0 && j > 0
    ensures match source
      case Up => LongestIn(before, after, x, i - 1, j)
        && PrefixLcs(before, after, i - 1, j) == PrefixLcs(before, after, i, j)
      case Left => LongestIn(before, after, x, i, j - 1)
        && PrefixLcs(before, after, i, j - 1) == PrefixLcs(before, after, i, j)
      case Diagonal => before[i - 1] == after[j - 1] && x[|x| - 1] == Pair(i - 1, j - 1)
                       && LongestIn(before, after, x[..|x| - 1], i - 1, j - 1)
                       && PrefixLcs(before, after, i - 1, j - 1) + 1 == PrefixLcs(before, after, i, j)
  {
    var last := x[|x| - 1];
    assert last.o < i && last.n < j;
    PrefixNeighbours(before, after, i, j);
    if last.o < i - 1 {
      PrefixUpper(before, after, i - 1, j, x);
      source := Up;
    } else if last.n < j - 1 {
      PrefixUpper(before, after, i, j - 1, x);
      source := Left;
    } else {
      source := Diagonal;
    }
  }

  lemma {:induction false} EmptyCell(before: string, after: string, lo: nat, hi: nat, i: nat, j: nat)
    requires i <= |before| && j <= |after| && PrefixLcs(before, after, i, j) == 0
    ensures CellAt(before, after, lo, hi, i, j) == ZERO_CELL
  {
    if i > 0 && j > 0 {
      EmptyCell(before, after, lo, hi, i - 1, j);
      EmptyCell(before, after, lo, hi, i, j - 1);
    }
  }

  /** Both bounds of a cell are attained by longest alignments. */
  lemma {:induction false} CellAttained(before: string, after: string, lo: nat, hi: nat, i: nat, j: nat, least: bool)
    returns (x: Pairing)
    requires i <= |before| && j <= |after|
    ensures LongestIn(before, after, x, i, j)
    ensures var c := CellAt(before, after, lo, hi, i, j);
      Selected(x, lo, hi) == Goal(c, least)
    decreases i + j
  {
    hide StepCell, AlignsIn, Selected;
    if i == 0 || j == 0 {
      x := [];
      EmptyAttains(before, after, lo, hi, i, j);
      return;
    }
    var c := CellAt(before, after, lo, hi, i, j);
    var up, left := CellAt(before, after, lo, hi, i - 1, j), CellAt(before, after, lo, hi, i, j - 1);
    var diagonal := CellAt(before, after, lo, hi, i - 1, j - 1);
    CellLcs(before, after, lo, hi, i, j);
    var source := StepSource(up, left, diagonal, before[i - 1] == after[j - 1], lo <= j - 1 < hi, least);
    match source
    case Up =>
      CellLcs(before, after, lo, hi, i - 1, j);
      x := CellAttained(before, after, lo, hi, i - 1, j, least);
      StillLongest(before, after, x, i - 1, j, i, j);
    case Left =>
      CellLcs(before, after, lo, hi, i, j - 1);
      x := CellAttained(before, after, lo, hi, i, j - 1, least);
      StillLongest(before, after, x, i, j - 1, i, j);
    case Diagonal =>
      CellLcs(before, after, lo, hi, i - 1, j - 1);
      var y := CellAttained(before, after, lo, hi, i - 1, j - 1, least);
      x := y + [Pair(i - 1, j - 1)];
      WithCorner(before, after, y, lo, hi, i, j);
  }

  lemma EmptyAttains(before: string, after: string, lo: nat, hi: nat, i: nat, j: nat)
    requires i <= |before| && j <= |after| && (i == 0 || j == 0)
    ensures LongestIn(before, after, [], i, j) && Selected([], lo, hi) == 0
      && CellAt(before, after, lo, hi, i, j) == ZERO_CELL
  {}

  lemma WithCorner(before: string, after: string, y: Pairing, lo: nat, hi: nat, i: nat, j: nat)
    requires 0 < i <= |before| && 0 < j <= |after| && before[i - 1] == after[j - 1]
    requires LongestIn(before, after, y, i - 1, j - 1)
      && PrefixLcs(before, after, i, j) == PrefixLcs(before, after, i - 1, j - 1) + 1
    ensures LongestIn(before, after, y + [Pair(i - 1, j - 1)], i, j)
    ensures Selected(y + [Pair(i - 1, j - 1)], lo, hi) == Selected(y, lo, hi) + if lo <= j - 1 < hi then 1 else 0
  {
    var x := y + [Pair(i - 1, j - 1)];
    assert x[..|x| - 1] == y;
  }

  /** A longest alignment of shorter prefixes is one of longer prefixes with the same length. */
  lemma StillLongest(before: string, after: string, x: Pairing, i: nat, j: nat, k: nat, l: nat)
    requires i <= k <= |before| && j <= l <= |after|
    requires LongestIn(before, after, x, i, j) && PrefixLcs(before, after, i, j) == PrefixLcs(before, after, k, l)
    ensures LongestIn(before, after, x, k, l)
  {}

  ghost function Goal(c: CountCell, least: bool): nat {
    if least then c.minMatched else c.maxMatched
  }

  /** A combined cell takes each of its bounds from one of the cells it combines. */
  lemma StepSource(up: CountCell, left: CountCell, diagonal: CountCell, matches: bool, selected: bool, least: bool)
    returns (source: Source)
    ensures var c := StepCell(up, left, diagonal, matches, selected);
      match source
      case Up => up.lcs == c.lcs && Goal(up, least) == Goal(c, least)
      case Left => left.lcs == c.lcs && Goal(left, least) == Goal(c, least)
      case Diagonal => matches && diagonal.lcs + 1 == c.lcs
                       && Goal(diagonal, least) + (if selected then 1 else 0) == Goal(c, least)
  {
    var c := StepCell(up, left, diagonal, matches, selected);
    source := if up.lcs == c.lcs && Goal(up, least) == Goal(c, least) then Up
    else if left.lcs == c.lcs && Goal(left, least) == Goal(c, least) then Left
    else Diagonal;
  }

  // ---------- the method ----------

  /** The least and greatest number of unmatched positions of `[lo, hi)` over
      all optimal alignments: both bounds hold for each of them and both are attained. */
  ghost predicate TightBounds(before: string, after: string, lo: nat, hi: nat, lower: nat, upper: nat) {
    && (forall x | Optimal(before, after, x) :: lower <= Inserted(x, lo, hi) <= upper)
    && (exists x :: Optimal(before, after, x) && Inserted(x, lo, hi) == lower)
    && (exists x :: Optimal(before, after, x) && Inserted(x, lo, hi) == upper)
  }

  lemma FinalCell(before: string, after: string, lo: nat, hi: nat)
    requires lo <= hi
    ensures var c := CellAt(before, after, lo, hi, |before|, |after|);
      && c.lcs == Lcs(before, after)
      && c.minMatched <= c.maxMatched <= hi - lo
      && TightBounds(before, after, lo, hi, hi - lo - c.maxMatched, hi - lo - c.minMatched)
  {
    var c := CellAt(before, after, lo, hi, |before|, |after|);
    CellLcs(before, after, lo, hi, |before|, |after|);
    var u := CellAttained(before, after, lo, hi, |before|, |after|, true);
    var v := CellAttained(before, after, lo, hi, |before|, |after|, false);
    OptimalLength(before, after, u);
    OptimalLength(before, after, v);
    SelectedAndInserted(u, lo, hi);
    SelectedAndInserted(v, lo, hi);
    CellBounds(before, after, lo, hi, |before|, |after|, u);
    forall x | Optimal(before, after, x)
      ensures hi - lo - c.maxMatched <= Inserted(x, lo, hi) <= hi - lo - c.minMatched
    {
      OptimalLength(before, after, x);
      CellBounds(before, after, lo, hi, |before|, |after|, x);
      SelectedAndInserted(x, lo, hi);
    }
  }

  /** Every count of a cell stays below u32, so no checked addition fails. */
  lemma CellSmall(before: string, after: string, lo: nat, hi: nat, i: nat, j: nat)
    requires i <= |before| && j <= |after|
    ensures var c := CellAt(before, after, lo, hi, i, j);
      c.lcs <= j && c.minMatched <= c.maxMatched <= j
  {
    var u := CellAttained(before, after, lo, hi, i, j, true);
    var v := CellAttained(before, after, lo, hi, i, j, false);
    CellBounds(before, after, lo, hi, i, j, u);
    CellLcs(before, after, lo, hi, i, j);
    PrefixBounds(before, after, i, j);
  }

  function CheckedIncrement(x: nat, selected: bool): Result<nat, Error> {
    if !selected then Ok(x) else if x == U32_MAX then Err(CountOverflow) else Ok(x + 1)
  }

  /** The new value of one cell, with the checked u32 additions of a match. */
  function NextCell(up: CountCell, left: CountCell, diagonal: CountCell, matches: bool, selected: bool)
    : (r: Result<CountCell, Error>)
    ensures diagonal.lcs < U32_MAX && diagonal.minMatched < U32_MAX && diagonal.maxMatched < U32_MAX ==>
              r == Ok(StepCell(up, left, diagonal, matches, selected))
  {
    var best := Combine(up, left);
    if !matches then Ok(best)
    else
      var lcs := CheckedIncrement(diagonal.lcs, true);
      var least := CheckedIncrement(diagonal.minMatched, selected);
      var most := CheckedIncrement(diagonal.maxMatched, selected);
      if lcs.Ok? && least.Ok? && most.Ok?
      then Ok(Combine(best, CountCell(lcs.value, least.value, most.value)))
      else Err(CountOverflow)
  }

  ghost function CellRow(before: string, after: string, lo: nat, hi: nat, i: nat): seq<CountCell>
    requires i <= |before|
  {
    seq(|after| + 1, j requires 0 <= j <= |after| => CellAt(before, after, lo, hi, i, j))
  }

  /** The row below, cell by cell, from the row above it. */
  ghost predicate RowStep(c: char, after: string, lo: nat, hi: nat, above: seq<CountCell>, below: seq<CountCell>) {
    && |above| == |below| == |after| + 1
    && above[0] == below[0] == ZERO_CELL
    && (forall j | 0 <= j < |after| :: SmallCell(above[j]))
    && forall j | 0 < j <= |after| ::
         below[j] == StepCell(above[j], below[j - 1], above[j - 1], c == after[j - 1], lo <= j - 1 < hi)
  }

  ghost predicate SmallCell(c: CountCell) {
    c.lcs < U32_MAX && c.minMatched < U32_MAX && c.maxMatched < U32_MAX
  }

  lemma CellRowStep(before: string, after: string, lo: nat, hi: nat, i: nat)
    requires i < |before| && |after| <= U32_MAX
    ensures RowStep(before[i], after, lo, hi, CellRow(before, after, lo, hi, i), CellRow(before, after, lo, hi, i + 1))
  {
    forall j | 0 <= j < |after| ensures SmallCell(CellRow(before, after, lo, hi, i)[j]) {
      CellSmall(before, after, lo, hi, i, j);
    }
  }

  /** One row update in place, remembering the overwritten diagonal cell. */
  method AdvanceRow(c: char, after: string, lo: nat, hi: nat, row: array<CountCell>, ghost below: seq<CountCell>)
    returns (r: Result<(), Error>)
    requires RowStep(c, after, lo, hi, row[..], below)
    modifies row
    ensures r == Ok(())
    ensures row[..] == below
  {
    var diagonal := ZERO_CELL;
    for newCount := 1 to |after| + 1
      invariant diagonal == old(row[newCount - 1])
      invariant forall j | newCount <= j <= |after| :: row[j] == old(row[j])
      invariant forall j | 0 <= j < newCount :: row[j] == below[j]
    {
      var up, left := row[newCount], row[newCount - 1];
      var newIndex := newCount - 1;
      assert SmallCell(old(row[..])[newIndex]);
      assert old(row[..])[newCount] == up;
      var next := NextCell(up, left, diagonal, c == after[newIndex], lo <= newIndex < hi);
      if next == Err(CountOverflow) {
        return Err(CountOverflow);
      }
      row[newCount] := next.value;
      diagonal := up;
    }
    r := Ok(());
  }

  /** Fails only on a range outside the new text: the overflow, disagreement and
      underflow errors below are never returned. */
  method RegionInsertBounds(t: Tables, before: string, after: string, lo: nat, hi: nat)
    returns (r: Result<(nat, nat), Error>)
    requires Holds(t, before, after) && |after| <= U32_MAX
    ensures r.Err? <==> lo > hi || hi > |after|
    ensures r.Err? ==> r.error == QueryOutside
    ensures r.Ok? ==> TightBounds(before, after, lo, hi, r.value.0, r.value.1)
  {
    if lo > hi || hi > |after| {
      return Err(QueryOutside);
    }
    var queryLength := hi - lo;
    var row := new CountCell[t.columns](_ => ZERO_CELL);
    for i := 0 to |before|
      invariant row[..] == CellRow(before, after, lo, hi, i)
    {
      CellRowStep(before, after, lo, hi, i);
      var step := AdvanceRow(before[i], after, lo, hi, row, CellRow(before, after, lo, hi, i + 1));
      if step == Err(CountOverflow) {
        return Err(CountOverflow);
      }
    }
    var result := row[t.columns - 1];
    assert result == row[..][|after|];
    FinalCell(before, after, lo, hi);
    if result.lcs != t.lcs {
      return Err(RowDisagrees);
    }
    if queryLength < result.maxMatched || queryLength < result.minMatched {
      return Err(BoundUnderflow);
    }
    r := Ok((queryLength - result.maxMatched, queryLength - result.minMatched));
  }
}
