/** Partial assignments of rows to columns, and the prices that prove one cheapest. */
module AssignmentProblem {
  // Rows and columns are numbered from 1 where dummy columns are in play: column
  // realColumns + r stands for leaving some row unassigned, at no cost. Column 0 is
  // the place from which a search begins. Assignments themselves are maps from real
  // columns to rows, both numbered from 0.

  import opened Basics
  import opened Scores

  datatype Edge = Edge(proposal: nat, cost: Score)

  datatype Problem = Problem(rows: seq<map<nat, Edge>>, realColumns: nat)

  /** What construction and the width of the numbers guarantee. */
  ghost predicate Valid(p: Problem) {
    forall r, c | 0 <= r < |p.rows| && c in p.rows[r] :: c < p.realColumns && Storable(p.rows[r][c].cost)
  }

  function Columns(p: Problem): nat { p.realColumns + |p.rows| }

  function CostAt(p: Problem, forbidden: set<nat>, r: nat, c: nat): Option<Score>
    requires 1 <= r <= |p.rows| && 1 <= c
  {
    if c > p.realColumns then Some(Zero())
    else if c - 1 in p.rows[r - 1] && p.rows[r - 1][c - 1].proposal !in forbidden then Some(p.rows[r - 1][c - 1].cost)
    else None
  }

  // ---------- partial assignments ----------

  ghost predicate Edges(p: Problem, a: map<nat, nat>) {
    forall c | c in a :: c < p.realColumns && a[c] < |p.rows| && c in p.rows[a[c]]
  }

  /** Each row at most once, along edges that are not forbidden. */
  ghost predicate Partial(p: Problem, forbidden: set<nat>, a: map<nat, nat>) {
    && Edges(p, a)
    && (forall c | c in a :: p.rows[a[c]][c].proposal !in forbidden)
    && forall c, d | c in a && d in a && a[c] == a[d] :: c == d
  }

  /** What the columns below n cost together. */
  ghost function TotalCost(p: Problem, a: map<nat, nat>, n: nat): Score
    requires Edges(p, a)
  {
    if n == 0 then Zero()
    else if n - 1 in a then Plus(TotalCost(p, a, n - 1), p.rows[a[n - 1]][n - 1].cost)
    else TotalCost(p, a, n - 1)
  }

  ghost function Cost(p: Problem, a: map<nat, nat>): Score
    requires Edges(p, a)
  {
    TotalCost(p, a, p.realColumns)
  }

  ghost predicate Cheapest(p: Problem, forbidden: set<nat>, a: map<nat, nat>) {
    && Partial(p, forbidden, a)
    && forall rival | Partial(p, forbidden, rival) :: !Less(Cost(p, rival), Cost(p, a))
  }

  /** The proposals an assignment takes up. */
  ghost function Chosen(p: Problem, a: map<nat, nat>): set<nat>
    requires Edges(p, a)
  {
    set c | c in a :: p.rows[a[c]][c].proposal
  }

  // ---------- columns with their rows, dummies included ----------

  ghost predicate HasColumn(mates: seq<nat>, r: nat) {
    exists c :: 1 <= c < |mates| && mates[c] == r
  }

  /** Every row up to k has exactly one of the columns from 1 on; 0 is no row. */
  ghost predicate Covers(mates: seq<nat>, k: nat) {
    && (forall c | 1 <= c < |mates| :: mates[c] <= k)
    && (forall c, d | 1 <= c < d < |mates| && mates[c] != 0 :: mates[c] != mates[d])
    && (forall r | 1 <= r <= k :: HasColumn(mates, r))
  }

  ghost predicate Linked(p: Problem, forbidden: set<nat>, mates: seq<nat>) {
    && |mates| == Columns(p) + 1
    && forall c | 1 <= c < |mates| && mates[c] != 0 ::
         mates[c] <= |p.rows| && CostAt(p, forbidden, mates[c], c).Some?
  }

  ghost function Weight(p: Problem, forbidden: set<nat>, base: nat, r: nat, c: nat): int
    requires 1 <= r <= |p.rows| && 1 <= c && CostAt(p, forbidden, r, c).Some?
  {
    Value(CostAt(p, forbidden, r, c).value, base)
  }

  ghost function MateCost(p: Problem, forbidden: set<nat>, base: nat, mates: seq<nat>, n: nat): int
    requires Linked(p, forbidden, mates) && n < |mates|
  {
    if n == 0 then 0
    else MateCost(p, forbidden, base, mates, n - 1)
         + if mates[n] == 0 then 0 else Weight(p, forbidden, base, mates[n], n)
  }

  /** The prices of the rows the first n columns have. */
  ghost function MateSum(u: seq<int>, mates: seq<nat>, n: nat): int
    requires n < |mates| && forall c | 1 <= c < |mates| :: mates[c] < |u|
  {
    if n == 0 then 0 else MateSum(u, mates, n - 1) + if mates[n] == 0 then 0 else u[mates[n]]
  }

  /** The prices of places 1 to n. */
  ghost function PriceSum(v: seq<int>, n: nat): int
    requires n < |v|
  {
    if n == 0 then 0 else PriceSum(v, n - 1) + v[n]
  }

  lemma {:induction false} MateSumWithout(u: seq<int>, mates: seq<nat>, c: nat, n: nat)
    requires 1 <= c < |mates| && n < |mates| && mates[c] != 0
    requires forall d | 1 <= d < |mates| :: mates[d] < |u|
    ensures MateSum(u, mates, n) == MateSum(u, mates[c := 0], n) + if c <= n then u[mates[c]] else 0
  {
    if n > 0 {
      MateSumWithout(u, mates, c, n - 1);
    }
  }

  lemma {:induction false} NoMates(u: seq<int>, mates: seq<nat>, n: nat)
    requires n < |mates| && |u| > 0 && forall d | 1 <= d < |mates| :: mates[d] == 0
    ensures MateSum(u, mates, n) == 0
  {
    if n > 0 {
      NoMates(u, mates, n - 1);
    }
  }

  /** Since every row has one column, the rows' prices are counted once each. */
  lemma {:induction false} RowsOnce(u: seq<int>, mates: seq<nat>, k: nat)
    requires Covers(mates, k) && k < |u| && mates != []
    ensures MateSum(u, mates, |mates| - 1) == PriceSum(u, k)
    decreases k
  {
    if k == 0 {
      NoMates(u, mates, |mates| - 1);
    } else {
      assert HasColumn(mates, k);
      var c: nat :| 1 <= c < |mates| && mates[c] == k;
      MateSumWithout(u, mates, c, |mates| - 1);
      CoversFewer(mates, k, c);
      RowsOnce(u, mates[c := 0], k - 1);
    }
  }

  lemma CoversFewer(mates: seq<nat>, k: nat, c: nat)
    requires Covers(mates, k) && 1 <= c < |mates| && mates[c] == k > 0
    ensures Covers(mates[c := 0], k - 1)
  {
    var fewer := mates[c := 0];
    forall r | 1 <= r <= k - 1 ensures HasColumn(fewer, r) {
      assert HasColumn(mates, r);
      var d :| 1 <= d < |mates| && mates[d] == r;
      assert fewer[d] == r;
    }
    forall d | 1 <= d < |fewer| ensures fewer[d] <= k - 1 {
      assert d != c ==> mates[d] != k;
    }
  }

  // ---------- prices ----------

  /** No edge of row r costs less than its two prices together. */
  ghost predicate Fair(p: Problem, forbidden: set<nat>, base: nat, u: seq<int>, v: seq<int>, r: nat)
    requires |u| == |p.rows| + 1 && |v| == Columns(p) + 1 && 1 <= r <= |p.rows|
  {
    forall c | 1 <= c < |v| && CostAt(p, forbidden, r, c).Some? :: u[r] + v[c] <= Weight(p, forbidden, base, r, c)
  }

  /** The edge costs exactly its two prices. */
  ghost predicate Tight(p: Problem, forbidden: set<nat>, base: nat, u: seq<int>, v: seq<int>, r: nat, c: nat)
    requires |u| == |p.rows| + 1 && |v| == Columns(p) + 1
  {
    && 1 <= r <= |p.rows| && 1 <= c < |v| && CostAt(p, forbidden, r, c).Some?
    && u[r] + v[c] == Weight(p, forbidden, base, r, c)
  }

  ghost predicate ColumnsPriced(v: seq<int>, mates: seq<nat>) {
    |v| == |mates| && forall c | 1 <= c < |v| :: v[c] <= 0 && (mates[c] == 0 ==> v[c] == 0)
  }

  /** The first k rows are assigned along tight edges at fair prices, and no column has a
      positive price, or any price while it is free. */
  ghost predicate Priced(p: Problem, forbidden: set<nat>, base: nat, u: seq<int>, v: seq<int>,
                         mates: seq<nat>, k: nat)
  {
    && |u| == |p.rows| + 1 && |v| == Columns(p) + 1 && k <= |p.rows|
    && Covers(mates, k) && ColumnsPriced(v, mates)
    && (forall r | 1 <= r <= k :: Fair(p, forbidden, base, u, v, r))
    && (forall c | 1 <= c < |v| && mates[c] != 0 :: Tight(p, forbidden, base, u, v, mates[c], c))
  }

  lemma {:induction false} TightSum(p: Problem, forbidden: set<nat>, base: nat, u: seq<int>, v: seq<int>,
                                    mates: seq<nat>, k: nat, n: nat)
    requires Priced(p, forbidden, base, u, v, mates, k) && Linked(p, forbidden, mates) && n < |mates|
    ensures MateCost(p, forbidden, base, mates, n) == MateSum(u, mates, n) + PriceSum(v, n)
  {
    if n > 0 {
      TightSum(p, forbidden, base, u, v, mates, k, n - 1);
      assert mates[n] != 0 ==> Tight(p, forbidden, base, u, v, mates[n], n);
    }
  }

  lemma {:induction false} RivalSum(p: Problem, forbidden: set<nat>, base: nat, u: seq<int>, v: seq<int>,
                                    mates: seq<nat>, rival: seq<nat>, n: nat)
    requires Priced(p, forbidden, base, u, v, mates, |p.rows|) && Linked(p, forbidden, rival) && n < |rival|
    ensures MateCost(p, forbidden, base, rival, n) >= MateSum(u, rival, n) + PriceSum(v, n)
  {
    if n > 0 {
      RivalSum(p, forbidden, base, u, v, mates, rival, n - 1);
      assert v[n] <= 0;
      assert rival[n] != 0 ==> Fair(p, forbidden, base, u, v, rival[n]);
    }
  }

  /** At fair prices no other way to give every row a column costs less than the tight one. */
  lemma PricesDecide(p: Problem, forbidden: set<nat>, base: nat, u: seq<int>, v: seq<int>,
                     mates: seq<nat>, rival: seq<nat>)
    requires Priced(p, forbidden, base, u, v, mates, |p.rows|) && Linked(p, forbidden, mates)
    requires Covers(rival, |p.rows|) && Linked(p, forbidden, rival)
    ensures MateCost(p, forbidden, base, mates, Columns(p)) <= MateCost(p, forbidden, base, rival, Columns(p))
  {
    hide Priced;
    assert |u| == |p.rows| + 1 && |v| == |mates| && Covers(mates, |p.rows|) by {
      PricedSizes(p, forbidden, base, u, v, mates);
    }
    TightSum(p, forbidden, base, u, v, mates, |p.rows|, Columns(p));
    RivalSum(p, forbidden, base, u, v, mates, rival, Columns(p));
    RowsOnce(u, mates, |p.rows|);
    RowsOnce(u, rival, |p.rows|);
  }

  lemma PricedSizes(p: Problem, forbidden: set<nat>, base: nat, u: seq<int>, v: seq<int>, mates: seq<nat>)
    requires Priced(p, forbidden, base, u, v, mates, |p.rows|)
    ensures |u| == |p.rows| + 1 && |v| == |mates| && Covers(mates, |p.rows|)
  {}

  // ---------- between maps and columns ----------

  /** An assignment with every other row put on its own dummy column. */
  ghost function WithDummies(p: Problem, a: map<nat, nat>): seq<nat> {
    seq(Columns(p) + 1, c requires 0 <= c <= Columns(p) =>
      if c == 0 then 0
      else if c <= p.realColumns then if c - 1 in a then a[c - 1] + 1 else 0
      else if c - p.realColumns - 1 in a.Values then 0 else c - p.realColumns)
  }

  lemma DummiesCover(p: Problem, forbidden: set<nat>, a: map<nat, nat>)
    requires Partial(p, forbidden, a)
    ensures Covers(WithDummies(p, a), |p.rows|) && Linked(p, forbidden, WithDummies(p, a))
  {
    hide WithDummies, Partial, HasColumn;
    var mates := WithDummies(p, a);
    DummyRows(p, forbidden, a);
    forall r | 1 <= r <= |p.rows| ensures HasColumn(mates, r) {
      RowHasColumn(p, forbidden, a, r);
    }
    forall c, d | 1 <= c < d < |mates| && mates[c] != 0 ensures mates[c] != mates[d] {
      DummiesDiffer(p, forbidden, a, c, d);
    }
  }

  lemma DummyRows(p: Problem, forbidden: set<nat>, a: map<nat, nat>)
    requires Partial(p, forbidden, a)
    ensures Linked(p, forbidden, WithDummies(p, a))
    ensures forall c | 1 <= c < |WithDummies(p, a)| :: WithDummies(p, a)[c] <= |p.rows|
  {}

  lemma RowHasColumn(p: Problem, forbidden: set<nat>, a: map<nat, nat>, r: nat)
    requires Partial(p, forbidden, a) && 1 <= r <= |p.rows|
    ensures HasColumn(WithDummies(p, a), r)
  {
    var mates := WithDummies(p, a);
    if r - 1 in a.Values {
      var c :| c in a && a[c] == r - 1;
      assert mates[c + 1] == r;
    } else {
      assert mates[p.realColumns + r] == r;
    }
  }

  lemma DummiesDiffer(p: Problem, forbidden: set<nat>, a: map<nat, nat>, c: nat, d: nat)
    requires Partial(p, forbidden, a) && 1 <= c < d <= Columns(p)
    ensures var mates := WithDummies(p, a); mates[c] != 0 ==> mates[c] != mates[d]
  {
    if c <= p.realColumns && c - 1 in a {
      assert a[c - 1] in a.Values;
    }
  }

  predicate Mated(mates: seq<nat>, c: nat) { c + 1 < |mates| && mates[c + 1] != 0 }

  /** The real columns' rows. */
  function RealMates(p: Problem, mates: seq<nat>): map<nat, nat>
    requires |mates| == Columns(p) + 1
  {
    map c: nat | c < p.realColumns && Mated(mates, c) :: mates[c + 1] - 1
  }

  lemma RealMatesPartial(p: Problem, forbidden: set<nat>, mates: seq<nat>)
    requires Covers(mates, |p.rows|) && Linked(p, forbidden, mates)
    ensures Partial(p, forbidden, RealMates(p, mates))
  {
    var a := RealMates(p, mates);
    forall c | c in a ensures CostAt(p, forbidden, mates[c + 1], c + 1).Some? {}
  }

  /** Dummies cost nothing, so the columns cost what the real ones do. */
  lemma {:induction false} CostByColumns(p: Problem, forbidden: set<nat>, base: nat, mates: seq<nat>,
                                         a: map<nat, nat>, n: nat)
    requires Linked(p, forbidden, mates) && Edges(p, a) && n <= Columns(p)
    requires forall c: nat | c < p.realColumns ::
      (c in a <==> mates[c + 1] != 0) && (c in a ==> a[c] + 1 == mates[c + 1])
    ensures MateCost(p, forbidden, base, mates, n)
         == Value(TotalCost(p, a, Min(n, p.realColumns)), base)
  {
    hide Value;
    if n == 0 {
      ZeroValue(base);
    } else {
      CostByColumns(p, forbidden, base, mates, a, n - 1);
      ZeroValue(base);
      if n <= p.realColumns && n - 1 in a {
        PlusValue(TotalCost(p, a, n - 1), p.rows[a[n - 1]][n - 1].cost, base);
      }
    }
  }

  lemma LinkedSize(p: Problem, forbidden: set<nat>, mates: seq<nat>)
    requires Linked(p, forbidden, mates)
    ensures |mates| == Columns(p) + 1
  {}

  lemma CostOfReal(p: Problem, forbidden: set<nat>, base: nat, mates: seq<nat>)
    requires Linked(p, forbidden, mates) && Edges(p, RealMates(p, mates))
    ensures MateCost(p, forbidden, base, mates, Columns(p)) == Value(Cost(p, RealMates(p, mates)), base)
  {
    CostByColumns(p, forbidden, base, mates, RealMates(p, mates), Columns(p));
  }

  lemma CostOfDummies(p: Problem, forbidden: set<nat>, base: nat, a: map<nat, nat>)
    requires Edges(p, a) && Linked(p, forbidden, WithDummies(p, a))
    ensures MateCost(p, forbidden, base, WithDummies(p, a), Columns(p)) == Value(Cost(p, a), base)
  {
    CostByColumns(p, forbidden, base, WithDummies(p, a), a, Columns(p));
  }

  lemma BaseIsLarge(p: Problem)
    ensures Base(p) > 2 * (p.realColumns * I128_BOUND) && Base(p) > 2 * I128_BOUND
  {}

  lemma {:induction false} CostWithin(p: Problem, a: map<nat, nat>, n: nat)
    requires Valid(p) && Edges(p, a)
    ensures Within(TotalCost(p, a, n), n * I128_BOUND)
  {
    if n > 0 {
      CostWithin(p, a, n - 1);
      assert n * I128_BOUND == (n - 1) * I128_BOUND + I128_BOUND;
    }
  }

  /** A base over the range of all totals and prices. */
  ghost function Base(p: Problem): nat { 2 * (p.realColumns + 1) * I128_BOUND + 1 }

  /** The columns found by fair prices are a cheapest partial assignment. */
  lemma PricedIsCheapest(p: Problem, forbidden: set<nat>, u: seq<int>, v: seq<int>, mates: seq<nat>)
    requires Valid(p) && Priced(p, forbidden, Base(p), u, v, mates, |p.rows|) && Linked(p, forbidden, mates)
    ensures Cheapest(p, forbidden, RealMates(p, mates))
  {
    hide Priced, Value, Less, Covers, Edges;
    PricedSizes(p, forbidden, Base(p), u, v, mates);
    RealMatesPartial(p, forbidden, mates);
    forall rival | Partial(p, forbidden, rival) ensures !Less(Cost(p, rival), Cost(p, RealMates(p, mates))) {
      RivalIsNoLess(p, forbidden, u, v, mates, rival);
    }
  }

  lemma RivalIsNoLess(p: Problem, forbidden: set<nat>, u: seq<int>, v: seq<int>, mates: seq<nat>, rival: map<nat, nat>)
    requires Valid(p) && Priced(p, forbidden, Base(p), u, v, mates, |p.rows|) && Linked(p, forbidden, mates)
    requires Partial(p, forbidden, rival) && Partial(p, forbidden, RealMates(p, mates))
    ensures !Less(Cost(p, rival), Cost(p, RealMates(p, mates)))
  {
    hide Priced, Value, Less, Covers, Base, WithDummies, RealMates, TotalCost;
    var base, a, others := Base(p), RealMates(p, mates), WithDummies(p, rival);
    DummiesCover(p, forbidden, rival);
    LinkedSize(p, forbidden, others);
    PricesDecide(p, forbidden, base, u, v, mates, others);
    CostOfReal(p, forbidden, base, mates);
    CostOfDummies(p, forbidden, base, rival);
    BaseIsLarge(p);
    CostWithin(p, a, p.realColumns);
    CostWithin(p, rival, p.realColumns);
    LessByValue(Cost(p, rival), Cost(p, a), p.realColumns * I128_BOUND, base);
  }
}
