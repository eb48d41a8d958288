/** How large the prices of the Hungarian method get, in multiples of the largest cost. */
module AssignmentBounds {
  // A number fits a bound when it is the number of a score whose components are all within the
  // bound; sums of numbers fit sums of bounds. A tight edge ties the prices of its ends to a
  // cost. So the prices of a tree lie close to that of its root, and the column at the door
  // ties the root to a price outside the tree; a free column has price 0 and ties it to the
  // costs alone. Column 0 moves in every search, but all prices together always add up to 0.

  import opened Basics
  import opened Scores
  import opened AssignmentProblem
  import opened AssignmentSearch

  ghost predicate Fits(value: int, bound: nat, base: nat) {
    exists s: Score :: Within(s, bound) && Value(s, base) == value
  }

  lemma FitsSum(x: int, y: int, a: nat, b: nat, base: nat)
    requires Fits(x, a, base) && Fits(y, b, base)
    ensures Fits(x + y, a + b, base) && Fits(x - y, a + b, base)
  {
    hide Value;
    var s: Score :| Within(s, a) && Value(s, base) == x;
    var t: Score :| Within(t, b) && Value(t, base) == y;
    PlusValue(s, t, base);
    MinusValue(s, t, base);
    assert Within(Plus(s, t), a + b) && Within(Minus(s, t), a + b);
  }

  lemma FitsMore(x: int, a: nat, b: nat, base: nat)
    requires Fits(x, a, base) && a <= b
    ensures Fits(x, b, base)
  {
    hide Value;
    var s: Score :| Within(s, a) && Value(s, base) == x;
    assert Within(s, b);
  }

  lemma FitsZero(bound: nat, base: nat)
    ensures Fits(0, bound, base)
  {
    hide Value;
    ZeroValue(base);
    assert Within(Zero(), bound);
  }

  lemma FitsNegated(x: int, a: nat, base: nat)
    requires Fits(x, a, base)
    ensures Fits(0 - x, a, base)
  {
    FitsZero(0, base);
    FitsSum(0, x, 0, a, base);
  }

  /** A stored score whose number fits a bound is within it. */
  lemma FitsStored(p: Problem, s: Score, value: int, bound: nat)
    requires Storable(s) && Value(s, Base(p)) == value && Fits(value, bound, Base(p)) && bound <= I128_BOUND
    ensures Within(s, bound)
  {
    hide Value, Less, Base;
    var other: Score :| Within(other, bound) && Value(other, Base(p)) == value;
    BaseIsLarge(p);
    LessByValue(s, other, I128_BOUND, Base(p));
  }

  // ---------- costs ----------

  /** Every component of every cost lies within b. */
  ghost predicate CostsWithin(p: Problem, b: nat) {
    forall r, c | 0 <= r < |p.rows| && c in p.rows[r] :: Within(p.rows[r][c].cost, b)
  }

  /** What every price lies within between two searches, if every cost lies within b. */
  ghost function Margin(p: Problem, b: nat): nat { 4 * (|p.rows| + 1) * b }

  /** The costs leave room for every sum and difference of a solve. */
  ghost predicate Roomy(p: Problem, b: nat) {
    CostsWithin(p, b) && 8 * Margin(p, b) < I128_BOUND
  }

  ghost predicate Tame(p: Problem) {
    exists b: nat :: Roomy(p, b)
  }

  ghost function Steps(n: nat, b: nat): nat { if n == 0 then 0 else Steps(n - 1, b) + 2 * b }

  lemma {:induction false} StepsAre(n: nat, b: nat)
    ensures Steps(n, b) == 2 * n * b
  {
    if n > 0 {
      StepsAre(n - 1, b);
      Spread(2 * (n - 1), 2, b);
      assert 2 * (n - 1) + 2 == 2 * n;
    }
  }

  lemma {:induction false} StepsGrow(n: nat, m: nat, b: nat)
    requires n <= m
    ensures Steps(n, b) <= Steps(m, b)
  {
    if n < m {
      StepsGrow(n, m - 1, b);
    }
  }

  lemma MarginIs(p: Problem, b: nat)
    ensures Margin(p, b) == 2 * Steps(|p.rows|, b) + 4 * b
  {
    StepsAre(|p.rows|, b);
    Spread(4 * |p.rows|, 4, b);
    assert 4 * (|p.rows| + 1) == 4 * |p.rows| + 4;
    Doubled(|p.rows|, b);
  }

  lemma Doubled(n: nat, b: nat)
    ensures 2 * (2 * n * b) == 4 * n * b
  {}

  /** Weights of 32 bits are small enough for any number of rows a machine can hold. */
  lemma WeightsAreTame(p: Problem)
    requires CostsWithin(p, 0xFFFF_FFFF) && |p.rows| < USIZE_MAX
    ensures Tame(p)
  {
    assert Roomy(p, 0xFFFF_FFFF);
  }

  lemma WeightFits(p: Problem, forbidden: set<nat>, b: nat, r: nat, c: nat)
    requires CostsWithin(p, b) && 1 <= r <= |p.rows| && 1 <= c && CostAt(p, forbidden, r, c).Some?
    ensures Within(CostAt(p, forbidden, r, c).value, b)
    ensures Fits(Weight(p, forbidden, Base(p), r, c), b, Base(p))
  {
    hide Value, Base;
    if c <= p.realColumns {
      assert Within(p.rows[r - 1][c - 1].cost, b);
    }
  }

  // ---------- prices of the tree ----------

  lemma RowIs(p: Problem, forbidden: set<nat>, t: Tree, row: nat)
    requires Growing(p, forbidden, Base(p), t, row)
    ensures Sized(p, t) && RowsPriced(p, forbidden, Base(p), t, row) && Rooted(p, forbidden, Base(p), t)
    ensures |t.mates| == Columns(p) + 1 && 1 <= row <= |p.rows| && t.mates != [] && t.mates[0] == row && row < |t.u|
  {}

  /** How far a tree column's prices are from the root's: one step for its row, half a step less for itself. */
  ghost predicate NearRoot(p: Problem, t: Tree, row: nat, b: nat, i: nat)
    requires Sized(p, t) && row < |t.u| && i < |t.order|
  {
    && t.order[i] in t.order && Fits(t.u[t.mates[t.order[i]]] - t.u[row], Steps(i, b), Base(p))
    && (i > 0 ==> Fits(t.v[t.order[i]] + t.u[row], Steps(i, b), Base(p)))
  }

  /** What hangs on a tree column by a tight edge is one cost away from that column's row. */
  lemma HangsNear(p: Problem, forbidden: set<nat>, t: Tree, b: nat, r: nat, c: nat, root: int, near: nat)
    requires Sized(p, t) && CostsWithin(p, b) && Tight(p, forbidden, Base(p), t.u, t.v, r, c)
    requires Fits(t.u[r] - root, near, Base(p))
    ensures Fits(t.v[c] + root, near + b, Base(p))
  {
    hide Weight, Base;
    WeightFits(p, forbidden, b, r, c);
    FitsSum(Weight(p, forbidden, Base(p), r, c), t.u[r] - root, b, near, Base(p));
  }

  lemma MateNear(p: Problem, forbidden: set<nat>, t: Tree, b: nat, r: nat, c: nat, root: int, near: nat)
    requires Sized(p, t) && CostsWithin(p, b) && Tight(p, forbidden, Base(p), t.u, t.v, r, c)
    requires Fits(t.v[c] + root, near, Base(p))
    ensures Fits(t.u[r] - root, near + b, Base(p))
  {
    hide Weight, Base;
    WeightFits(p, forbidden, b, r, c);
    FitsSum(Weight(p, forbidden, Base(p), r, c), t.v[c] + root, b, near, Base(p));
  }

  lemma {:induction false} TreeNearRoot(p: Problem, forbidden: set<nat>, t: Tree, row: nat, b: nat, i: nat)
    requires Growing(p, forbidden, Base(p), t, row) && row < |t.u| && CostsWithin(p, b) && i < |t.order|
    ensures NearRoot(p, t, row, b, i)
  {
    hide Growing, Base, Fits, Steps;
    RowIs(p, forbidden, t, row);
    if i == 0 {
      RootNearRoot(p, forbidden, t, row, b);
    } else {
      var j := HangsOn(p, forbidden, t, i);
      TreeNearRoot(p, forbidden, t, row, b, j);
      StepNearRoot(p, forbidden, t, row, b, i, j);
    }
  }

  lemma RootNearRoot(p: Problem, forbidden: set<nat>, t: Tree, row: nat, b: nat)
    requires Growing(p, forbidden, Base(p), t, row) && row < |t.u| && t.order != []
    ensures NearRoot(p, t, row, b, 0)
  {
    hide RowsPriced, AllReached, Hangs, Base, Fits;
    RowIs(p, forbidden, t, row);
    assert t.order[0] in t.order;
    FitsZero(0, Base(p));
  }

  /** The place of the column that the i-th one hangs on. */
  lemma HangsOn(p: Problem, forbidden: set<nat>, t: Tree, i: nat) returns (j: nat)
    requires Sized(p, t) && Rooted(p, forbidden, Base(p), t) && 1 <= i < |t.order|
    ensures j < i && t.order[j] in t.order && t.order[i] in t.order && 1 <= t.order[i]
    ensures Tight(p, forbidden, Base(p), t.u, t.v, t.mates[t.order[j]], t.order[i])
  {
    hide Tight, Base;
    assert Hangs(p, forbidden, Base(p), t, t.order[..i], t.order[i]);
    j :| 0 <= j < i && t.order[..i][j] == t.previous[t.order[i]];
  }

  lemma StepNearRoot(p: Problem, forbidden: set<nat>, t: Tree, row: nat, b: nat, i: nat, j: nat)
    requires Sized(p, t) && RowsPriced(p, forbidden, Base(p), t, row) && row < |t.u| && CostsWithin(p, b)
    requires j < i < |t.order| && t.order[i] in t.order && 1 <= t.order[i] && NearRoot(p, t, row, b, j)
    requires Tight(p, forbidden, Base(p), t.u, t.v, t.mates[t.order[j]], t.order[i])
    ensures NearRoot(p, t, row, b, i)
  {
    hide RowsPriced, Tight, Base, Fits;
    var c, near := t.order[i], Steps(j, b);
    StepsGrow(j + 1, i, b);
    HangsNear(p, forbidden, t, b, t.mates[t.order[j]], c, t.u[row], near);
    MatedTight(p, forbidden, t, row, c);
    MateNear(p, forbidden, t, b, t.mates[c], c, t.u[row], near + b);
    FitsMore(t.v[c] + t.u[row], near + b, Steps(i, b), Base(p));
    FitsMore(t.u[t.mates[c]] - t.u[row], near + b + b, Steps(i, b), Base(p));
  }

  lemma MatedTight(p: Problem, forbidden: set<nat>, t: Tree, row: nat, c: nat)
    requires Sized(p, t) && RowsPriced(p, forbidden, Base(p), t, row) && 1 <= c < |t.mates| && t.mates[c] != 0
    ensures Tight(p, forbidden, Base(p), t.u, t.v, t.mates[c], c)
  {}

  lemma TreeAtMost(p: Problem, forbidden: set<nat>, t: Tree, row: nat)
    requires Growing(p, forbidden, Base(p), t, row)
    ensures |t.order| <= row
  {
    hide RowsPriced, AllReached, Hangs, Base;
    forall i | 0 <= i < |t.order| ensures t.order[i] < |t.mates| && t.mates[t.order[i]] != 0 {
      assert t.order[i] in t.order;
    }
    ColumnsFit(p, forbidden, Base(p), t, row, t.order);
  }

  /** The column at the door is that much away from the root as well. */
  lemma DoorNearRoot(p: Problem, forbidden: set<nat>, t: Tree, row: nat, column: nat, b: nat)
    requires Growing(p, forbidden, Base(p), t, row) && row < |t.u| && 1 <= row <= |p.rows| && CostsWithin(p, b)
    requires AtDoor(p, forbidden, Base(p), t, row, column) && column != 0
    ensures Fits(t.v[column] + t.u[row], Steps(|p.rows|, b), Base(p))
  {
    hide RowsPriced, AllReached, Rooted, Tight, Base, Fits;
    RowIs(p, forbidden, t, row);
    TreeAtMost(p, forbidden, t, row);
    var j :| 0 <= j < |t.order| && t.order[j] == t.previous[column];
    TreeNearRoot(p, forbidden, t, row, b, j);
    HangsNear(p, forbidden, t, b, t.mates[t.previous[column]], column, t.u[row], Steps(j, b));
    StepsGrow(j + 1, |p.rows|, b);
    FitsMore(t.v[column] + t.u[row], Steps(j, b) + b, Steps(|p.rows|, b), Base(p));
  }

  // ---------- what stays small during a search ----------

  /** All prices together. */
  ghost function Balance(u: seq<int>, v: seq<int>): int
    requires u != [] && v != []
  {
    PriceSum(u, |u| - 1) + v[0] + PriceSum(v, |v| - 1)
  }

  /** Outside the tree prices are within the margin, later rows have none, the root's price is what
      column 0 has lost in this search, and all prices add up to nothing. */
  ghost predicate Steady(p: Problem, b: nat, t: Tree, row: nat) {
    && Roomy(p, b) && Sized(p, t) && 1 <= row <= |p.rows|
    && (forall r | 1 <= r <= |p.rows| && r != row && !InTree(t, r) :: Fits(t.u[r], Margin(p, b), Base(p)))
    && (forall c | 1 <= c <= Columns(p) && c !in t.order :: Fits(t.v[c], Margin(p, b), Base(p)))
    && (forall r | row < r <= |p.rows| :: t.u[r] == 0)
    && (t.order == [] ==> t.u[row] == 0)
    && Fits(t.v[0] + t.u[row], Steps(|p.rows|, b), Base(p)) && Balance(t.u, t.v) == 0
  }

  /** Every price of the tree's rows and columns is within the bound. */
  ghost predicate PricesFit(p: Problem, t: Tree, bound: nat)
    requires Sized(p, t)
  {
    && (forall r | 1 <= r <= |p.rows| :: Fits(t.u[r], bound, Base(p)))
    && (forall c | 1 <= c <= Columns(p) :: Fits(t.v[c], bound, Base(p)))
  }

  /** Once the root fits, the tree does. */
  lemma TreeFits(p: Problem, forbidden: set<nat>, t: Tree, row: nat, b: nat, bound: nat, i: nat)
    requires Growing(p, forbidden, Base(p), t, row) && row < |t.u| && CostsWithin(p, b) && i < |t.order|
    requires Fits(t.u[row], bound, Base(p))
    ensures Fits(t.u[t.mates[t.order[i]]], bound + Steps(|p.rows|, b), Base(p))
    ensures i > 0 ==> Fits(t.v[t.order[i]], bound + Steps(|p.rows|, b), Base(p))
  {
    hide RowsPriced, AllReached, Rooted, Base, Fits;
    RowIs(p, forbidden, t, row);
    var n := |p.rows|;
    TreeAtMost(p, forbidden, t, row);
    TreeNearRoot(p, forbidden, t, row, b, i);
    StepsGrow(i, n, b);
    var r, c := t.mates[t.order[i]], t.order[i];
    FitsSum(t.u[row], t.u[r] - t.u[row], bound, Steps(i, b), Base(p));
    FitsMore(t.u[r], bound + Steps(i, b), bound + Steps(n, b), Base(p));
    if i > 0 {
      FitsSum(t.v[c] + t.u[row], t.u[row], Steps(i, b), bound, Base(p));
      FitsMore(t.v[c], Steps(i, b) + bound, bound + Steps(n, b), Base(p));
    }
  }

  /** The root's price, from the column at the door. */
  lemma RootFits(p: Problem, forbidden: set<nat>, t: Tree, row: nat, column: nat, b: nat)
    requires Growing(p, forbidden, Base(p), t, row) && Steady(p, b, t, row)
    requires AtDoor(p, forbidden, Base(p), t, row, column)
    ensures var free := column != 0 && t.mates[column] == 0;
      Fits(t.u[row], (if free then 0 else Margin(p, b)) + Steps(|p.rows|, b), Base(p))
  {
    hide RowsPriced, AllReached, Rooted, Hangs, Fair, Base, Fits;
    RowIs(p, forbidden, t, row);
    var n := |p.rows|;
    if column == 0 {
      FitsZero(Margin(p, b) + Steps(n, b), Base(p));
    } else {
      DoorNearRoot(p, forbidden, t, row, column, b);
      var bound: nat := if t.mates[column] == 0 then 0 else Margin(p, b);
      if t.mates[column] == 0 {
        FreeIsZero(p, forbidden, t, row, column);
        FitsZero(0, Base(p));
      }
      FitsSum(t.v[column] + t.u[row], t.v[column], Steps(n, b), bound, Base(p));
    }
  }

  lemma FreeIsZero(p: Problem, forbidden: set<nat>, t: Tree, row: nat, c: nat)
    requires Sized(p, t) && RowsPriced(p, forbidden, Base(p), t, row) && 1 <= c < |t.mates| && t.mates[c] == 0
    ensures t.v[c] == 0
  {}

  lemma RoomyMargin(p: Problem, b: nat)
    requires Roomy(p, b)
    ensures CostsWithin(p, b) && 2 * Steps(|p.rows|, b) + 4 * b == Margin(p, b) && 8 * Margin(p, b) < I128_BOUND
  {
    MarginIs(p, b);
  }

  /** At the door every price is within twice the margin, and once the column there is free within the margin. */
  lemma AllPricesFit(p: Problem, forbidden: set<nat>, t: Tree, row: nat, column: nat, b: nat)
    requires Growing(p, forbidden, Base(p), t, row) && Steady(p, b, t, row)
    requires AtDoor(p, forbidden, Base(p), t, row, column)
    ensures PricesFit(p, t, if column != 0 && t.mates[column] == 0 then Margin(p, b) else 2 * Margin(p, b))
  {
    hide Growing, AtDoor, Roomy, Base, Fits, Margin, Steps, CostsWithin;
    RowIs(p, forbidden, t, row);
    RoomyMargin(p, b);
    DoorIsColumn(p, forbidden, t, row, column);
    RootFits(p, forbidden, t, row, column, b);
    var margin, steps := Margin(p, b), Steps(|p.rows|, b);
    var free := column != 0 && t.mates[column] == 0;
    var root: nat := (if free then 0 else margin) + steps;
    var bound: nat := if free then margin else 2 * margin;
    forall r | 1 <= r <= |p.rows| ensures Fits(t.u[r], bound, Base(p)) {
      RowFits(p, forbidden, t, row, b, root, bound, r);
    }
    forall c | 1 <= c <= Columns(p) ensures Fits(t.v[c], bound, Base(p)) {
      ColumnFits(p, forbidden, t, row, b, root, bound, c);
    }
  }

  lemma DoorIsColumn(p: Problem, forbidden: set<nat>, t: Tree, row: nat, column: nat)
    requires Sized(p, t) && 1 <= row <= |p.rows| && AtDoor(p, forbidden, Base(p), t, row, column)
    ensures column < |t.mates|
  {}

  lemma RowFits(p: Problem, forbidden: set<nat>, t: Tree, row: nat, b: nat, root: nat, bound: nat, r: nat)
    requires Growing(p, forbidden, Base(p), t, row) && Steady(p, b, t, row) && 1 <= r <= |p.rows|
    requires Fits(t.u[row], root, Base(p)) && root + Steps(|p.rows|, b) <= bound && Margin(p, b) <= bound
    ensures Fits(t.u[r], bound, Base(p))
  {
    hide Growing, Base, Fits, Margin, Steps;
    if r == row {
      FitsMore(t.u[r], root, bound, Base(p));
    } else if InTree(t, r) {
      var x :| x in t.order && x < |t.mates| && t.mates[x] == r;
      var i :| 0 <= i < |t.order| && t.order[i] == x;
      TreeFits(p, forbidden, t, row, b, root, i);
      FitsMore(t.u[r], root + Steps(|p.rows|, b), bound, Base(p));
    } else {
      FitsMore(t.u[r], Margin(p, b), bound, Base(p));
    }
  }

  lemma ColumnFits(p: Problem, forbidden: set<nat>, t: Tree, row: nat, b: nat, root: nat, bound: nat, c: nat)
    requires Growing(p, forbidden, Base(p), t, row) && Steady(p, b, t, row) && 1 <= c <= Columns(p)
    requires Fits(t.u[row], root, Base(p)) && root + Steps(|p.rows|, b) <= bound && Margin(p, b) <= bound
    ensures Fits(t.v[c], bound, Base(p))
  {
    hide AllReached, RowsPriced, Hangs, Base, Fits, Margin, Steps;
    if c in t.order {
      var i :| 0 <= i < |t.order| && t.order[i] == c;
      assert i > 0;
      TreeFits(p, forbidden, t, row, b, root, i);
      FitsMore(t.v[c], root + Steps(|p.rows|, b), bound, Base(p));
    } else {
      FitsMore(t.v[c], Margin(p, b), bound, Base(p));
    }
  }

  /** Nothing is larger than four margins as the prices are about to move. */
  ghost predicate AllFit(p: Problem, t: Tree, margin: nat)
    requires Sized(p, t)
  {
    && PricesFit(p, t, 2 * margin) && Fits(t.v[0], 3 * margin, Base(p))
    && forall c | 1 <= c <= Columns(p) && c !in t.order && t.distance[c].Some? ::
         Fits(t.distance[c].value, 4 * margin, Base(p))
  }

  /** Column 0 has what it had before the search, less the root's price. */
  lemma FirstColumnFits(p: Problem, b: nat, t: Tree, row: nat)
    requires Steady(p, b, t, row) && PricesFit(p, t, 2 * Margin(p, b))
    ensures Fits(t.v[0], 3 * Margin(p, b), Base(p))
  {
    hide Roomy, Base, Fits, Margin, Steps, InTree;
    RoomyMargin(p, b);
    FitsSum(t.v[0] + t.u[row], t.u[row], Steps(|p.rows|, b), 2 * Margin(p, b), Base(p));
    FitsMore(t.v[0], Steps(|p.rows|, b) + 2 * Margin(p, b), 3 * Margin(p, b), Base(p));
  }

  /** A distance is a cost less two prices, one of them outside the tree. */
  lemma DistanceFits(p: Problem, forbidden: set<nat>, b: nat, t: Tree, row: nat, c: nat)
    requires Steady(p, b, t, row) && PricesFit(p, t, 2 * Margin(p, b)) && 1 <= c <= Columns(p) && c !in t.order
    requires Reached(p, forbidden, Base(p), t, c) && t.distance[c].Some?
    ensures Fits(t.distance[c].value, 4 * Margin(p, b), Base(p))
  {
    hide Roomy, Base, Fits, Margin, Steps, InTree, Weight;
    RoomyMargin(p, b);
    var margin, r := Margin(p, b), t.mates[t.previous[c]];
    WeightFits(p, forbidden, b, r, c);
    FitsSum(Weight(p, forbidden, Base(p), r, c), t.u[r], b, 2 * margin, Base(p));
    FitsSum(Weight(p, forbidden, Base(p), r, c) - t.u[r], t.v[c], b + 2 * margin, margin, Base(p));
    FitsMore(t.distance[c].value, b + 2 * margin + margin, 4 * margin, Base(p));
  }

  /** The column at the door is entered: the prices are those at the door. */
  lemma EnteredFits(p: Problem, forbidden: set<nat>, b: nat, t: Tree, row: nat, column: nat)
    requires Growing(p, forbidden, Base(p), t, row) && Steady(p, b, t, row)
    requires AtDoor(p, forbidden, Base(p), t, row, column) && t.mates[column] != 0
    requires Growing(p, forbidden, Base(p), Entered(p, forbidden, Base(p), t, column), row)
    ensures var t' := Entered(p, forbidden, Base(p), t, column);
      Steady(p, b, t', row) && AllFit(p, t', Margin(p, b))
  {
    hide Roomy, Base, Fits, Margin, Steps, Reached, RowsPriced, Rooted;
    var t' := Entered(p, forbidden, Base(p), t, column);
    AllPricesFit(p, forbidden, t, row, column, b);
    EnteredSteady(p, forbidden, b, t, row, column);
    FirstColumnFits(p, b, t', row);
    forall c | 1 <= c <= Columns(p) && c !in t'.order && t'.distance[c].Some?
      ensures Fits(t'.distance[c].value, 4 * Margin(p, b), Base(p))
    {
      DistanceFits(p, forbidden, b, t', row, c);
    }
  }

  lemma EnteredSteady(p: Problem, forbidden: set<nat>, b: nat, t: Tree, row: nat, column: nat)
    requires Steady(p, b, t, row) && column < |t.mates| && t.mates[column] != 0
    requires Sized(p, Entered(p, forbidden, Base(p), t, column))
    ensures Steady(p, b, Entered(p, forbidden, Base(p), t, column), row)
  {
    hide Base, Entered, Roomy, Fits, Margin, Steps, Balance, InTree;
    var t' := Entered(p, forbidden, Base(p), t, column);
    EnteredParts(p, forbidden, t, column);
    LargerSteady(p, b, t, t', row, column);
  }

  lemma EnteredParts(p: Problem, forbidden: set<nat>, t: Tree, column: nat)
    requires Sized(p, t) && column < |t.mates| && t.mates[column] != 0
    ensures var t' := Entered(p, forbidden, Base(p), t, column);
      t'.u == t.u && t'.v == t.v && t'.mates == t.mates && t'.order == t.order + [column]
  {
    hide Base, Nearer;
  }

  /** With one more column in the tree there is less outside it. */
  lemma LargerSteady(p: Problem, b: nat, t: Tree, t': Tree, row: nat, column: nat)
    requires Steady(p, b, t, row) && Sized(p, t')
    requires t'.u == t.u && t'.v == t.v && t'.mates == t.mates && t'.order == t.order + [column]
    ensures Steady(p, b, t', row)
  {
    hide Roomy, Base, Fits, Margin, Steps, Balance;
    forall r | InTree(t, r) ensures InTree(t', r) {
      var x :| x in t.order && x < |t.mates| && t.mates[x] == r;
      assert x in t'.order;
    }
  }

  // ---------- moving ----------

  lemma {:induction false} SumChanged(v: seq<int>, k: nat, x: int, n: nat)
    requires 1 <= k < |v| && n < |v|
    ensures PriceSum(v[k := x], n) == PriceSum(v, n) + if k <= n then x - v[k] else 0
  {
    if n > 0 {
      SumChanged(v, k, x, n - 1);
    }
  }

  lemma {:induction false} SumWithoutFirst(v: seq<int>, x: int, n: nat)
    requires n < |v|
    ensures PriceSum(v[0 := x], n) == PriceSum(v, n)
  {
    if n > 0 {
      SumWithoutFirst(v, x, n - 1);
    }
  }

  /** What one row's price gains one column's loses. */
  lemma BalanceKept(u: seq<int>, v: seq<int>, r: nat, c: nat, delta: int)
    requires 1 <= r < |u| && c < |v|
    ensures Balance(u[r := u[r] + delta], v[c := v[c] - delta]) == Balance(u, v)
  {
    SumChanged(u, r, u[r] + delta, |u| - 1);
    if c == 0 {
      SumWithoutFirst(v, v[0] - delta, |v| - 1);
    } else {
      SumChanged(v, c, v[c] - delta, |v| - 1);
    }
  }

  /** Later rows are not in the tree, the new one is. */
  lemma TreeRows(p: Problem, forbidden: set<nat>, t: Tree, row: nat, r: nat)
    requires Growing(p, forbidden, Base(p), t, row) && t.order != []
    ensures InTree(t, r) ==> 1 <= r <= row
    ensures InTree(t, row) && 0 in t.order
  {
    hide AllReached, Base, Hangs;
    assert t.order[0] == 0 && 0 in t.order;
  }

  /** A move keeps all that is outside the tree, and all prices together. */
  lemma MovedSteady(p: Problem, forbidden: set<nat>, b: nat, t: Tree, row: nat, delta: int)
    requires Growing(p, forbidden, Base(p), t, row) && Steady(p, b, t, row) && t.order != []
    requires Sized(p, Moved(t, delta)) && Balance(Moved(t, delta).u, Moved(t, delta).v) == Balance(t.u, t.v)
    ensures Steady(p, b, Moved(t, delta), row)
  {
    hide Roomy, Base, Fits, Margin, Steps, Balance, Growing;
    var t' := Moved(t, delta);
    forall r ensures InTree(t', r) <==> InTree(t, r) {}
    TreeRows(p, forbidden, t, row, row);
    forall r | row < r <= |p.rows| ensures t'.u[r] == 0 {
      TreeRows(p, forbidden, t, row, r);
    }
    assert t'.v[0] + t'.u[row] == t.v[0] + t.u[row];
  }

  // ---------- between searches ----------

  /** Every price is within the margin, rows not yet priced have none, and all prices add up to nothing. */
  ghost predicate Quiet(p: Problem, b: nat, u: seq<int>, v: seq<int>, k: nat) {
    && Roomy(p, b) && |u| == |p.rows| + 1 && |v| == Columns(p) + 1
    && (forall r | 1 <= r <= |p.rows| :: Fits(u[r], Margin(p, b), Base(p)))
    && (forall c | 1 <= c <= Columns(p) :: Fits(v[c], Margin(p, b), Base(p)))
    && (forall r | k < r <= |p.rows| :: u[r] == 0)
    && Balance(u, v) == 0
  }

  lemma {:induction false} NoPrices(v: seq<int>, n: nat)
    requires n < |v| && forall i | 1 <= i <= n :: v[i] == 0
    ensures PriceSum(v, n) == 0
  {
    if n > 0 {
      NoPrices(v, n - 1);
    }
  }

  lemma QuietAtFirst(p: Problem, b: nat)
    requires Roomy(p, b)
    ensures Quiet(p, b, seq(|p.rows| + 1, _ => 0), seq(Columns(p) + 1, _ => 0), 0)
  {
    hide Roomy, Base, Fits, Margin;
    var u, v: seq<int> := seq(|p.rows| + 1, _ => 0), seq(Columns(p) + 1, _ => 0);
    FitsZero(Margin(p, b), Base(p));
    NoPrices(u, |p.rows|);
    NoPrices(v, Columns(p));
  }

  /** How many of the first n columns have rows. */
  ghost function Mates(mates: seq<nat>, n: nat): nat
    requires n < |mates|
  {
    if n == 0 then 0 else Mates(mates, n - 1) + if mates[n] == 0 then 0 else 1
  }

  lemma {:induction false} MatesAreOnes(mates: seq<nat>, ones: seq<int>, n: nat)
    requires n < |mates| && forall c | 1 <= c < |mates| :: mates[c] < |ones|
    requires forall r | 1 <= r < |ones| :: ones[r] == 1
    ensures MateSum(ones, mates, n) == Mates(mates, n)
  {
    if n > 0 {
      MatesAreOnes(mates, ones, n - 1);
    }
  }

  lemma {:induction false} SumOfOnes(ones: seq<int>, n: nat)
    requires n < |ones| && forall r | 1 <= r < |ones| :: ones[r] == 1
    ensures PriceSum(ones, n) == n
  {
    if n > 0 {
      SumOfOnes(ones, n - 1);
    }
  }

  /** As many columns have rows as there are rows with columns. */
  lemma MatesCounted(mates: seq<nat>, k: nat)
    requires Covers(mates, k) && mates != []
    ensures Mates(mates, |mates| - 1) == k
  {
    hide HasColumn;
    var ones: seq<int> := seq(k + 1, _ => 1);
    RowsOnce(ones, mates, k);
    MatesAreOnes(mates, ones, |mates| - 1);
    SumOfOnes(ones, k);
  }

  lemma {:induction false} MateCostFits(p: Problem, forbidden: set<nat>, b: nat, mates: seq<nat>, n: nat)
    requires CostsWithin(p, b) && Linked(p, forbidden, mates) && n < |mates|
    ensures Fits(MateCost(p, forbidden, Base(p), mates, n), Steps(Mates(mates, n), b), Base(p))
  {
    hide Base, Fits, Weight, CostsWithin;
    if n == 0 {
      FitsZero(0, Base(p));
    } else {
      MateCostFits(p, forbidden, b, mates, n - 1);
      if mates[n] != 0 {
        var before := MateCost(p, forbidden, Base(p), mates, n - 1);
        WeightFits(p, forbidden, b, mates[n], n);
        FitsSum(before, Weight(p, forbidden, Base(p), mates[n], n), Steps(Mates(mates, n - 1), b), b, Base(p));
        FitsMore(MateCost(p, forbidden, Base(p), mates, n), Steps(Mates(mates, n - 1), b) + b,
                 Steps(Mates(mates, n), b), Base(p));
      }
    }
  }

  lemma {:induction false} LaterRowsAddNothing(u: seq<int>, k: nat, n: nat)
    requires k <= n < |u| && forall r | k < r <= n :: u[r] == 0
    ensures PriceSum(u, n) == PriceSum(u, k)
  {
    if k < n {
      LaterRowsAddNothing(u, k, n - 1);
    }
  }

  lemma PricedLinked(p: Problem, forbidden: set<nat>, u: seq<int>, v: seq<int>, mates: seq<nat>, k: nat)
    requires Priced(p, forbidden, Base(p), u, v, mates, k)
    ensures Linked(p, forbidden, mates) && Covers(mates, k) && k <= |p.rows|
  {
    hide Weight, Base, Covers;
    forall c | 1 <= c < |mates| && mates[c] != 0
      ensures mates[c] <= |p.rows| && CostAt(p, forbidden, mates[c], c).Some?
    {
      assert Tight(p, forbidden, Base(p), u, v, mates[c], c);
    }
  }

  /** Between searches column 0 has lost what the assigned columns cost together. */
  lemma FirstColumnIsCost(p: Problem, forbidden: set<nat>, b: nat, u: seq<int>, v: seq<int>, mates: seq<nat>, k: nat)
    requires Quiet(p, b, u, v, k) && Priced(p, forbidden, Base(p), u, v, mates, k)
    ensures Linked(p, forbidden, mates) && v[0] == 0 - MateCost(p, forbidden, Base(p), mates, Columns(p))
    ensures Fits(v[0], Steps(|p.rows|, b), Base(p))
  {
    hide Priced, Linked, Covers, Base, Fits, Margin;
    PricedLinked(p, forbidden, u, v, mates, k);
    assert |mates| == Columns(p) + 1 by {
      LinkedSize(p, forbidden, mates);
    }
    TightSum(p, forbidden, Base(p), u, v, mates, k, Columns(p));
    RowsOnce(u, mates, k);
    LaterRowsAddNothing(u, k, |p.rows|);
    MateCostFits(p, forbidden, b, mates, Columns(p));
    MatesCounted(mates, k);
    StepsGrow(k, |p.rows|, b);
    FitsMore(MateCost(p, forbidden, Base(p), mates, Columns(p)), Steps(k, b), Steps(|p.rows|, b), Base(p));
    FitsNegated(MateCost(p, forbidden, Base(p), mates, Columns(p)), Steps(|p.rows|, b), Base(p));
  }

  /** A search begins as it finds the prices. */
  lemma SteadyAtFirst(p: Problem, forbidden: set<nat>, b: nat, t: Tree, mates: seq<nat>, row: nat)
    requires 1 <= row <= |p.rows| && Quiet(p, b, t.u, t.v, row - 1) && Sized(p, t) && t.order == []
    requires Priced(p, forbidden, Base(p), t.u, t.v, mates, row - 1)
    ensures Steady(p, b, t, row)
  {
    hide Priced, Base, Fits, Margin, Steps, Balance;
    FirstColumnIsCost(p, forbidden, b, t.u, t.v, mates, row - 1);
  }

  /** And a search that ends at a free column leaves them so. */
  lemma QuietAtLast(p: Problem, forbidden: set<nat>, b: nat, t: Tree, row: nat, column: nat)
    requires Growing(p, forbidden, Base(p), t, row) && Steady(p, b, t, row)
    requires AtDoor(p, forbidden, Base(p), t, row, column) && column != 0 && t.mates[column] == 0
    ensures Quiet(p, b, t.u, t.v, row)
  {
    hide Growing, AtDoor, Base, Fits, Margin, Steps, Balance, Roomy;
    AllPricesFit(p, forbidden, t, row, column, b);
  }

  // ---------- the total ----------

  /** The rows of the columns below n, counted from 1. */
  ghost function RowsBelow(a: map<nat, nat>, n: nat): seq<nat> {
    if n == 0 then [] else RowsBelow(a, n - 1) + if n - 1 in a then [a[n - 1] + 1] else []
  }

  lemma {:induction false} RowsBelowAre(a: map<nat, nat>, n: nat, x: nat)
    requires x in RowsBelow(a, n)
    ensures exists c :: c in a && c < n && a[c] + 1 == x
  {
    if n - 1 in a && a[n - 1] + 1 == x {
    } else {
      RowsBelowAre(a, n - 1, x);
    }
  }

  lemma {:induction false} RowsBelowDiffer(p: Problem, forbidden: set<nat>, a: map<nat, nat>, n: nat)
    requires Partial(p, forbidden, a)
    ensures forall i, j | 0 <= i < j < |RowsBelow(a, n)| :: RowsBelow(a, n)[i] != RowsBelow(a, n)[j]
    ensures forall i | 0 <= i < |RowsBelow(a, n)| :: 1 <= RowsBelow(a, n)[i] <= |p.rows|
  {
    if n > 0 {
      RowsBelowDiffer(p, forbidden, a, n - 1);
      var rows := RowsBelow(a, n - 1);
      if n - 1 in a {
        forall i | 0 <= i < |rows| ensures rows[i] != a[n - 1] + 1 {
          RowsBelowAre(a, n - 1, rows[i]);
        }
      }
    }
  }

  lemma RowsAtMost(p: Problem, forbidden: set<nat>, a: map<nat, nat>, n: nat)
    requires Partial(p, forbidden, a)
    ensures |RowsBelow(a, n)| <= |p.rows|
  {
    hide Partial;
    RowsBelowDiffer(p, forbidden, a, n);
    DistinctFit(RowsBelow(a, n), |p.rows|);
  }

  lemma {:induction false} TotalCounted(p: Problem, b: nat, a: map<nat, nat>, n: nat)
    requires CostsWithin(p, b) && Edges(p, a)
    ensures Within(TotalCost(p, a, n), Steps(|RowsBelow(a, n)|, b))
  {
    if n > 0 {
      TotalCounted(p, b, a, n - 1);
      if n - 1 in a {
        assert Within(p.rows[a[n - 1]][n - 1].cost, b);
      }
    }
  }

  /** The sum of the matched columns' costs never leaves the margin. */
  lemma TotalFits(p: Problem, forbidden: set<nat>, b: nat, a: map<nat, nat>, n: nat)
    requires Roomy(p, b) && Partial(p, forbidden, a) && Edges(p, a)
    ensures Within(TotalCost(p, a, n), Margin(p, b)) && Storable(TotalCost(p, a, n))
  {
    hide TotalCost, Steps, Margin;
    RoomyMargin(p, b);
    TotalCounted(p, b, a, n);
    RowsAtMost(p, forbidden, a, n);
    StepsGrow(|RowsBelow(a, n)|, |p.rows|, b);
  }
}
