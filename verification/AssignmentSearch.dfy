/** One row's search for a column: the tree of tight edges it grows and the prices it moves.
    The search starts at column 0, which stands for the new row. Every column it enters is
    reached by a tight edge from the row of a column entered before; the columns not entered
    know how far they are from the tree. Prices are whole numbers here, and every statement
    is about one state of the search or one step of it. */
module AssignmentSearch {
  import opened Basics
  import opened Scores
  import opened AssignmentProblem

  /** Row and column prices, the columns' rows, the distances from the tree with the column
      each comes from, and the columns entered, in order. */
  datatype Tree = Tree(u: seq<int>, v: seq<int>, mates: seq<nat>,
                       distance: seq<Option<int>>, previous: seq<nat>, order: seq<nat>)

  ghost predicate Sized(p: Problem, t: Tree) {
    && |t.u| == |p.rows| + 1
    && |t.v| == |t.mates| == |t.distance| == |t.previous| == Columns(p) + 1
    && (forall c | 0 <= c < |t.mates| :: t.mates[c] <= |p.rows|)
    && (forall x | x in t.order :: x < |t.mates| && t.mates[x] != 0)
  }

  /** What the edge costs beyond its prices. */
  ghost function Excess(p: Problem, forbidden: set<nat>, base: nat, t: Tree, r: nat, c: nat): int
    requires 1 <= r <= |p.rows| && 1 <= c && CostAt(p, forbidden, r, c).Some? && r < |t.u| && c < |t.v|
  {
    Weight(p, forbidden, base, r, c) - t.u[r] - t.v[c]
  }

  ghost predicate Joins(p: Problem, forbidden: set<nat>, t: Tree, x: nat, c: nat)
    requires Sized(p, t) && x in t.order && 1 <= c
  {
    CostAt(p, forbidden, t.mates[x], c).Some?
  }

  /** Column c knows its distance from the tree, and where it comes from. */
  ghost predicate Reached(p: Problem, forbidden: set<nat>, base: nat, t: Tree, c: nat)
    requires Sized(p, t) && 1 <= c <= Columns(p)
  {
    match t.distance[c]
    case None => forall x | x in t.order :: !Joins(p, forbidden, t, x, c)
    case Some(d) =>
      && t.previous[c] in t.order && Joins(p, forbidden, t, t.previous[c], c)
      && d == Excess(p, forbidden, base, t, t.mates[t.previous[c]], c)
      && forall x | x in t.order && Joins(p, forbidden, t, x, c) :: d <= Excess(p, forbidden, base, t, t.mates[x], c)
  }

  ghost predicate AllReached(p: Problem, forbidden: set<nat>, base: nat, t: Tree)
    requires Sized(p, t)
  {
    forall c | 1 <= c <= Columns(p) && c !in t.order :: Reached(p, forbidden, base, t, c)
  }

  /** The column hangs on an earlier one of the tree by a tight edge. */
  ghost predicate Hangs(p: Problem, forbidden: set<nat>, base: nat, t: Tree, earlier: seq<nat>, c: nat)
    requires Sized(p, t)
  {
    && 1 <= c <= Columns(p) && t.previous[c] in earlier && t.previous[c] < |t.mates|
    && Tight(p, forbidden, base, t.u, t.v, t.mates[t.previous[c]], c)
  }

  ghost predicate Rooted(p: Problem, forbidden: set<nat>, base: nat, t: Tree)
    requires Sized(p, t)
  {
    && (forall i, j | 0 <= i < j < |t.order| :: t.order[i] != t.order[j])
    && (t.order != [] ==> t.order[0] == 0)
    && forall i | 1 <= i < |t.order| :: Hangs(p, forbidden, base, t, t.order[..i], t.order[i])
  }

  /** The rows before the new one are priced, and column 0 has the new one. */
  ghost predicate RowsPriced(p: Problem, forbidden: set<nat>, base: nat, t: Tree, row: nat)
    requires Sized(p, t)
  {
    && 1 <= row <= |p.rows| && t.mates[0] == row
    && Priced(p, forbidden, base, t.u, t.v, t.mates, row - 1)
  }

  /** The tree after some columns were entered; once its prices moved the new row is fair too. */
  ghost predicate Growing(p: Problem, forbidden: set<nat>, base: nat, t: Tree, row: nat) {
    && Sized(p, t) && RowsPriced(p, forbidden, base, t, row) && Rooted(p, forbidden, base, t)
    && AllReached(p, forbidden, base, t)
  }

  /** The column to be entered next. */
  ghost predicate AtDoor(p: Problem, forbidden: set<nat>, base: nat, t: Tree, row: nat, column: nat)
    requires Sized(p, t) && 1 <= row <= |p.rows|
  {
    && column <= Columns(p) && column !in t.order
    && if column == 0 then t.order == []
       else t.order != [] && Hangs(p, forbidden, base, t, t.order, column) && Fair(p, forbidden, base, t.u, t.v, row)
  }

  // ---------- entering a column ----------

  /** The distance of column c when the row of one more column is looked at. */
  ghost predicate Nearer(p: Problem, forbidden: set<nat>, base: nat, t: Tree, column: nat, c: nat)
    requires Sized(p, t) && column < |t.mates| && t.mates[column] != 0 && 1 <= c <= Columns(p)
  {
    CostAt(p, forbidden, t.mates[column], c).Some?
    && (t.distance[c].None? || Excess(p, forbidden, base, t, t.mates[column], c) < t.distance[c].value)
  }

  /** Looking at column c from the column just entered. */
  lemma ReachOne(p: Problem, forbidden: set<nat>, base: nat, t: Tree, t': Tree, column: nat, c: nat)
    requires Sized(p, t) && column < |t.mates| && t.mates[column] != 0 && 1 <= c <= Columns(p)
    requires Reached(p, forbidden, base, t, c)
    requires t'.u == t.u && t'.v == t.v && t'.mates == t.mates && t'.order == t.order + [column] && Sized(p, t')
    requires if Nearer(p, forbidden, base, t, column, c)
             then t'.distance[c] == Some(Excess(p, forbidden, base, t, t.mates[column], c)) && t'.previous[c] == column
             else t'.distance[c] == t.distance[c] && t'.previous[c] == t.previous[c]
    ensures Reached(p, forbidden, base, t', c)
  {
    forall x ensures x in t'.order <==> x in t.order || x == column {}
    assert forall x | x in t.order :: Joins(p, forbidden, t, x, c) <==> Joins(p, forbidden, t', x, c);
  }

  /** The tree with the column entered, and the distances of the others from it. */
  ghost function Entered(p: Problem, forbidden: set<nat>, base: nat, t: Tree, column: nat): Tree
    requires Sized(p, t) && column < |t.mates| && t.mates[column] != 0
  {
    var order := t.order + [column];
    t.(order := order,
       distance := seq(|t.distance|, c requires 0 <= c < |t.distance| =>
         if c == 0 || c in order || !Nearer(p, forbidden, base, t, column, c) then t.distance[c]
         else Some(Excess(p, forbidden, base, t, t.mates[column], c))),
       previous := seq(|t.previous|, c requires 0 <= c < |t.previous| =>
         if c == 0 || c in order || !Nearer(p, forbidden, base, t, column, c) then t.previous[c] else column))
  }

  lemma EnteredSized(p: Problem, forbidden: set<nat>, base: nat, t: Tree, column: nat)
    requires Sized(p, t) && column < |t.mates| && t.mates[column] != 0
    ensures Sized(p, Entered(p, forbidden, base, t, column))
  {
    hide Nearer;
  }

  lemma EnteredReached(p: Problem, forbidden: set<nat>, base: nat, t: Tree, column: nat)
    requires Sized(p, t) && AllReached(p, forbidden, base, t) && column < |t.mates| && t.mates[column] != 0
    requires Sized(p, Entered(p, forbidden, base, t, column))
    ensures AllReached(p, forbidden, base, Entered(p, forbidden, base, t, column))
  {
    hide Reached, Weight;
    var t' := Entered(p, forbidden, base, t, column);
    forall c | 1 <= c <= Columns(p) && c !in t'.order ensures Reached(p, forbidden, base, t', c) {
      ReachOne(p, forbidden, base, t, t', column, c);
    }
  }

  lemma EnteredRooted(p: Problem, forbidden: set<nat>, base: nat, t: Tree, row: nat, column: nat)
    requires Sized(p, t) && Rooted(p, forbidden, base, t) && 1 <= row <= |p.rows|
    requires AtDoor(p, forbidden, base, t, row, column) && t.mates[column] != 0
    requires Sized(p, Entered(p, forbidden, base, t, column))
    ensures Rooted(p, forbidden, base, Entered(p, forbidden, base, t, column))
  {
    hide Hangs, Fair, Entered;
    var t' := Entered(p, forbidden, base, t, column);
    EnteredOrder(p, forbidden, base, t, column);
    forall i, j | 0 <= i < j < |t'.order| ensures t'.order[i] != t'.order[j] {
      assert t'.order[i] in t.order;
    }
    forall i | 1 <= i < |t'.order| ensures Hangs(p, forbidden, base, t', t'.order[..i], t'.order[i]) {
      var earlier := if i < |t.order| then t.order[..i] else t.order;
      assert t'.order[..i] == earlier;
      HangsStill(p, forbidden, base, t, column, earlier, t'.order[i]);
    }
  }

  lemma EnteredOrder(p: Problem, forbidden: set<nat>, base: nat, t: Tree, column: nat)
    requires Sized(p, t) && column < |t.mates| && t.mates[column] != 0
    ensures Entered(p, forbidden, base, t, column).order == t.order + [column]
  {}

  /** Columns of the tree are not looked at again. */
  lemma HangsStill(p: Problem, forbidden: set<nat>, base: nat, t: Tree, column: nat, earlier: seq<nat>, c: nat)
    requires Sized(p, t) && column < |t.mates| && t.mates[column] != 0
    requires Hangs(p, forbidden, base, t, earlier, c) && c in t.order + [column]
    requires Sized(p, Entered(p, forbidden, base, t, column))
    ensures Hangs(p, forbidden, base, Entered(p, forbidden, base, t, column), earlier, c)
  {
    hide Tight, Nearer, Excess;
  }

  /** Entering the column at the door keeps all that is known of the tree. */
  lemma EnterOne(p: Problem, forbidden: set<nat>, base: nat, t: Tree, row: nat, column: nat)
    requires Growing(p, forbidden, base, t, row) && 1 <= row <= |p.rows|
    requires AtDoor(p, forbidden, base, t, row, column) && t.mates[column] != 0
    ensures var t' := Entered(p, forbidden, base, t, column);
      && Growing(p, forbidden, base, t', row) && t'.order == t.order + [column]
      && (t'.order == [0] || Fair(p, forbidden, base, t'.u, t'.v, row))
  {
    hide Rooted, AllReached, Fair, Hangs, Nearer, Weight;
    EnteredSized(p, forbidden, base, t, column);
    EnteredReached(p, forbidden, base, t, column);
    EnteredRooted(p, forbidden, base, t, row, column);
    assert RowsPriced(p, forbidden, base, Entered(p, forbidden, base, t, column), row);
  }

  // ---------- moving the prices ----------

  ghost predicate InTree(t: Tree, r: nat) {
    exists x :: x in t.order && x < |t.mates| && t.mates[x] == r
  }

  /** The prices of the tree's rows rise by delta, those of its columns fall. */
  ghost function Moved(t: Tree, delta: int): Tree {
    t.(u := seq(|t.u|, r requires 0 <= r < |t.u| => if InTree(t, r) then t.u[r] + delta else t.u[r]),
       v := seq(|t.v|, c requires 0 <= c < |t.v| => if c in t.order then t.v[c] - delta else t.v[c]),
       distance := seq(|t.distance|, c requires 0 <= c < |t.distance| =>
         if c in t.order || t.distance[c].None? then t.distance[c] else Some(t.distance[c].value - delta)))
  }

  /** The nearest column outside the tree, and how near it is. */
  ghost predicate Nearest(t: Tree, next: nat, delta: int) {
    && 1 <= next < |t.distance| && next !in t.order && t.distance[next] == Some(delta)
    && forall c | 1 <= c < |t.distance| && c !in t.order && t.distance[c].Some? :: delta <= t.distance[c].value
  }

  /** Two columns have no row in common. */
  lemma OneColumn(p: Problem, forbidden: set<nat>, base: nat, t: Tree, row: nat, c: nat, d: nat)
    requires Sized(p, t) && RowsPriced(p, forbidden, base, t, row) && c < |t.mates| && d < |t.mates|
    requires t.mates[c] == t.mates[d] != 0
    ensures c == d
  {}

  /** Beyond the first column the nearest one is not nearer than the tree. */
  lemma DeltaNotNegative(p: Problem, forbidden: set<nat>, base: nat, t: Tree, row: nat, next: nat, delta: int)
    requires Growing(p, forbidden, base, t, row) && Nearest(t, next, delta)
    requires Fair(p, forbidden, base, t.u, t.v, row)
    ensures delta >= 0
  {
    assert Reached(p, forbidden, base, t, next);
    var r := t.mates[t.previous[next]];
    assert r == row || Fair(p, forbidden, base, t.u, t.v, r);
  }

  lemma ExcessMoved(p: Problem, forbidden: set<nat>, base: nat, t: Tree, delta: int, r: nat, c: nat)
    requires Sized(p, t) && 1 <= r <= |p.rows| && 1 <= c <= Columns(p) && CostAt(p, forbidden, r, c).Some?
    ensures Excess(p, forbidden, base, Moved(t, delta), r, c)
      == Excess(p, forbidden, base, t, r, c) - (if InTree(t, r) then delta else 0) + if c in t.order then delta else 0
  {
    hide InTree, Weight;
  }

  lemma MovedSized(p: Problem, t: Tree, delta: int)
    requires Sized(p, t)
    ensures Sized(p, Moved(t, delta))
  {
    hide InTree;
  }

  /** The prices may move: the tree is no more than column 0, or the new row is fair and they move up. */
  ghost predicate MayMove(p: Problem, forbidden: set<nat>, base: nat, t: Tree, row: nat, next: nat, delta: int) {
    && Growing(p, forbidden, base, t, row) && t.order != [] && Nearest(t, next, delta)
    && (t.order == [0] || (delta >= 0 && Fair(p, forbidden, base, t.u, t.v, row)))
  }

  lemma MovedFair(p: Problem, forbidden: set<nat>, base: nat, t: Tree, row: nat, next: nat, delta: int, r: nat)
    requires MayMove(p, forbidden, base, t, row, next, delta) && 1 <= r <= row
    ensures var t' := Moved(t, delta); Fair(p, forbidden, base, t'.u, t'.v, r)
  {
    hide Weight, Moved;
    var t' := Moved(t, delta);
    MovedSized(p, t, delta);
    assert |t'.u| == |t.u| && |t'.v| == |t.v|;
    forall c | 1 <= c < |t.v| && CostAt(p, forbidden, r, c).Some? ensures Excess(p, forbidden, base, t', r, c) >= 0 {
      ExcessMoved(p, forbidden, base, t, delta, r, c);
      ExcessCovers(p, forbidden, base, t, row, next, delta, r, c);
    }
  }

  /** What the move takes from an edge's excess was there. */
  lemma ExcessCovers(p: Problem, forbidden: set<nat>, base: nat, t: Tree, row: nat, next: nat, delta: int,
                     r: nat, c: nat)
    requires MayMove(p, forbidden, base, t, row, next, delta) && 1 <= r <= row
    requires 1 <= c < |t.v| && CostAt(p, forbidden, r, c).Some?
    ensures Excess(p, forbidden, base, t, r, c)
      >= (if InTree(t, r) then delta else 0) - if c in t.order then delta else 0
  {
    hide Weight;
    if InTree(t, r) && c !in t.order {
      var x :| x in t.order && x < |t.mates| && t.mates[x] == r;
      assert Reached(p, forbidden, base, t, c) && Joins(p, forbidden, t, x, c);
    } else {
      if r == row {
        assert 0 in t.order && t.mates[0] == row;
        assert InTree(t, r);
      }
      assert r < row ==> Fair(p, forbidden, base, t.u, t.v, r);
    }
  }

  lemma MovedTight(p: Problem, forbidden: set<nat>, base: nat, t: Tree, delta: int, r: nat, c: nat)
    requires Sized(p, t) && Tight(p, forbidden, base, t.u, t.v, r, c) && (InTree(t, r) <==> c in t.order)
    ensures var t' := Moved(t, delta); Tight(p, forbidden, base, t'.u, t'.v, r, c)
  {
    hide Weight, InTree;
    ExcessMoved(p, forbidden, base, t, delta, r, c);
  }

  lemma MovedPriced(p: Problem, forbidden: set<nat>, base: nat, t: Tree, row: nat, next: nat, delta: int)
    requires MayMove(p, forbidden, base, t, row, next, delta)
    ensures Sized(p, Moved(t, delta)) && RowsPriced(p, forbidden, base, Moved(t, delta), row)
  {
    hide Weight, Covers, Fair, InTree;
    var t' := Moved(t, delta);
    MovedSized(p, t, delta);
    forall r | 1 <= r <= row ensures Fair(p, forbidden, base, t'.u, t'.v, r) {
      MovedFair(p, forbidden, base, t, row, next, delta, r);
    }
    forall c | 1 <= c < |t.v| && t.mates[c] != 0 ensures Tight(p, forbidden, base, t'.u, t'.v, t.mates[c], c) {
      TreeByColumn(p, forbidden, base, t, row, c);
      MovedTight(p, forbidden, base, t, delta, t.mates[c], c);
    }
  }

  /** A row is in the tree exactly when its column is. */
  lemma TreeByColumn(p: Problem, forbidden: set<nat>, base: nat, t: Tree, row: nat, c: nat)
    requires Sized(p, t) && RowsPriced(p, forbidden, base, t, row) && c < |t.mates| && t.mates[c] != 0
    ensures InTree(t, t.mates[c]) <==> c in t.order
  {
    hide Priced, Covers;
    if InTree(t, t.mates[c]) {
      var x :| x in t.order && x < |t.mates| && t.mates[x] == t.mates[c];
      OneColumn(p, forbidden, base, t, row, x, c);
    }
  }

  lemma MovedRooted(p: Problem, forbidden: set<nat>, base: nat, t: Tree, delta: int)
    requires Sized(p, t) && Rooted(p, forbidden, base, t) && Sized(p, Moved(t, delta))
    ensures Rooted(p, forbidden, base, Moved(t, delta))
  {
    hide Weight;
    var t' := Moved(t, delta);
    forall i | 1 <= i < |t.order| ensures Hangs(p, forbidden, base, t', t.order[..i], t.order[i]) {
      var c := t.order[i];
      assert Hangs(p, forbidden, base, t, t.order[..i], c);
      assert t.previous[c] in t.order && InTree(t, t.mates[t.previous[c]]);
      MovedTight(p, forbidden, base, t, delta, t.mates[t.previous[c]], c);
    }
  }

  lemma MovedReached(p: Problem, forbidden: set<nat>, base: nat, t: Tree, delta: int, c: nat)
    requires Sized(p, t) && 1 <= c <= Columns(p) && c !in t.order && Reached(p, forbidden, base, t, c)
    requires Sized(p, Moved(t, delta))
    ensures Reached(p, forbidden, base, Moved(t, delta), c)
  {
    hide Weight;
    var t' := Moved(t, delta);
    forall x | x in t.order ensures Joins(p, forbidden, t', x, c) <==> Joins(p, forbidden, t, x, c) {}
    forall x | x in t.order && Joins(p, forbidden, t, x, c)
      ensures Excess(p, forbidden, base, t', t.mates[x], c) == Excess(p, forbidden, base, t, t.mates[x], c) - delta
    {
      assert InTree(t, t.mates[x]);
      ExcessMoved(p, forbidden, base, t, delta, t.mates[x], c);
    }
  }

  /** After the move the nearest column stands at the door. */
  lemma MoveOn(p: Problem, forbidden: set<nat>, base: nat, t: Tree, row: nat, next: nat, delta: int)
    requires MayMove(p, forbidden, base, t, row, next, delta)
    ensures Growing(p, forbidden, base, Moved(t, delta), row)
    ensures AtDoor(p, forbidden, base, Moved(t, delta), row, next)
  {
    hide Weight, Reached, Hangs, Fair, RowsPriced, InTree, Rooted;
    var t' := Moved(t, delta);
    MovedPriced(p, forbidden, base, t, row, next, delta);
    MovedRooted(p, forbidden, base, t, delta);
    forall c | 1 <= c <= Columns(p) && c !in t.order ensures Reached(p, forbidden, base, t', c) {
      MovedReached(p, forbidden, base, t, delta, c);
    }
    NewRowIsRow(p, forbidden, base, t, row);
    MovedFair(p, forbidden, base, t, row, next, delta, row);
    NextHangs(p, forbidden, base, t, delta, next);
  }

  lemma NewRowIsRow(p: Problem, forbidden: set<nat>, base: nat, t: Tree, row: nat)
    requires Sized(p, t) && RowsPriced(p, forbidden, base, t, row)
    ensures 1 <= row <= |p.rows|
  {}

  lemma NextHangs(p: Problem, forbidden: set<nat>, base: nat, t: Tree, delta: int, next: nat)
    requires Sized(p, t) && Nearest(t, next, delta) && Reached(p, forbidden, base, t, next)
    requires Sized(p, Moved(t, delta))
    ensures Hangs(p, forbidden, base, Moved(t, delta), t.order, next)
  {
    hide Weight;
    var x := t.previous[next];
    assert InTree(t, t.mates[x]);
    ExcessMoved(p, forbidden, base, t, delta, t.mates[x], next);
  }

  // ---------- counting ----------

  /** Different numbers from 1 to k are at most k. */
  lemma {:induction false} DistinctFit(s: seq<nat>, k: nat)
    requires forall i | 0 <= i < |s| :: 1 <= s[i] <= k
    requires forall i, j | 0 <= i < j < |s| :: s[i] != s[j]
    ensures |s| <= k
    decreases k
  {
    if k > 0 {
      if i :| 0 <= i < |s| && s[i] == k {
        DistinctFit(s[..i] + s[i + 1..], k - 1);
      } else {
        DistinctFit(s, k - 1);
      }
    } else if s != [] {
      FirstFits(s, k);
    }
  }

  lemma FirstFits(s: seq<nat>, k: nat)
    requires s != [] && forall i | 0 <= i < |s| :: 1 <= s[i] <= k
    ensures 1 <= s[0] <= k
  {}

  /** Different columns that have rows are at most as many as the rows so far. */
  lemma ColumnsFit(p: Problem, forbidden: set<nat>, base: nat, t: Tree, row: nat, columns: seq<nat>)
    requires Sized(p, t) && RowsPriced(p, forbidden, base, t, row)
    requires forall i | 0 <= i < |columns| :: columns[i] < |t.mates| && t.mates[columns[i]] != 0
    requires forall i, j | 0 <= i < j < |columns| :: columns[i] != columns[j]
    ensures |columns| <= row
  {
    var rows: seq<nat> := seq(|columns|, i requires 0 <= i < |columns| => t.mates[columns[i]]);
    forall i, j | 0 <= i < j < |columns| ensures rows[i] != rows[j] {
      if rows[i] == rows[j] {
        OneColumn(p, forbidden, base, t, row, columns[i], columns[j]);
        assert false;
      }
    }
    DistinctFit(rows, row);
  }

  /** The tree has at most one column for each row. */
  lemma TreeIsSmall(p: Problem, forbidden: set<nat>, base: nat, t: Tree, row: nat, column: nat)
    requires Sized(p, t) && RowsPriced(p, forbidden, base, t, row) && Rooted(p, forbidden, base, t)
    requires column < |t.mates| && column !in t.order && t.mates[column] != 0
    ensures |t.order| < row
  {
    hide RowsPriced, Hangs;
    var path := t.order + [column];
    forall i | 0 <= i < |path| ensures path[i] < |t.mates| && t.mates[path[i]] != 0 {
      assert i < |t.order| ==> path[i] in t.order;
    }
    forall i, j | 0 <= i < j < |path| ensures path[i] != path[j] {
      assert path[i] in t.order;
    }
    ColumnsFit(p, forbidden, base, t, row, path);
  }

  /** More dummies than rows that may use them: one is free. */
  lemma FreeDummy(p: Problem, forbidden: set<nat>, base: nat, t: Tree, row: nat) returns (c: nat)
    requires Sized(p, t) && RowsPriced(p, forbidden, base, t, row)
    ensures p.realColumns < c <= Columns(p) && t.mates[c] == 0
  {
    if d: nat :| p.realColumns < d <= Columns(p) && t.mates[d] == 0 {
      c := d;
    } else {
      DistinctFit(t.mates[p.realColumns + 1..], row - 1);
      assert false;
    }
  }

  /** So the search never gets stuck. */
  lemma SomeColumnReached(p: Problem, forbidden: set<nat>, base: nat, t: Tree, row: nat) returns (c: nat)
    requires Growing(p, forbidden, base, t, row) && t.order != []
    ensures 1 <= c <= Columns(p) && c !in t.order && t.distance[c].Some?
  {
    c := FreeDummy(p, forbidden, base, t, row);
    assert Reached(p, forbidden, base, t, c);
    assert 0 in t.order && Joins(p, forbidden, t, 0, c);
  }

  // ---------- moving the rows along the path ----------

  ghost predicate HasOther(mates: seq<nat>, hole: nat, r: nat) {
    exists c :: 0 <= c < |mates| && c != hole && mates[c] == r
  }

  /** Leaving the hole aside, every row up to k has exactly one column. */
  ghost predicate CoversBut(mates: seq<nat>, hole: nat, k: nat) {
    && (forall c | 0 <= c < |mates| && c != hole :: mates[c] <= k)
    && (forall c, d | 0 <= c < d < |mates| && c != hole && d != hole && mates[c] != 0 :: mates[c] != mates[d])
    && (forall r | 1 <= r <= k :: HasOther(mates, hole, r))
  }

  ghost function Path(t: Tree, column: nat): seq<nat> { t.order + [column] }

  ghost predicate Untouched(t: Tree, mates: seq<nat>, c: nat) {
    c < |mates| && c < |t.mates| && mates[c] == t.mates[c]
  }

  ghost predicate TightBut(p: Problem, forbidden: set<nat>, base: nat, t: Tree, mates: seq<nat>, hole: nat)
    requires Sized(p, t) && |mates| == |t.mates|
  {
    forall c | 1 <= c < |mates| && c != hole ::
      if mates[c] == 0 then t.v[c] == 0 else Tight(p, forbidden, base, t.u, t.v, mates[c], c)
  }

  /** Columns beyond the hole on the path have taken over their predecessors' rows. */
  ghost predicate Shifting(p: Problem, forbidden: set<nat>, base: nat, t: Tree, row: nat, column: nat,
                           mates: seq<nat>, i: nat)
    requires Sized(p, t)
  {
    && column <= Columns(p) && i <= |t.order| && |mates| == |t.mates|
    && var hole := Path(t, column)[i];
    && (forall j | 0 <= j < i :: Untouched(t, mates, Path(t, column)[j]))
    && CoversBut(mates, hole, row) && TightBut(p, forbidden, base, t, mates, hole)
  }

  lemma ShiftStarts(p: Problem, forbidden: set<nat>, base: nat, t: Tree, row: nat, column: nat)
    requires Growing(p, forbidden, base, t, row) && AtDoor(p, forbidden, base, t, row, column)
    requires t.mates[column] == 0
    ensures Shifting(p, forbidden, base, t, row, column, t.mates, |t.order|)
  {
    hide Tight, Fair, Reached, Hangs, HasOther, HasColumn;
    forall r | 1 <= r <= row ensures HasOther(t.mates, column, r) {
      StartsWithOther(t, column, row, r);
    }
    forall j | 0 <= j < |t.order| ensures Untouched(t, t.mates, Path(t, column)[j]) {
      assert t.order[j] in t.order;
    }
  }

  lemma StartsWithOther(t: Tree, column: nat, row: nat, r: nat)
    requires 1 <= r <= row && t.mates != [] && t.mates[0] == row && Covers(t.mates, row - 1)
    requires column < |t.mates| && t.mates[column] == 0
    ensures HasOther(t.mates, column, r)
  {
    if r == row {
      assert t.mates[0] == r;
    } else {
      assert HasColumn(t.mates, r);
    }
  }

  /** Where the hole's predecessor stands on the path. */
  lemma Predecessor(p: Problem, forbidden: set<nat>, base: nat, t: Tree, row: nat, column: nat, i: nat) returns (j: nat)
    requires Growing(p, forbidden, base, t, row) && AtDoor(p, forbidden, base, t, row, column)
    requires 1 <= i <= |t.order|
    ensures var path := Path(t, column);
      j < i && path[i] < |t.previous| && t.previous[path[i]] == path[j] < |t.mates|
      && Tight(p, forbidden, base, t.u, t.v, t.mates[path[j]], path[i])
  {
    var path := Path(t, column);
    assert path[..i] == t.order[..i];
    assert Hangs(p, forbidden, base, t, t.order[..i], path[i]) by {
      if i == |t.order| {
        assert t.order[..i] == t.order;
      }
    }
    j :| 0 <= j < i && t.order[..i][j] == t.previous[path[i]];
  }

  lemma ShiftOne(p: Problem, forbidden: set<nat>, base: nat, t: Tree, row: nat, column: nat, mates: seq<nat>,
                 i: nat, j: nat)
    requires Growing(p, forbidden, base, t, row) && AtDoor(p, forbidden, base, t, row, column)
    requires Shifting(p, forbidden, base, t, row, column, mates, i) && j < i
    requires var path := Path(t, column);
      path[j] < |t.mates| && Tight(p, forbidden, base, t.u, t.v, t.mates[path[j]], path[i])
    ensures var path := Path(t, column);
      path[i] < |mates| && path[j] < |mates|
      && Shifting(p, forbidden, base, t, row, column, mates[path[i] := mates[path[j]]], j)
  {
    hide Tight, CoversBut, TightBut, AtDoor, RowsPriced, Rooted, AllReached;
    var path := Path(t, column);
    PathDistinct(p, forbidden, base, t, row, column);
    assert path[i] != path[j] && path[i] < |mates| && Untouched(t, mates, path[j]);
    CoversMoves(mates, path[i], path[j], row);
    TightMoves(p, forbidden, base, t, mates, path[i], path[j]);
  }

  lemma TightMoves(p: Problem, forbidden: set<nat>, base: nat, t: Tree, mates: seq<nat>, hole: nat, from: nat)
    requires Sized(p, t) && |mates| == |t.mates| && hole < |mates| && from < |mates|
    requires TightBut(p, forbidden, base, t, mates, hole)
    requires Tight(p, forbidden, base, t.u, t.v, mates[from], hole)
    ensures TightBut(p, forbidden, base, t, mates[hole := mates[from]], from)
  {}

  lemma PathDistinct(p: Problem, forbidden: set<nat>, base: nat, t: Tree, row: nat, column: nat)
    requires Growing(p, forbidden, base, t, row) && AtDoor(p, forbidden, base, t, row, column)
    ensures var path := Path(t, column);
      (forall i, j | 0 <= i < j < |path| :: path[i] != path[j]) && forall i | 0 <= i < |path| :: path[i] < |t.mates|
  {
    var path := Path(t, column);
    forall i, j | 0 <= i < j < |path| ensures path[i] != path[j] {
      assert path[i] in t.order;
    }
    forall i | 0 <= i < |path| ensures path[i] < |t.mates| {
      assert i < |t.order| ==> path[i] in t.order;
    }
  }

  lemma CoversMoves(mates: seq<nat>, hole: nat, from: nat, k: nat)
    requires CoversBut(mates, hole, k) && hole < |mates| && from < |mates| && hole != from
    ensures CoversBut(mates[hole := mates[from]], from, k)
  {
    var moved := mates[hole := mates[from]];
    forall r | 1 <= r <= k ensures HasOther(moved, from, r) {
      assert HasOther(mates, hole, r);
      var c :| 0 <= c < |mates| && c != hole && mates[c] == r;
      assert moved[if c == from then hole else c] == r;
    }
  }

  /** Back at column 0 the new row is priced as well. */
  lemma ShiftEnds(p: Problem, forbidden: set<nat>, base: nat, t: Tree, row: nat, column: nat, mates: seq<nat>)
    requires Growing(p, forbidden, base, t, row) && AtDoor(p, forbidden, base, t, row, column) && t.order != []
    requires Shifting(p, forbidden, base, t, row, column, mates, 0)
    ensures Priced(p, forbidden, base, t.u, t.v, mates, row)
  {
    hide Tight, Fair, Covers, CoversBut, AllReached, Untouched;
    assert Path(t, column)[0] == 0;
    CoversAtEnd(mates, row);
    assert Priced(p, forbidden, base, t.u, t.v, t.mates, row - 1);
  }

  lemma CoversAtEnd(mates: seq<nat>, k: nat)
    requires CoversBut(mates, 0, k)
    ensures Covers(mates, k)
  {
    forall r | 1 <= r <= k ensures HasColumn(mates, r) {
      assert HasOther(mates, 0, r);
    }
  }
}
