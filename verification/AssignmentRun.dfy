/** The Hungarian method on checked scores, within a work budget, and the edges in every optimum. */
module AssignmentRun {
  import opened Basics
  import opened Scores
  import opened AssignmentBounds
  import opened AssignmentProblem
  import opened AssignmentSearch
  import opened Sorting

  /** Why a solve gives up. The last one never happens. */
  datatype Stop = OutOfWork | Overflow | Stuck

  /** The vectors of a solve. */
  datatype Vectors = Vectors(rowPotential: seq<Score>, columnPotential: seq<Score>, matchedRow: seq<nat>,
                             distance: seq<Option<Score>>, previous: seq<nat>, visited: seq<bool>)

  // ---------- the vectors as whole numbers ----------

  ghost predicate Stands(s: Score, value: int, base: nat) { Storable(s) && Value(s, base) == value }

  ghost predicate AllStand(s: seq<Score>, values: seq<int>, base: nat) {
    |s| == |values| && forall i | 0 <= i < |s| :: Stands(s[i], values[i], base)
  }

  ghost predicate StandsIfAny(s: Option<Score>, value: Option<int>, base: nat) {
    (s.None? <==> value.None?) && (s.Some? ==> Stands(s.value, value.value, base))
  }

  ghost predicate Visits(visited: seq<bool>, t: Tree) {
    |visited| == |t.mates| && forall c | 0 <= c < |visited| :: visited[c] <==> c in t.order
  }

  ghost predicate PotentialsShow(x: Vectors, t: Tree, base: nat) {
    && AllStand(x.rowPotential, t.u, base) && AllStand(x.columnPotential, t.v, base) && x.matchedRow == t.mates
  }

  ghost predicate DistanceShows(x: Vectors, t: Tree, base: nat, c: nat) {
    && c < |x.distance| && c < |t.distance| && c < |x.previous| && c < |t.previous|
    && StandsIfAny(x.distance[c], t.distance[c], base) && x.previous[c] == t.previous[c]
  }

  ghost predicate Shows(x: Vectors, t: Tree, base: nat) {
    && PotentialsShow(x, t, base) && Visits(x.visited, t)
    && |x.distance| == |t.distance| && |x.previous| == |t.previous| == |t.distance|
    && forall c | 0 <= c < |t.distance| :: DistanceShows(x, t, base, c)
  }

  lemma SubStands(a: Score, b: Score, base: nat)
    requires Sub(a, b).Some?
    ensures Stands(Sub(a, b).value, Value(a, base) - Value(b, base), base)
  {
    MinusValue(a, b, base);
  }

  lemma AddStands(a: Score, b: Score, base: nat)
    requires Add(a, b).Some?
    ensures Stands(Add(a, b).value, Value(a, base) + Value(b, base), base)
  {
    PlusValue(a, b, base);
  }

  /** Stored scores compare as their numbers. */
  lemma StoredOrder(p: Problem, a: Score, b: Score)
    requires Storable(a) && Storable(b)
    ensures Less(a, b) <==> Value(a, Base(p)) < Value(b, Base(p))
    ensures a == b <==> Value(a, Base(p)) == Value(b, Base(p))
  {
    BaseIsLarge(p);
    LessByValue(a, b, I128_BOUND, Base(p));
  }

  // ---------- what cannot overflow ----------

  // Each operation takes a ghost bound. When there is one, and the costs within it leave room,
  // the operation promises that none of its sums and differences overflows.

  lemma SubWithin(a: Score, b: Score, x: nat, y: nat)
    requires Within(a, x) && Within(b, y) && x + y < I128_BOUND
    ensures Sub(a, b).Some? && Within(Sub(a, b).value, x + y)
    ensures Add(a, b).Some? && Within(Add(a, b).value, x + y)
  {}

  lemma StoredWithin(p: Problem, s: Score, value: int, bound: nat)
    requires Stands(s, value, Base(p)) && Fits(value, bound, Base(p)) && bound <= I128_BOUND
    ensures Within(s, bound)
  {
    hide Value, Base;
    FitsStored(p, s, value, bound);
  }

  /** The new row's prices and those of column c are within the margin. */
  ghost predicate LookFits(p: Problem, b: nat, t: Tree, column: nat, c: nat) {
    && Roomy(p, b) && Sized(p, t) && column < |t.mates| && c < |t.v|
    && Fits(t.u[t.mates[column]], Margin(p, b), Base(p)) && Fits(t.v[c], Margin(p, b), Base(p))
  }

  lemma LookIsSafe(p: Problem, forbidden: set<nat>, b: nat, x: Vectors, t: Tree, column: nat, c: nat)
    requires PotentialsShow(x, t, Base(p)) && LookFits(p, b, t, column, c) && t.mates[column] != 0 && 1 <= c
    requires CostAt(p, forbidden, t.mates[column], c).Some?
    ensures t.mates[column] < |x.rowPotential| && c < |x.columnPotential|
    ensures var first := Sub(CostAt(p, forbidden, t.mates[column], c).value, x.rowPotential[t.mates[column]]);
      first.Some? && Sub(first.value, x.columnPotential[c]).Some?
  {
    hide Value, Base, Fits, Margin, Sub, Storable;
    var row, margin := t.mates[column], Margin(p, b);
    var cost := CostAt(p, forbidden, row, c).value;
    RoomyMargin(p, b);
    WeightFits(p, forbidden, b, row, c);
    PotentialsAt(x, t, Base(p), row, c);
    StoredWithin(p, x.rowPotential[row], t.u[row], margin);
    StoredWithin(p, x.columnPotential[c], t.v[c], margin);
    SubWithin(cost, x.rowPotential[row], b, margin);
    SubWithin(Sub(cost, x.rowPotential[row]).value, x.columnPotential[c], b + margin, margin);
  }

  /** Everything a move touches is within its bound, and so is what it moves by. */
  ghost predicate MoveFits(p: Problem, b: nat, t: Tree, delta: int) {
    && Roomy(p, b) && Sized(p, t) && 0 in t.order
    && AllFit(p, t, Margin(p, b)) && Fits(delta, 4 * Margin(p, b), Base(p))
  }

  lemma TreeMoveIsSafe(p: Problem, b: nat, x: Vectors, t: Tree, r: nat, c: nat, delta: Score, value: int)
    requires MoveFits(p, b, t, value) && Stands(delta, value, Base(p)) && c in t.order && r == t.mates[c]
    requires r < |x.rowPotential| && c < |x.columnPotential|
    requires Stands(x.rowPotential[r], t.u[r], Base(p)) && Stands(x.columnPotential[c], t.v[c], Base(p))
    ensures Add(x.rowPotential[r], delta).Some? && Sub(x.columnPotential[c], delta).Some?
  {
    hide Value, Base, Fits, Margin, Stands, Add, Sub;
    var margin := Margin(p, b);
    RoomyMargin(p, b);
    if c > 0 {
      FitsMore(t.v[c], 2 * margin, 3 * margin, Base(p));
    }
    StoredWithin(p, delta, value, 4 * margin);
    StoredWithin(p, x.rowPotential[r], t.u[r], 2 * margin);
    StoredWithin(p, x.columnPotential[c], t.v[c], 3 * margin);
    SubWithin(x.rowPotential[r], delta, 2 * margin, 4 * margin);
    SubWithin(x.columnPotential[c], delta, 3 * margin, 4 * margin);
  }

  lemma OtherMoveIsSafe(p: Problem, b: nat, t: Tree, c: nat, distance: Score, delta: Score, value: int)
    requires MoveFits(p, b, t, value) && Stands(delta, value, Base(p)) && c <= Columns(p) && c !in t.order
    requires t.distance[c].Some? && Stands(distance, t.distance[c].value, Base(p))
    ensures Sub(distance, delta).Some?
  {
    hide Value, Base, Fits, Margin, Stands, Sub;
    var margin := Margin(p, b);
    RoomyMargin(p, b);
    StoredWithin(p, delta, value, 4 * margin);
    StoredWithin(p, distance, t.distance[c].value, 4 * margin);
    SubWithin(distance, delta, 4 * margin, 4 * margin);
  }

  // ---------- one look from the column just entered ----------

  method LookAt(p: Problem, forbidden: set<nat>, x: Vectors, column: nat, c: nat, ghost t: Tree, ghost b: Option<nat>)
    returns (ok: bool, distance: Option<Score>, previous: nat)
    requires Valid(p) && Sized(p, t) && PotentialsShow(x, t, Base(p)) && DistanceShows(x, t, Base(p), c)
    requires column < |t.mates| && t.mates[column] != 0 && 1 <= c <= Columns(p)
    requires b.Some? ==> LookFits(p, b.value, t, column, c)
    ensures b.Some? ==> ok
    ensures ok ==>
      if Nearer(p, forbidden, Base(p), t, column, c)
      then previous == column
           && StandsIfAny(distance, Some(Excess(p, forbidden, Base(p), t, t.mates[column], c)), Base(p))
      else distance == x.distance[c] && previous == x.previous[c]
  {
    hide Value, Less, Storable, Base, Sub, LookFits;
    ok, distance, previous := true, x.distance[c], x.previous[c];
    var row := x.matchedRow[column];
    var cost := CostAt(p, forbidden, row, c);
    if cost.None? {
      return;
    }
    ghost var base := Base(p);
    if b.Some? {
      LookIsSafe(p, forbidden, b.value, x, t, column, c);
    }
    assert Stands(x.rowPotential[row], t.u[row], base) && Stands(x.columnPotential[c], t.v[c], base);
    var first := Sub(cost.value, x.rowPotential[row]);
    if first.None? {
      return false, distance, previous;
    }
    SubStands(cost.value, x.rowPotential[row], base);
    var reduced := Sub(first.value, x.columnPotential[c]);
    if reduced.None? {
      return false, distance, previous;
    }
    SubStands(first.value, x.columnPotential[c], base);
    if distance.Some? {
      StoredOrder(p, reduced.value, distance.value);
    }
    if distance.None? || Less(reduced.value, distance.value) {
      distance, previous := reduced, column;
    }
  }

  // ---------- the nearest column ----------

  /** The best of the columns before k outside the tree. */
  ghost predicate BestBelow(t: Tree, next: Option<(Score, nat)>, k: nat, base: nat) {
    match next
    case None => forall c | 1 <= c < k && c < |t.distance| && c !in t.order :: t.distance[c].None?
    case Some((best, j)) =>
      && 1 <= j < k && j < |t.distance| && j !in t.order && StandsIfAny(Some(best), t.distance[j], base)
      && forall c | 1 <= c < k && c < |t.distance| && c !in t.order && t.distance[c].Some? ::
           t.distance[j].value <= t.distance[c].value
  }

  /** The choice the code makes: a smaller distance, or an equal one at a free column. */
  predicate Preferred(x: Vectors, distance: Score, candidate: nat, next: Option<(Score, nat)>)
    requires candidate < |x.matchedRow| && (next.Some? ==> next.value.1 < |x.matchedRow|)
  {
    || next.None? || Less(distance, next.value.0)
    || (distance == next.value.0 && x.matchedRow[candidate] == 0 && x.matchedRow[next.value.1] != 0)
  }

  lemma BestStep(p: Problem, x: Vectors, t: Tree, next: Option<(Score, nat)>, k: nat)
    requires BestBelow(t, next, k, Base(p)) && 1 <= k < |t.distance| && |t.distance| == |x.matchedRow| == |x.distance|
    requires StandsIfAny(x.distance[k], t.distance[k], Base(p))
    ensures BestBelow(t, if k in t.order || x.distance[k].None? || !Preferred(x, x.distance[k].value, k, next)
                         then next else Some((x.distance[k].value, k)), k + 1, Base(p))
  {
    hide Value, Less, Storable, Base;
    if next.Some? && x.distance[k].Some? {
      StoredOrder(p, x.distance[k].value, next.value.0);
    }
  }

  lemma BestIsNearest(t: Tree, next: Option<(Score, nat)>, base: nat, c: nat)
    requires BestBelow(t, next, |t.distance|, base)
    requires 1 <= c < |t.distance| && c !in t.order && t.distance[c].Some?
    ensures next.Some? && Nearest(t, next.value.1, Value(next.value.0, base)) && Storable(next.value.0)
  {
    hide Value;
  }

  // ---------- entering a column ----------

  /** The columns before k as in the tree with one more column, those from k on as before. */
  ghost function Mixed(t: Tree, t': Tree, k: nat): Tree
    requires k <= |t.distance| == |t'.distance| == |t.previous| == |t'.previous|
  {
    t'.(distance := t'.distance[..k] + t.distance[k..], previous := t'.previous[..k] + t.previous[k..])
  }

  lemma Retouch(x: Vectors, t: Tree, c: nat, distance: Option<Score>, value: Option<int>, previous: nat, base: nat)
    requires Shows(x, t, base) && c < |t.distance| && StandsIfAny(distance, value, base)
    ensures Shows(x.(distance := x.distance[c := distance], previous := x.previous[c := previous]),
                  t.(distance := t.distance[c := value], previous := t.previous[c := previous]), base)
  {
    hide StandsIfAny, PotentialsShow;
    var x' := x.(distance := x.distance[c := distance], previous := x.previous[c := previous]);
    var t' := t.(distance := t.distance[c := value], previous := t.previous[c := previous]);
    forall d | 0 <= d < |t'.distance| ensures DistanceShows(x', t', base, d) {
      assert DistanceShows(x, t, base, d);
    }
    assert PotentialsShow(x', t', base) by {
      SamePotentials(x, x', t, t', base);
    }
  }

  lemma SamePotentials(x: Vectors, x': Vectors, t: Tree, t': Tree, base: nat)
    requires PotentialsShow(x, t, base) && t'.u == t.u && t'.v == t.v && t'.mates == t.mates
    requires x'.rowPotential == x.rowPotential && x'.columnPotential == x.columnPotential
    requires x'.matchedRow == x.matchedRow
    ensures PotentialsShow(x', t', base)
  {}

  lemma MixedStarts(p: Problem, forbidden: set<nat>, x: Vectors, t: Tree, column: nat)
    requires Sized(p, t) && column < |t.mates| && t.mates[column] != 0 && Shows(x, t, Base(p))
    ensures var t' := Entered(p, forbidden, Base(p), t, column);
      column < |x.visited| && Shows(x.(visited := x.visited[column := true]), Mixed(t, t', 1), Base(p))
  {
    hide Base, Nearer, Excess, Shows;
    var t' := Entered(p, forbidden, Base(p), t, column);
    assert Mixed(t, t', 1) == t.(order := t.order + [column]);
    VisitOne(x, t, column, Base(p));
  }

  lemma VisitOne(x: Vectors, t: Tree, column: nat, base: nat)
    requires Shows(x, t, base) && column < |t.mates|
    ensures column < |x.visited|
    ensures Shows(x.(visited := x.visited[column := true]), t.(order := t.order + [column]), base)
  {
    hide AllStand, StandsIfAny;
    var x', t' := x.(visited := x.visited[column := true]), t.(order := t.order + [column]);
    forall c | 0 <= c < |t'.distance| ensures DistanceShows(x', t', base, c) {
      assert DistanceShows(x, t, base, c);
    }
  }

  lemma MixedStep(t: Tree, t': Tree, k: nat)
    requires k < |t.distance| == |t'.distance| == |t.previous| == |t'.previous|
    ensures var m := Mixed(t, t', k);
      Mixed(t, t', k + 1)
        == m.(distance := m.distance[k := t'.distance[k]], previous := m.previous[k := t'.previous[k]])
    ensures Mixed(t, t', k).distance[k] == t.distance[k] && Mixed(t, t', k).previous[k] == t.previous[k]
  {}

  lemma MixedEnds(t: Tree, t': Tree)
    requires |t.distance| == |t'.distance| == |t.previous| == |t'.previous|
    ensures Mixed(t, t', |t.distance|) == t'
  {}

  lemma EnteredSizes(p: Problem, forbidden: set<nat>, t: Tree, column: nat)
    requires Sized(p, t) && column < |t.mates| && t.mates[column] != 0
    ensures var t' := Entered(p, forbidden, Base(p), t, column); |t'.distance| == |t'.previous| == |t.distance|
  {
    hide Nearer, Base;
  }

  /** What the column just entered means for column c. */
  lemma EnteredAt(p: Problem, forbidden: set<nat>, t: Tree, column: nat, c: nat)
    requires Sized(p, t) && column < |t.mates| && t.mates[column] != 0 && 1 <= c <= Columns(p)
    ensures var t' := Entered(p, forbidden, Base(p), t, column);
      && t'.u == t.u && t'.v == t.v && t'.mates == t.mates && t'.order == t.order + [column]
      && |t'.distance| == |t'.previous| == |t.distance|
      && if c !in t'.order && Nearer(p, forbidden, Base(p), t, column, c)
         then t'.distance[c] == Some(Excess(p, forbidden, Base(p), t, t.mates[column], c)) && t'.previous[c] == column
         else t'.distance[c] == t.distance[c] && t'.previous[c] == t.previous[c]
  {
    hide Nearer, Base;
  }

  lemma DoorSized(p: Problem, forbidden: set<nat>, t: Tree, row: nat, column: nat)
    requires Growing(p, forbidden, Base(p), t, row) && 1 <= row <= |p.rows|
    requires AtDoor(p, forbidden, Base(p), t, row, column)
    ensures Sized(p, t) && column < |t.mates| == Columns(p) + 1
  {}

  lemma NothingBest(t: Tree, base: nat)
    ensures BestBelow(t, None, 1, base)
  {}

  lemma ShowsAt(x: Vectors, t: Tree, base: nat, c: nat)
    requires Shows(x, t, base) && c < |t.distance| == |t.mates|
    ensures DistanceShows(x, t, base, c) && PotentialsShow(x, t, base) && c < |x.visited|
    ensures |x.distance| == |x.previous| == |x.matchedRow| == |t.distance|
    ensures x.visited[c] <==> c in t.order
  {}

  lemma BestInside(t: Tree, next: Option<(Score, nat)>, k: nat, base: nat)
    requires BestBelow(t, next, k, base)
    ensures next.Some? ==> 1 <= next.value.1 < k && next.value.1 < |t.distance|
  {}

  /** One column looked at and, if it is the nearest yet, remembered. */
  method RelaxOne(p: Problem, forbidden: set<nat>, x0: Vectors, column: nat, c: nat, next0: Option<(Score, nat)>,
                  ghost t: Tree, ghost t': Tree, ghost b: Option<nat>)
    returns (ok: bool, x: Vectors, next: Option<(Score, nat)>)
    requires Valid(p) && Sized(p, t) && column < |t.mates| && t.mates[column] != 0 && 1 <= c <= Columns(p)
    requires t' == Entered(p, forbidden, Base(p), t, column) && |t'.distance| == |t'.previous| == |t.distance|
    requires Shows(x0, Mixed(t, t', c), Base(p)) && BestBelow(t', next0, c, Base(p))
    requires b.Some? && c !in t'.order ==> LookFits(p, b.value, t, column, c)
    ensures b.Some? ==> ok
    ensures ok ==> Shows(x, Mixed(t, t', c + 1), Base(p)) && BestBelow(t', next, c + 1, Base(p))
  {
    hide Base, Value, Less, Shows, Entered, BestBelow, Nearer, Excess, StandsIfAny, Stands, PotentialsShow, LookFits;
    ok, x, next := true, x0, next0;
    ghost var m := Mixed(t, t', c);
    EnteredAt(p, forbidden, t, column, c);
    MixedStep(t, t', c);
    ShowsAt(x0, m, Base(p), c);
    if x0.visited[c] {
      assert m.distance[c := t'.distance[c]] == m.distance && m.previous[c := t'.previous[c]] == m.previous;
    } else {
      SamePotentials(x0, x0, m, t, Base(p));
      var distance, previous;
      ok, distance, previous := LookAt(p, forbidden, x0, column, c, t, b);
      if !ok {
        return;
      }
      Retouch(x0, m, c, distance, t'.distance[c], previous, Base(p));
      x := x0.(distance := x0.distance[c := distance], previous := x0.previous[c := previous]);
    }
    ShowsAt(x, Mixed(t, t', c + 1), Base(p), c);
    BestInside(t', next0, c, Base(p));
    BestStep(p, x, t', next0, c);
    if !x.visited[c] && x.distance[c].Some? && Preferred(x, x.distance[c].value, c, next0) {
      next := Some((x.distance[c].value, c));
    }
  }

  /** The column at the door is outside the tree, and so is its row, unless it is the new one. */
  lemma DoorLooks(p: Problem, forbidden: set<nat>, b: nat, t: Tree, row: nat, column: nat, c: nat)
    requires Growing(p, forbidden, Base(p), t, row) && Steady(p, b, t, row) && 1 <= c <= Columns(p)
    requires AtDoor(p, forbidden, Base(p), t, row, column) && t.mates[column] != 0 && c !in t.order
    ensures LookFits(p, b, t, column, c)
  {
    hide Base, Fits, Margin, Roomy, Rooted, AllReached, RowsPriced, Hangs, Fair, InTree, Balance, Steps;
    RowIs(p, forbidden, t, row);
    if column == 0 {
      FitsZero(Margin(p, b), Base(p));
    } else {
      TreeByColumn(p, forbidden, Base(p), t, row, column);
      if t.mates[column] == row {
        OneColumn(p, forbidden, Base(p), t, row, 0, column);
        assert false;
      }
    }
  }

  /** All columns outside the tree are looked at from the column at the door, and the nearest is found. */
  method Relax(p: Problem, forbidden: set<nat>, x0: Vectors, column: nat, work0: nat, ghost t: Tree, ghost row: nat,
               ghost b: Option<nat>)
    returns (stop: Option<Stop>, x: Vectors, next: Option<(Score, nat)>, work: nat)
    requires Valid(p) && Growing(p, forbidden, Base(p), t, row) && 1 <= row <= |p.rows|
    requires AtDoor(p, forbidden, Base(p), t, row, column) && t.mates[column] != 0 && Shows(x0, t, Base(p))
    requires b.Some? ==> Steady(p, b.value, t, row)
    ensures work <= work0 <= work + Columns(p) && (stop.None? ==> work0 == work + Columns(p))
    ensures stop == Some(OutOfWork) ==> work0 < Columns(p)
    ensures stop != Some(Stuck) && (b.Some? ==> stop != Some(Overflow))
    ensures stop.None? ==>
      var t' := Entered(p, forbidden, Base(p), t, column);
      && Shows(x, t', Base(p)) && BestBelow(t', next, |t.distance|, Base(p))
  {
    hide Growing, AtDoor, Base, Value, Less, Shows, Entered, BestBelow, Steady, LookFits;
    work, next, stop := work0, None, None;
    DoorSized(p, forbidden, t, row, column);
    ghost var t' := Entered(p, forbidden, Base(p), t, column);
    EnteredSizes(p, forbidden, t, column);
    MixedStarts(p, forbidden, x0, t, column);
    x := x0.(visited := x0.visited[column := true]);
    NothingBest(t', Base(p));
    for candidate := 1 to Columns(p) + 1
      invariant work0 == work + candidate - 1
      invariant Shows(x, Mixed(t, t', candidate), Base(p)) && BestBelow(t', next, candidate, Base(p))
    {
      if work < 1 {
        return Some(OutOfWork), x, next, work;
      }
      work := work - 1;
      if b.Some? && candidate !in t'.order {
        EnteredAt(p, forbidden, t, column, candidate);
        DoorLooks(p, forbidden, b.value, t, row, column, candidate);
      }
      var ok;
      ok, x, next := RelaxOne(p, forbidden, x, column, candidate, next, t, t', b);
      if !ok {
        return Some(Overflow), x, next, work;
      }
    }
    MixedEnds(t, t');
  }

  // ---------- moving the prices ----------

  ghost predicate InTreeBelow(t: Tree, r: nat, k: nat) {
    exists x :: x in t.order && x < k && x < |t.mates| && t.mates[x] == r
  }

  /** The move as far as columns before k and their rows are concerned. */
  ghost function MovedBelow(t: Tree, delta: int, k: nat): Tree {
    t.(u := seq(|t.u|, r requires 0 <= r < |t.u| => if InTreeBelow(t, r, k) then t.u[r] + delta else t.u[r]),
       v := seq(|t.v|, c requires 0 <= c < |t.v| => if c < k && c in t.order then t.v[c] - delta else t.v[c]),
       distance := seq(|t.distance|, c requires 0 <= c < |t.distance| =>
         if c >= k || c in t.order || t.distance[c].None? then t.distance[c] else Some(t.distance[c].value - delta)))
  }

  lemma MoveBegins(t: Tree, delta: int)
    ensures MovedBelow(t, delta, 0) == t
  {
    var m := MovedBelow(t, delta, 0);
    assert m.u == t.u && m.v == t.v && m.distance == t.distance;
  }

  lemma MoveIsDone(p: Problem, t: Tree, delta: int)
    requires Sized(p, t)
    ensures MovedBelow(t, delta, |t.mates|) == Moved(t, delta)
  {
    var m, all := MovedBelow(t, delta, |t.mates|), Moved(t, delta);
    forall r ensures InTreeBelow(t, r, |t.mates|) <==> InTree(t, r) {}
    assert m.u == all.u && m.v == all.v && m.distance == all.distance;
  }

  lemma RowNotYet(p: Problem, forbidden: set<nat>, t: Tree, row: nat, k: nat)
    requires Sized(p, t) && RowsPriced(p, forbidden, Base(p), t, row) && k in t.order
    ensures k < |t.mates| && t.mates[k] < |t.u| && !InTreeBelow(t, t.mates[k], k)
    ensures forall r :: InTreeBelow(t, r, k + 1) <==> InTreeBelow(t, r, k) || r == t.mates[k]
  {
    hide RowsPriced;
    if InTreeBelow(t, t.mates[k], k) {
      var x :| x in t.order && x < k && x < |t.mates| && t.mates[x] == t.mates[k];
      OneColumn(p, forbidden, Base(p), t, row, x, k);
    }
  }

  lemma MoveTreeColumn(p: Problem, forbidden: set<nat>, t: Tree, row: nat, delta: int, k: nat)
    requires Sized(p, t) && RowsPriced(p, forbidden, Base(p), t, row) && k in t.order
    ensures var r := t.mates[k];
      var m := MovedBelow(t, delta, k);
      && r < |m.u| && k < |m.v| && m.u[r] == t.u[r] && m.v[k] == t.v[k]
      && MovedBelow(t, delta, k + 1) == m.(u := m.u[r := t.u[r] + delta], v := m.v[k := t.v[k] - delta])
  {
    hide RowsPriced, InTreeBelow;
    RowNotYet(p, forbidden, t, row, k);
    var r, m, n := t.mates[k], MovedBelow(t, delta, k), MovedBelow(t, delta, k + 1);
    assert n.u == m.u[r := t.u[r] + delta];
    assert n.v == m.v[k := t.v[k] - delta];
    assert n.distance == m.distance;
  }

  lemma MoveOtherColumn(t: Tree, delta: int, k: nat)
    requires k !in t.order && k < |t.distance|
    ensures var m := MovedBelow(t, delta, k);
      && m.distance[k] == t.distance[k]
      && MovedBelow(t, delta, k + 1)
           == m.(distance := m.distance[k := if t.distance[k].None? then None else Some(t.distance[k].value - delta)])
  {
    var m, n := MovedBelow(t, delta, k), MovedBelow(t, delta, k + 1);
    forall r ensures InTreeBelow(t, r, k + 1) <==> InTreeBelow(t, r, k) {}
    assert n.u == m.u && n.v == m.v;
    assert n.distance == m.distance[k := if t.distance[k].None? then None else Some(t.distance[k].value - delta)];
  }

  lemma Reprice(x: Vectors, t: Tree, r: nat, price: Score, u: int, c: nat, other: Score, v: int, base: nat)
    requires Shows(x, t, base) && r < |t.u| && c < |t.v| && Stands(price, u, base) && Stands(other, v, base)
    ensures Shows(x.(rowPotential := x.rowPotential[r := price], columnPotential := x.columnPotential[c := other]),
                  t.(u := t.u[r := u], v := t.v[c := v]), base)
  {
    hide Stands, StandsIfAny;
    var x' := x.(rowPotential := x.rowPotential[r := price], columnPotential := x.columnPotential[c := other]);
    var t' := t.(u := t.u[r := u], v := t.v[c := v]);
    forall d | 0 <= d < |t'.distance| ensures DistanceShows(x', t', base, d) {
      assert DistanceShows(x, t, base, d);
    }
  }

  /** One column's part of the move. */
  method MoveOne(p: Problem, forbidden: set<nat>, x0: Vectors, delta: Score, c: nat,
                 ghost t: Tree, ghost row: nat, ghost value: int, ghost b: Option<nat>)
    returns (ok: bool, x: Vectors)
    requires Sized(p, t) && RowsPriced(p, forbidden, Base(p), t, row) && c <= Columns(p)
    requires Shows(x0, MovedBelow(t, value, c), Base(p)) && Stands(delta, value, Base(p))
    requires b.Some? ==> MoveFits(p, b.value, t, value)
    ensures b.Some? ==> ok
    ensures ok ==> Shows(x, MovedBelow(t, value, c + 1), Base(p))
  {
    hide RowsPriced, Base, Value, Shows, Add, Sub, PotentialsShow, AllStand, MoveFits;
    ok, x := true, x0;
    ghost var m := MovedBelow(t, value, c);
    MovedMates(t, value, c);
    ShowsAt(x, m, Base(p), c);
    if x.visited[c] {
      MoveTreeColumn(p, forbidden, t, row, value, c);
      var r := x.matchedRow[c];
      PotentialsAt(x, m, Base(p), r, c);
      if b.Some? {
        TreeMoveIsSafe(p, b.value, x, t, r, c, delta, value);
      }
      var up, down := Add(x.rowPotential[r], delta), Sub(x.columnPotential[c], delta);
      if up.None? || down.None? {
        return false, x;
      }
      AddStands(x.rowPotential[r], delta, Base(p));
      SubStands(x.columnPotential[c], delta, Base(p));
      Reprice(x, m, r, up.value, t.u[r] + value, c, down.value, t.v[c] - value, Base(p));
      x := x.(rowPotential := x.rowPotential[r := up.value], columnPotential := x.columnPotential[c := down.value]);
    } else {
      MoveOtherColumn(t, value, c);
      if x.distance[c].Some? {
        if b.Some? {
          OtherMoveIsSafe(p, b.value, t, c, x.distance[c].value, delta, value);
        }
        var less := Sub(x.distance[c].value, delta);
        if less.None? {
          return false, x;
        }
        SubStands(x.distance[c].value, delta, Base(p));
        Retouch(x, m, c, less, Some(t.distance[c].value - value), x.previous[c], Base(p));
        assert x.previous[c := x.previous[c]] == x.previous && m.previous[c := x.previous[c]] == m.previous;
        x := x.(distance := x.distance[c := less]);
      } else {
        assert m.distance[c := None] == m.distance;
      }
    }
  }

  lemma MovedMates(t: Tree, delta: int, k: nat)
    ensures var m := MovedBelow(t, delta, k);
      && m.mates == t.mates && m.order == t.order && m.previous == t.previous
      && |m.u| == |t.u| && |m.v| == |t.v| && |m.distance| == |t.distance|
  {}

  lemma PotentialsAt(x: Vectors, t: Tree, base: nat, r: nat, c: nat)
    requires PotentialsShow(x, t, base) && r < |t.u| && c < |t.v|
    ensures |x.rowPotential| == |t.u| && |x.columnPotential| == |t.v| && x.matchedRow == t.mates
    ensures Stands(x.rowPotential[r], t.u[r], base) && Stands(x.columnPotential[c], t.v[c], base)
  {}

  /** The prices of the tree move by delta, and the others' distances shrink by as much. */
  method Move(p: Problem, forbidden: set<nat>, x0: Vectors, delta: Score, work0: nat, ghost t: Tree, ghost row: nat,
              ghost b: Option<nat>)
    returns (stop: Option<Stop>, x: Vectors, work: nat)
    requires Sized(p, t) && RowsPriced(p, forbidden, Base(p), t, row)
    requires Shows(x0, t, Base(p)) && Storable(delta)
    requires b.Some? ==> MoveFits(p, b.value, t, Value(delta, Base(p)))
    ensures work <= work0 <= work + Columns(p) + 1 && (stop.None? ==> work0 == work + Columns(p) + 1)
    ensures stop == Some(OutOfWork) ==> work0 < Columns(p) + 1
    ensures stop != Some(Stuck) && (b.Some? ==> stop != Some(Overflow))
    ensures stop.None? ==> Shows(x, Moved(t, Value(delta, Base(p))), Base(p))
  {
    hide Sized, RowsPriced, Base, Value, Shows, Storable, MovedBelow, Moved, MoveFits;
    ghost var value := Value(delta, Base(p));
    stop, x, work := None, x0, work0;
    MoveBegins(t, value);
    for candidate := 0 to Columns(p) + 1
      invariant work0 == work + candidate
      invariant Shows(x, MovedBelow(t, value, candidate), Base(p))
    {
      if work < 1 {
        return Some(OutOfWork), x, work;
      }
      work := work - 1;
      var ok;
      ok, x := MoveOne(p, forbidden, x, delta, candidate, t, row, value, b);
      if !ok {
        return Some(Overflow), x, work;
      }
    }
    MoveIsDone(p, t, value);
    assert |t.mates| == Columns(p) + 1 by {
      SizedMates(p, t);
    }
  }

  lemma SizedMates(p: Problem, t: Tree)
    requires Sized(p, t)
    ensures |t.mates| == Columns(p) + 1
  {}

  /** The move leaves the sum of all prices as it is, column by column. */
  lemma {:induction false} BalanceBelow(p: Problem, forbidden: set<nat>, t: Tree, row: nat, delta: int, k: nat)
    requires Sized(p, t) && RowsPriced(p, forbidden, Base(p), t, row) && k <= |t.mates|
    ensures var m := MovedBelow(t, delta, k);
      |m.u| == |t.u| && |m.v| == |t.v| && Balance(m.u, m.v) == Balance(t.u, t.v)
  {
    hide RowsPriced, MovedBelow, Balance, Base;
    if k == 0 {
      MoveBegins(t, delta);
    } else {
      BalanceBelow(p, forbidden, t, row, delta, k - 1);
      var m := MovedBelow(t, delta, k - 1);
      if k - 1 in t.order {
        MoveTreeColumn(p, forbidden, t, row, delta, k - 1);
        BalanceKept(m.u, m.v, t.mates[k - 1], k - 1, delta);
      } else {
        MoveOtherColumn(t, delta, k - 1);
      }
    }
  }

  lemma MovedBalance(p: Problem, forbidden: set<nat>, t: Tree, row: nat, delta: int)
    requires Sized(p, t) && RowsPriced(p, forbidden, Base(p), t, row)
    ensures var m := Moved(t, delta);
      |m.u| == |t.u| && |m.v| == |t.v| && Balance(m.u, m.v) == Balance(t.u, t.v)
  {
    hide RowsPriced, MovedBelow, Moved, Balance, Base;
    BalanceBelow(p, forbidden, t, row, delta, |t.mates|);
    MoveIsDone(p, t, delta);
  }

  // ---------- one row ----------

  /** Nothing overflows while the column at the door is entered and the prices move, and the search stays steady. */
  lemma OnceIsSafe(p: Problem, forbidden: set<nat>, b: nat, t: Tree, row: nat, column: nat, next: nat, delta: int)
    requires Growing(p, forbidden, Base(p), t, row) && Steady(p, b, t, row) && 1 <= row <= |p.rows|
    requires AtDoor(p, forbidden, Base(p), t, row, column) && t.mates[column] != 0
    requires Growing(p, forbidden, Base(p), Entered(p, forbidden, Base(p), t, column), row)
    requires Nearest(Entered(p, forbidden, Base(p), t, column), next, delta)
    ensures var t' := Entered(p, forbidden, Base(p), t, column);
      MoveFits(p, b, t', delta) && Steady(p, b, Moved(t', delta), row)
  {
    hide Growing, AtDoor, Base, Fits, Margin, Roomy, Entered, Moved, Steady, Balance;
    RowIs(p, forbidden, t, row);
    DoorIsColumn(p, forbidden, t, row, column);
    var t' := Entered(p, forbidden, Base(p), t, column);
    EnteredFits(p, forbidden, b, t, row, column);
    RowIs(p, forbidden, t', row);
    EnteredIsLast(p, forbidden, t, column);
    TreeRows(p, forbidden, t', row, row);
    MovedSized(p, t', delta);
    MovedBalance(p, forbidden, t', row, delta);
    MovedSteady(p, forbidden, b, t', row, delta);
    SteadyRoom(p, b, t', row);
  }

  lemma EnteredIsLast(p: Problem, forbidden: set<nat>, t: Tree, column: nat)
    requires Sized(p, t) && column < |t.mates| && t.mates[column] != 0
    ensures Entered(p, forbidden, Base(p), t, column).order != []
  {
    EnteredOrder(p, forbidden, Base(p), t, column);
  }

  lemma SteadyRoom(p: Problem, b: nat, t: Tree, row: nat)
    requires Steady(p, b, t, row)
    ensures Roomy(p, b)
  {}

  /** The column at the door is entered, and the nearest one comes to the door. */
  method GrowOnce(p: Problem, forbidden: set<nat>, x0: Vectors, column0: nat, work0: nat,
                  ghost t0: Tree, ghost row: nat, ghost b: Option<nat>)
    returns (stop: Option<Stop>, x: Vectors, column: nat, work: nat, ghost t: Tree)
    requires Valid(p) && Growing(p, forbidden, Base(p), t0, row) && 1 <= row <= |p.rows|
    requires AtDoor(p, forbidden, Base(p), t0, row, column0) && t0.mates[column0] != 0 && Shows(x0, t0, Base(p))
    requires b.Some? ==> Steady(p, b.value, t0, row)
    ensures work <= work0 <= work + 2 * Columns(p) + 1 && (stop.None? ==> work0 == work + 2 * Columns(p) + 1)
    ensures stop == Some(OutOfWork) ==> work0 < 2 * Columns(p) + 1
    ensures stop != Some(Stuck) && (b.Some? ==> stop != Some(Overflow))
    ensures stop.None? && b.Some? ==> Steady(p, b.value, t, row)
    ensures stop.None? ==>
      && Growing(p, forbidden, Base(p), t, row) && AtDoor(p, forbidden, Base(p), t, row, column)
      && Shows(x, t, Base(p)) && t.order == t0.order + [column0] && t.mates == t0.mates
  {
    hide Base, Value, Shows, Entered, Moved, BestBelow, RowsPriced, Rooted, AllReached, Reached, Fair, Hangs, Nearest;
    hide Steady, MoveFits;
    var next;
    column, t := column0, t0;
    stop, x, next, work := Relax(p, forbidden, x0, column0, work0, t0, row, b);
    if stop.Some? {
      return;
    }
    EnterOne(p, forbidden, Base(p), t0, row, column0);
    ghost var t' := Entered(p, forbidden, Base(p), t0, column0);
    ghost var reached := SomeColumnReached(p, forbidden, Base(p), t', row);
    BestIsNearest(t', next, Base(p), reached);
    if next.None? {
      return Some(Stuck), x, column, work, t;
    }
    var (delta, nextColumn) := next.value;
    if t'.order != [0] {
      DeltaNotNegative(p, forbidden, Base(p), t', row, nextColumn, Value(delta, Base(p)));
    }
    MoveOn(p, forbidden, Base(p), t', row, nextColumn, Value(delta, Base(p)));
    MovedKeeps(t', Value(delta, Base(p)));
    EnteredKeeps(p, forbidden, t0, column0);
    if b.Some? {
      OnceIsSafe(p, forbidden, b.value, t0, row, column0, nextColumn, Value(delta, Base(p)));
    }
    stop, x, work := Move(p, forbidden, x, delta, work, t', row, b);
    column, t := nextColumn, Moved(t', Value(delta, Base(p)));
  }

  lemma MovedKeeps(t: Tree, delta: int)
    ensures Moved(t, delta).mates == t.mates && Moved(t, delta).order == t.order
  {}

  lemma EnteredKeeps(p: Problem, forbidden: set<nat>, t: Tree, column: nat)
    requires Sized(p, t) && column < |t.mates| && t.mates[column] != 0
    ensures var t' := Entered(p, forbidden, Base(p), t, column); t'.mates == t.mates && t'.order == t.order + [column]
  {}

  ghost function GrowBound(p: Problem, n: nat): nat { n * (2 * Columns(p) + 1) }

  lemma GrowMore(p: Problem, n: nat, m: nat)
    requires n < m
    ensures GrowBound(p, n) + 2 * Columns(p) + 1 == GrowBound(p, n + 1) <= GrowBound(p, m)
  {
    Multiples(n, m, 2 * Columns(p) + 1);
  }

  lemma GrowAtLeast(p: Problem, n: nat, m: nat)
    requires n <= m
    ensures GrowBound(p, n) <= GrowBound(p, m)
  {
    if n < m {
      GrowMore(p, n, m);
    }
  }

  lemma Multiples(n: nat, m: nat, k: nat)
    requires n < m
    ensures n * k + k == (n + 1) * k <= m * k
  {
    Spread(n, 1, k);
    Spread(n + 1, m - n - 1, k);
    NoLessThanNone(m - n - 1, k);
  }

  lemma NoLessThanNone(n: nat, k: nat)
    ensures n * k >= 0
  {}

  /** The tree grows until a free column stands at the door. */
  method Grow(p: Problem, forbidden: set<nat>, x0: Vectors, work0: nat, ghost t0: Tree, row: nat,
              ghost b: Option<nat>)
    returns (stop: Option<Stop>, x: Vectors, column: nat, work: nat, ghost t: Tree)
    requires Valid(p) && Growing(p, forbidden, Base(p), t0, row) && 1 <= row <= |p.rows|
    requires t0.order == [] && AtDoor(p, forbidden, Base(p), t0, row, 0) && Shows(x0, t0, Base(p))
    requires b.Some? ==> Steady(p, b.value, t0, row)
    ensures work <= work0 <= work + GrowBound(p, row) && (stop.None? ==> work0 == work + GrowBound(p, |t.order|))
    ensures stop == Some(OutOfWork) ==> work0 < GrowBound(p, row)
    ensures stop != Some(Stuck) && (b.Some? ==> stop != Some(Overflow))
    ensures stop.None? && b.Some? ==> Steady(p, b.value, t, row)
    ensures stop.None? ==>
      && Growing(p, forbidden, Base(p), t, row) && AtDoor(p, forbidden, Base(p), t, row, column)
      && Shows(x, t, Base(p)) && column != 0 && t.mates[column] == 0 && t.order != [] && |t.order| <= row
  {
    hide Base, Shows, AtDoor, RowsPriced, Rooted, AllReached, GrowBound, Steady;
    stop, x, column, work, t := None, x0, 0, work0, t0;
    NewRowAtRoot(p, forbidden, t, row);
    while true
      invariant work <= work0 == work + GrowBound(p, |t.order|)
      invariant Growing(p, forbidden, Base(p), t, row) && AtDoor(p, forbidden, Base(p), t, row, column)
      invariant Shows(x, t, Base(p)) && column < |t.mates| && t.mates[column] != 0
      invariant b.Some? ==> Steady(p, b.value, t, row)
      decreases row - |t.order|
    {
      DoorOutside(p, forbidden, t, row, column);
      TreeIsSmall(p, forbidden, Base(p), t, row, column);
      GrowMore(p, |t.order|, row);
      stop, x, column, work, t := GrowOnce(p, forbidden, x, column, work, t, row, b);
      if stop.Some? {
        return;
      }
      DoorOutside(p, forbidden, t, row, column);
      ShowsMates(x, t, Base(p));
      if x.matchedRow[column] == 0 {
        NewRowAtRoot(p, forbidden, t, row);
        break;
      }
    }
  }

  lemma NewRowAtRoot(p: Problem, forbidden: set<nat>, t: Tree, row: nat)
    requires Growing(p, forbidden, Base(p), t, row)
    ensures t.mates != [] && t.mates[0] == row && 1 <= row && GrowBound(p, 0) == 0
  {}

  lemma DoorOutside(p: Problem, forbidden: set<nat>, t: Tree, row: nat, column: nat)
    requires Sized(p, t) && 1 <= row <= |p.rows| && AtDoor(p, forbidden, Base(p), t, row, column)
    ensures column < |t.mates| && column !in t.order
  {}

  lemma ShowsMates(x: Vectors, t: Tree, base: nat)
    requires Shows(x, t, base)
    ensures x.matchedRow == t.mates && x.previous == t.previous
  {
    assert forall c | 0 <= c < |t.previous| :: DistanceShows(x, t, base, c) ==> x.previous[c] == t.previous[c];
  }

  /** Every column of the path takes over the row of the one it hangs on. */
  method Augment(p: Problem, forbidden: set<nat>, x: Vectors, column0: nat, work0: nat, ghost t: Tree, ghost row: nat)
    returns (stop: Option<Stop>, matchedRow: seq<nat>, work: nat)
    requires Growing(p, forbidden, Base(p), t, row) && 1 <= row <= |p.rows|
    requires AtDoor(p, forbidden, Base(p), t, row, column0) && t.mates[column0] == 0 && t.order != []
    requires x.matchedRow == t.mates && x.previous == t.previous
    ensures work <= work0 <= work + |t.order| && (stop.None? ==> work < work0)
    ensures stop == Some(OutOfWork) ==> work0 < |t.order|
    ensures stop.None? || stop == Some(OutOfWork)
    ensures stop.None? ==> Priced(p, forbidden, Base(p), t.u, t.v, matchedRow, row)
  {
    hide Base, Growing, AtDoor, Shifting, Priced, Tight;
    stop, matchedRow, work := None, x.matchedRow, work0;
    var column := column0;
    ghost var i: nat := |t.order|;
    PathKnown(p, forbidden, t, row, column0);
    ShiftStarts(p, forbidden, Base(p), t, row, column0);
    while column != 0
      invariant i <= |t.order| && column == Path(t, column0)[i] && work <= work0 <= work + |t.order| - i
      invariant i < |t.order| ==> work < work0
      invariant |matchedRow| == |t.mates| == |t.previous|
      invariant Shifting(p, forbidden, Base(p), t, row, column0, matchedRow, i)
      decreases i
    {
      if work < 1 {
        return Some(OutOfWork), matchedRow, work;
      }
      work := work - 1;
      ghost var j := Predecessor(p, forbidden, Base(p), t, row, column0, i);
      ShiftOne(p, forbidden, Base(p), t, row, column0, matchedRow, i, j);
      var prior := x.previous[column];
      matchedRow := matchedRow[column := matchedRow[prior]];
      column := prior;
      i := j;
    }
    assert i == 0;
    ShiftEnds(p, forbidden, Base(p), t, row, column0, matchedRow);
  }

  lemma PathKnown(p: Problem, forbidden: set<nat>, t: Tree, row: nat, column: nat)
    requires Growing(p, forbidden, Base(p), t, row) && 1 <= row <= |p.rows|
    requires AtDoor(p, forbidden, Base(p), t, row, column) && t.order != []
    ensures Sized(p, t) && Path(t, column)[0] == 0
    ensures forall i | 1 <= i < |Path(t, column)| :: Path(t, column)[i] != 0
  {
    PathDistinct(p, forbidden, Base(p), t, row, column);
  }

  /** What the vectors say between rows: the first k rows are priced. */
  ghost predicate RowsDone(p: Problem, forbidden: set<nat>, x: Vectors, u: seq<int>, v: seq<int>, k: nat) {
    && AllStand(x.rowPotential, u, Base(p)) && AllStand(x.columnPotential, v, Base(p))
    && |x.matchedRow| == Columns(p) + 1 && Priced(p, forbidden, Base(p), u, v, x.matchedRow, k)
  }

  /** The vectors as a search begins, and their tree. */
  function Fresh(p: Problem, x: Vectors, row: nat): Vectors
    requires |x.matchedRow| == Columns(p) + 1
  {
    Vectors(x.rowPotential, x.columnPotential, x.matchedRow[0 := row], seq(Columns(p) + 1, _ => None),
            seq(Columns(p) + 1, _ => 0), seq(Columns(p) + 1, _ => false))
  }

  ghost function Seed(p: Problem, x: Vectors, u: seq<int>, v: seq<int>, row: nat): Tree
    requires |x.matchedRow| == Columns(p) + 1
  {
    Tree(u, v, x.matchedRow[0 := row], seq(Columns(p) + 1, _ => None), seq(Columns(p) + 1, _ => 0), [])
  }

  lemma SeedGrows(p: Problem, forbidden: set<nat>, x: Vectors, u: seq<int>, v: seq<int>, row: nat)
    requires 1 <= row <= |p.rows| && RowsDone(p, forbidden, x, u, v, row - 1)
    ensures var t := Seed(p, x, u, v, row);
      && Growing(p, forbidden, Base(p), t, row) && AtDoor(p, forbidden, Base(p), t, row, 0)
      && Shows(Fresh(p, x, row), t, Base(p)) && t.order == []
  {
    hide AllStand, Fair, Tight, Base, HasColumn;
    var t := Seed(p, x, u, v, row);
    SeedPriced(p, forbidden, x.matchedRow, u, v, row);
    SeedSized(p, forbidden, x, u, v, row);
    assert RowsPriced(p, forbidden, Base(p), t, row);
    forall c | 0 <= c < |t.distance| ensures DistanceShows(Fresh(p, x, row), t, Base(p), c) {}
  }

  lemma SeedPriced(p: Problem, forbidden: set<nat>, mates: seq<nat>, u: seq<int>, v: seq<int>, row: nat)
    requires 1 <= row <= |p.rows| && mates != [] && Priced(p, forbidden, Base(p), u, v, mates, row - 1)
    ensures Priced(p, forbidden, Base(p), u, v, mates[0 := row], row - 1)
  {
    hide Fair, Tight, Base;
    var seeded := mates[0 := row];
    forall r | 1 <= r <= row - 1 ensures HasColumn(seeded, r) {
      assert HasColumn(mates, r);
      var c :| 1 <= c < |mates| && mates[c] == r;
      assert seeded[c] == r;
    }
  }

  lemma SeedSized(p: Problem, forbidden: set<nat>, x: Vectors, u: seq<int>, v: seq<int>, row: nat)
    requires 1 <= row <= |p.rows| && RowsDone(p, forbidden, x, u, v, row - 1)
    ensures Sized(p, Seed(p, x, u, v, row))
  {
    hide AllStand, Fair, Tight, Base, HasColumn;
  }

  /** The most a row can cost: its own fee, a tree of at most as many columns, and the way back. */
  ghost function RowBound(p: Problem, row: nat): nat { Columns(p) + GrowBound(p, row) + row }

  /** And the least: one column entered, and one step back. */
  ghost function RowLeast(p: Problem): nat { Columns(p) + GrowBound(p, 1) + 1 }

  /** One more row is given a column. */
  method SolveRow(p: Problem, forbidden: set<nat>, x0: Vectors, row: nat, work0: nat,
                  ghost u0: seq<int>, ghost v0: seq<int>, ghost b: Option<nat>)
    returns (stop: Option<Stop>, x: Vectors, work: nat, ghost u: seq<int>, ghost v: seq<int>)
    requires Valid(p) && 1 <= row <= |p.rows| && RowsDone(p, forbidden, x0, u0, v0, row - 1)
    requires b.Some? ==> Quiet(p, b.value, u0, v0, row - 1)
    ensures work <= work0 <= work + RowBound(p, row) && (stop.None? ==> work + RowLeast(p) <= work0)
    ensures stop == Some(OutOfWork) ==> work0 < RowBound(p, row)
    ensures stop != Some(Stuck) && (b.Some? ==> stop != Some(Overflow))
    ensures stop.None? && b.Some? ==> Quiet(p, b.value, u, v, row)
    ensures stop.None? ==> RowsDone(p, forbidden, x, u, v, row)
  {
    hide Base, Growing, AtDoor, Shows, Priced, GrowBound, AllStand, Quiet, Steady;
    stop, x, work, u, v := None, x0, work0, u0, v0;
    if work < Columns(p) {
      return Some(OutOfWork), x, work, u, v;
    }
    work := work - Columns(p);
    SeedGrows(p, forbidden, x0, u0, v0, row);
    x := Fresh(p, x0, row);
    var column;
    ghost var t := Seed(p, x0, u0, v0, row);
    if b.Some? {
      SeedSteady(p, forbidden, b.value, x0, u0, v0, row);
    }
    stop, x, column, work, t := Grow(p, forbidden, x, work, t, row, b);
    if stop.Some? {
      return;
    }
    if b.Some? {
      QuietAtLast(p, forbidden, b.value, t, row, column);
    }
    GrowAtLeast(p, 1, |t.order|);
    ShowsMates(x, t, Base(p));
    ShowsPotentials(x, t, Base(p));
    var matchedRow;
    stop, matchedRow, work := Augment(p, forbidden, x, column, work, t, row);
    x, u, v := x.(matchedRow := matchedRow), t.u, t.v;
    if stop.None? {
      PricedRows(p, forbidden, u, v, matchedRow, row);
    }
  }

  lemma SeedSteady(p: Problem, forbidden: set<nat>, b: nat, x: Vectors, u: seq<int>, v: seq<int>, row: nat)
    requires 1 <= row <= |p.rows| && RowsDone(p, forbidden, x, u, v, row - 1) && Quiet(p, b, u, v, row - 1)
    ensures Steady(p, b, Seed(p, x, u, v, row), row)
  {
    hide AllStand, Priced, Quiet, Steady, Base;
    SeedSized(p, forbidden, x, u, v, row);
    SteadyAtFirst(p, forbidden, b, Seed(p, x, u, v, row), x.matchedRow, row);
  }

  lemma ShowsPotentials(x: Vectors, t: Tree, base: nat)
    requires Shows(x, t, base)
    ensures AllStand(x.rowPotential, t.u, base) && AllStand(x.columnPotential, t.v, base)
  {}

  lemma PricedRows(p: Problem, forbidden: set<nat>, u: seq<int>, v: seq<int>, mates: seq<nat>, k: nat)
    requires Priced(p, forbidden, Base(p), u, v, mates, k)
    ensures |mates| == Columns(p) + 1
  {}

  // ---------- a cheapest assignment ----------

  datatype Optimum = Optimum(cost: Score, selected: seq<nat>)

  /** The proposals of the columns below n, in order. */
  ghost function SelectedBelow(p: Problem, a: map<nat, nat>, n: nat): seq<nat>
    requires Edges(p, a)
  {
    if n == 0 then []
    else SelectedBelow(p, a, n - 1) + if n - 1 in a then [p.rows[a[n - 1]][n - 1].proposal] else []
  }

  /** The cost of a cheapest partial assignment, and its proposals. */
  ghost predicate IsOptimum(p: Problem, forbidden: set<nat>, o: Optimum, a: map<nat, nat>) {
    Cheapest(p, forbidden, a) && o == Optimum(Cost(p, a), SelectedBelow(p, a, p.realColumns))
  }

  /** The matched real columns are summed up. */
  method Collect(p: Problem, forbidden: set<nat>, matchedRow: seq<nat>, work0: nat)
    returns (r: Result<Optimum, Stop>, work: nat)
    requires |matchedRow| == Columns(p) + 1 && Partial(p, forbidden, RealMates(p, matchedRow))
    requires forall c | 0 <= c < |matchedRow| :: matchedRow[c] <= |p.rows| || c == 0
    ensures work <= work0 <= work + p.realColumns && (r.Ok? ==> work0 == work + p.realColumns)
    ensures r == Err(OutOfWork) ==> work0 < p.realColumns
    ensures r != Err(Stuck) && (Tame(p) ==> r != Err(Overflow))
    ensures r.Ok? ==>
      var a := RealMates(p, matchedRow);
      Edges(p, a) && r.value == Optimum(Cost(p, a), SelectedBelow(p, a, p.realColumns))
  {
    ghost var a := RealMates(p, matchedRow);
    var cost, selected: seq<nat> := Zero(), [];
    work := work0;
    for column := 1 to p.realColumns + 1
      invariant work0 == work + column - 1
      invariant cost == TotalCost(p, a, column - 1) && selected == SelectedBelow(p, a, column - 1)
    {
      if work < 1 {
        return Err(OutOfWork), work;
      }
      work := work - 1;
      var row := matchedRow[column];
      assert column - 1 in a <==> row != 0;
      if row != 0 {
        if column - 1 !in p.rows[row - 1] {
          return Err(Stuck), work;
        }
        var edge := p.rows[row - 1][column - 1];
        assert Plus(cost, edge.cost) == TotalCost(p, a, column);
        if Tame(p) {
          TotalIsSafe(p, forbidden, a, column);
        }
        var sum := Add(cost, edge.cost);
        if sum.None? {
          return Err(Overflow), work;
        }
        cost := sum.value;
        selected := selected + [edge.proposal];
      }
    }
    r := Ok(Optimum(cost, selected));
  }

  lemma TotalIsSafe(p: Problem, forbidden: set<nat>, a: map<nat, nat>, n: nat)
    requires Tame(p) && Partial(p, forbidden, a) && Edges(p, a)
    ensures Storable(TotalCost(p, a, n))
  {
    hide Roomy, TotalCost;
    var b: nat :| Roomy(p, b);
    TotalFits(p, forbidden, b, a, n);
  }

  ghost function RowsBound(p: Problem, k: nat): nat {
    if k == 0 then 0 else RowsBound(p, k - 1) + RowBound(p, k)
  }

  lemma {:induction false} RowsBoundGrows(p: Problem, k: nat, n: nat)
    requires k <= n
    ensures RowsBound(p, k) <= RowsBound(p, n)
  {
    if k < n {
      RowsBoundGrows(p, k, n - 1);
    }
  }

  /** Work that suffices for every solve of this problem. */
  ghost function WorkBound(p: Problem): nat {
    |p.rows| + Columns(p) + RowsBound(p, |p.rows|) + p.realColumns
  }

  /** Work that every completed solve takes. */
  ghost function WorkLeast(p: Problem): nat {
    |p.rows| + Columns(p) + RowsLeast(p, |p.rows|) + p.realColumns
  }

  ghost function RowsLeast(p: Problem, k: nat): nat {
    if k == 0 then 0 else RowsLeast(p, k - 1) + RowLeast(p)
  }

  function Blank(p: Problem): Vectors {
    Vectors(seq(|p.rows| + 1, _ => Zero()), seq(Columns(p) + 1, _ => Zero()), seq(Columns(p) + 1, _ => 0), [], [], [])
  }

  lemma BlankDone(p: Problem, forbidden: set<nat>)
    ensures RowsDone(p, forbidden, Blank(p), seq(|p.rows| + 1, _ => 0), seq(Columns(p) + 1, _ => 0), 0)
  {
    hide Value;
    ZeroValue(Base(p));
  }

  lemma DoneMeans(p: Problem, forbidden: set<nat>, x: Vectors, u: seq<int>, v: seq<int>)
    requires Valid(p) && RowsDone(p, forbidden, x, u, v, |p.rows|)
    ensures Linked(p, forbidden, x.matchedRow) && Cheapest(p, forbidden, RealMates(p, x.matchedRow))
    ensures forall c | 0 <= c < |x.matchedRow| :: x.matchedRow[c] <= |p.rows| || c == 0
  {
    hide AllStand, Fair, Base;
    assert Linked(p, forbidden, x.matchedRow) by {
      forall c | 1 <= c < |x.matchedRow| && x.matchedRow[c] != 0
        ensures x.matchedRow[c] <= |p.rows| && CostAt(p, forbidden, x.matchedRow[c], c).Some?
      {
        assert Tight(p, forbidden, Base(p), u, v, x.matchedRow[c], c);
      }
    }
    PricedIsCheapest(p, forbidden, u, v, x.matchedRow);
  }

  /** Whatever is forbidden, a solve that is not cut short finds a cheapest partial assignment;
      it is cut short only by an overflow or for want of work, and by no overflow where the costs leave room. */
  method FindOptimum(p: Problem, forbidden: set<nat>, work0: nat)
    returns (r: Result<Optimum, Stop>, work: nat, ghost a: map<nat, nat>)
    requires Valid(p)
    ensures work <= work0 <= work + WorkBound(p) && (r.Ok? ==> work + WorkLeast(p) <= work0)
    ensures r == Err(OutOfWork) ==> work0 < WorkBound(p)
    ensures r != Err(Stuck)
    ensures Tame(p) && |p.rows| + Columns(p) <= USIZE_MAX ==> r != Err(Overflow)
    ensures r.Ok? ==> IsOptimum(p, forbidden, r.value, a)
  {
    hide Base, RowsDone, Cheapest, RowBound, RowLeast, Edges, TotalCost, Roomy, Quiet;
    work, a := work0, map[];
    if Columns(p) > USIZE_MAX || |p.rows| + Columns(p) > USIZE_MAX {
      return Err(Overflow), work, a;
    }
    if work < |p.rows| + Columns(p) {
      return Err(OutOfWork), work, a;
    }
    work := work - (|p.rows| + Columns(p));
    var x := Blank(p);
    ghost var u, v := seq(|p.rows| + 1, _ => 0), seq(Columns(p) + 1, _ => 0);
    BlankDone(p, forbidden);
    ghost var b := RoomFor(p);
    if b.Some? {
      QuietAtFirst(p, b.value);
    }
    for row := 1 to |p.rows| + 1
      invariant RowsDone(p, forbidden, x, u, v, row - 1)
      invariant b.Some? ==> Quiet(p, b.value, u, v, row - 1)
      invariant work <= work0 <= work + |p.rows| + Columns(p) + RowsBound(p, row - 1)
      invariant work + |p.rows| + Columns(p) + RowsLeast(p, row - 1) <= work0
    {
      RowsBoundGrows(p, row, |p.rows|);
      var stop;
      stop, x, work, u, v := SolveRow(p, forbidden, x, row, work, u, v, b);
      if stop.Some? {
        return Err(stop.value), work, a;
      }
    }
    DoneMeans(p, forbidden, x, u, v);
    a := RealMates(p, x.matchedRow);
    CheapestIsPartial(p, forbidden, a);
    r, work := Collect(p, forbidden, x.matchedRow, work);
  }

  /** A bound for which the costs leave room, if there is one. */
  ghost function RoomFor(p: Problem): (b: Option<nat>)
    ensures b.Some? <==> Tame(p)
    ensures b.Some? ==> Roomy(p, b.value)
  {
    if Tame(p) then
      var b: nat :| Roomy(p, b);
      Some(b)
    else None
  }

  lemma CheapestIsPartial(p: Problem, forbidden: set<nat>, a: map<nat, nat>)
    requires Cheapest(p, forbidden, a)
    ensures Partial(p, forbidden, a) && Edges(p, a)
  {}

  // ---------- what every optimum contains ----------

  /** Every cheapest partial assignment takes the proposal up. */
  ghost predicate Mandatory(p: Problem, proposal: nat) {
    forall a | Cheapest(p, {}, a) :: proposal in Chosen(p, a)
  }

  lemma AllowedIsPartial(p: Problem, forbidden: set<nat>, a: map<nat, nat>)
    requires Edges(p, a)
    ensures Partial(p, forbidden, a) <==> Partial(p, {}, a) && Chosen(p, a) !! forbidden
  {
    if Partial(p, {}, a) && Chosen(p, a) !! forbidden {
      forall c | c in a ensures p.rows[a[c]][c].proposal !in forbidden {
        assert p.rows[a[c]][c].proposal in Chosen(p, a);
      }
    }
  }

  /** Costs of partial assignments are totally ordered. */
  lemma CostsCompare(p: Problem, a: map<nat, nat>, b: map<nat, nat>)
    requires Valid(p) && Edges(p, a) && Edges(p, b)
    ensures Less(Cost(p, a), Cost(p, b)) <==> Value(Cost(p, a), Base(p)) < Value(Cost(p, b), Base(p))
  {
    hide Value, Less, Base, TotalCost;
    CostWithin(p, a, p.realColumns);
    CostWithin(p, b, p.realColumns);
    BaseIsLarge(p);
    LessByValue(Cost(p, a), Cost(p, b), p.realColumns * I128_BOUND, Base(p));
  }

  /** An assignment without the proposal cannot cost less, and costs more exactly when the proposal is mandatory. */
  lemma PricedOut(p: Problem, proposal: nat, a: map<nat, nat>, without: map<nat, nat>)
    requires Valid(p) && Cheapest(p, {}, a) && Cheapest(p, {proposal}, without)
    ensures !Less(Cost(p, without), Cost(p, a))
    ensures Less(Cost(p, a), Cost(p, without)) <==> Mandatory(p, proposal)
  {
    hide Less, Cost, Chosen, Edges;
    CheapestIsPartial(p, {}, a);
    CheapestIsPartial(p, {proposal}, without);
    AllowedIsPartial(p, {proposal}, without);
    if Less(Cost(p, a), Cost(p, without)) {
      forall b | Cheapest(p, {}, b) ensures proposal in Chosen(p, b) {
        CheapestIsPartial(p, {}, b);
        AllowedIsPartial(p, {proposal}, b);
        CostsCompare(p, a, without);
        CostsCompare(p, a, b);
        CostsCompare(p, b, without);
      }
    } else {
      forall rival | Partial(p, {}, rival) ensures !Less(Cost(p, rival), Cost(p, without)) {
        PartialEdges(p, rival);
        CostsCompare(p, a, without);
        CostsCompare(p, rival, a);
        CostsCompare(p, rival, without);
      }
    }
  }

  lemma PartialEdges(p: Problem, a: map<nat, nat>)
    requires Partial(p, {}, a)
    ensures Edges(p, a)
  {}

  lemma {:induction false} SelectedAre(p: Problem, a: map<nat, nat>, n: nat, proposal: nat)
    requires Edges(p, a)
    ensures proposal in SelectedBelow(p, a, n) <==> exists c :: c in a && c < n && p.rows[a[c]][c].proposal == proposal
  {
    if n > 0 {
      SelectedAre(p, a, n - 1, proposal);
    }
  }

  lemma MandatoryIsSelected(p: Problem, a: map<nat, nat>, proposal: nat)
    requires Cheapest(p, {}, a) && Mandatory(p, proposal)
    ensures proposal in SelectedBelow(p, a, p.realColumns)
  {
    SelectedAre(p, a, p.realColumns, proposal);
    assert proposal in Chosen(p, a);
  }

  /** The component's report: the mandatory proposals, the work charged, and whether the solve was completed. */
  datatype Component = Component(mandatory: seq<nat>, assignmentWork: nat, exhaustive: bool)

  /** Work that suffices for n solves. */
  ghost function SolvesBound(p: Problem, n: nat): nat { n * WorkBound(p) }

  /** One cheapest assignment, and one more without each of its proposals: those that raise the
      cost are in every cheapest assignment, and no others are. */
  method Certificate(p: Problem, workLimit: nat) returns (r: Result<seq<nat>, Stop>, work: nat)
    requires Valid(p)
    ensures work <= workLimit && r != Err(Stuck) && (r.Ok? ==> work + WorkLeast(p) <= workLimit)
    ensures r.Ok? ==> Sorted(AtMost, r.value) && forall e :: e in r.value <==> Mandatory(p, e)
    ensures r == Err(OutOfWork) ==> workLimit < SolvesBound(p, p.realColumns + 1)
    ensures Tame(p) && |p.rows| + Columns(p) <= USIZE_MAX ==> r != Err(Overflow)
  {
    hide Tame, WorkLeast, IsOptimum, Mandatory, WorkBound, SolvesBound, Less;
    var first;
    ghost var a;
    first, work, a := FindOptimum(p, {}, workLimit);
    SolvesGrow(p, 0, p.realColumns);
    if first.Err? {
      return Err(first.error), work;
    }
    var optimum := first.value;
    OptimumIs(p, {}, optimum, a);
    var mandatory: seq<nat> := [];
    for i := 0 to |optimum.selected|
      invariant work <= workLimit <= work + SolvesBound(p, i + 1) && work + WorkLeast(p) <= workLimit
      invariant forall e :: e in mandatory <==> e in optimum.selected[..i] && Mandatory(p, e)
    {
      var proposal := optimum.selected[i];
      var second;
      ghost var without;
      second, work, without := FindOptimum(p, {proposal}, work);
      SelectedFew(p, a, p.realColumns);
      SolvesGrow(p, i + 1, p.realColumns);
      if second.Err? {
        return Err(second.error), work;
      }
      OptimumIs(p, {proposal}, second.value, without);
      PricedOut(p, proposal, a, without);
      if Less(second.value.cost, optimum.cost) {
        return Err(Stuck), work;
      }
      if Less(optimum.cost, second.value.cost) {
        mandatory := mandatory + [proposal];
      }
    }
    forall e | Mandatory(p, e) ensures e in optimum.selected {
      MandatoryIsSelected(p, a, e);
    }
    SortKeeps(AtMost, mandatory);
    SortSorts(AtMost, mandatory);
    SameMembers(Sort(AtMost, mandatory), mandatory);
    r := Ok(Sort(AtMost, mandatory));
  }

  lemma OptimumIs(p: Problem, forbidden: set<nat>, o: Optimum, a: map<nat, nat>)
    requires IsOptimum(p, forbidden, o, a)
    ensures Cheapest(p, forbidden, a) && Edges(p, a)
    ensures o.cost == Cost(p, a) && o.selected == SelectedBelow(p, a, p.realColumns)
  {}

  lemma {:induction false} SelectedFew(p: Problem, a: map<nat, nat>, n: nat)
    requires Edges(p, a)
    ensures |SelectedBelow(p, a, n)| <= n
  {
    if n > 0 {
      SelectedFew(p, a, n - 1);
    }
  }

  lemma SolvesGrow(p: Problem, n: nat, m: nat)
    requires n <= m
    ensures SolvesBound(p, n) + WorkBound(p) == SolvesBound(p, n + 1) <= SolvesBound(p, m + 1)
    ensures SolvesBound(p, 0) == 0
  {
    hide WorkBound;
    Multiples(n, m + 1, WorkBound(p));
  }

  lemma SameMembers(a: seq<nat>, b: seq<nat>)
    requires multiset(a) == multiset(b)
    ensures forall e :: e in a <==> e in b
  {
    forall e ensures e in a <==> e in b {
      assert e in a <==> e in multiset(a);
      assert e in b <==> e in multiset(b);
    }
  }

  /** The solve of one component: complete, with exactly the proposals of every cheapest
      assignment, or cut short and without any. With enough work and room it is complete. */
  method SolveComponent(p: Problem, workLimit: nat) returns (c: Component)
    requires Valid(p)
    ensures c.assignmentWork <= workLimit && (c.exhaustive ==> WorkLeast(p) <= c.assignmentWork)
    ensures c.exhaustive ==> Sorted(AtMost, c.mandatory) && forall e :: e in c.mandatory <==> Mandatory(p, e)
    ensures !c.exhaustive ==> c.mandatory == []
    ensures Tame(p) && |p.rows| + Columns(p) <= USIZE_MAX && workLimit >= SolvesBound(p, p.realColumns + 1) ==>
      c.exhaustive
  {
    hide Tame, SolvesBound, WorkLeast, Mandatory;
    var r, work := Certificate(p, workLimit);
    assert r.Ok? || r.error == Overflow || r.error == OutOfWork;
    c := if r.Ok? then Component(r.value, workLimit - work, true) else Component([], workLimit - work, false);
  }
}
