/** The longest render-monotone subsequence of line intervals. */
module IntervalChain {
  // A patience-style scan with predecessor links, against the longest chain of intervals
  // in which each one ends strictly before the next one starts.

  import opened Basics

  /** The inclusive range of glyph render orders of a line. */
  datatype Line = Line(start: nat, end: nat)

  datatype Tail = Tail(end: nat, index: nat)

  /** Increasing positions whose intervals each end strictly before the next starts. */
  ghost predicate Chain(order: seq<Line>, c: seq<nat>) {
    && (forall k | 0 <= k < |c| :: c[k] < |order|)
    && (forall k | 0 < k < |c| :: c[k - 1] < c[k] && order[c[k - 1]].end < order[c[k]].start)
  }

  ghost predicate WellFormed(order: seq<Line>) {
    forall i | 0 <= i < |order| :: order[i].start <= order[i].end
  }

  /** The first position whose tail does not end before `start`; the library's
      binary search finds it because the tails are sorted. */
  function PartitionPoint(tails: seq<Tail>, start: nat): (p: nat)
    ensures p <= |tails|
    ensures forall k | 0 <= k < p :: tails[k].end < start
    ensures p < |tails| ==> start <= tails[p].end
  {
    if tails == [] || start <= tails[0].end then 0
    else
      var rest := tails[1..];
      assert forall k | 0 < k < |tails| :: rest[k - 1] == tails[k];
      1 + PartitionPoint(rest, start)
  }

  // ---------- the scan ----------

  ghost predicate SortedTails(tails: seq<Tail>) {
    forall k, l | 0 <= k < l < |tails| :: tails[k].end < tails[l].end
  }

  /** Tail k is the end of some scanned line of depth k + 1. */
  ghost predicate TailsName(order: seq<Line>, n: nat, tails: seq<Tail>, depth: seq<nat>)
    requires n <= |order| && |depth| == n
  {
    forall k | 0 <= k < |tails| ::
      tails[k].index < n && tails[k].end == order[tails[k].index].end && depth[tails[k].index] == k + 1
  }

  /** A predecessor is an earlier line one shallower that ends before this one starts. */
  ghost predicate Linked(order: seq<Line>, n: nat, predecessors: seq<Option<nat>>, depth: seq<nat>)
    requires n <= |order| && |depth| == n <= |predecessors|
  {
    forall i | 0 <= i < n ::
      && depth[i] >= 1
      && (predecessors[i].None? <==> depth[i] == 1)
      && (predecessors[i].Some? ==>
            var p := predecessors[i].value;
            p < i && depth[p] + 1 == depth[i] && order[p].end < order[i].start)
  }

  /** No chain among the first n lines is longer than the tails, or ends earlier than the tail of its length. */
  ghost predicate Dominates(order: seq<Line>, n: nat, tails: seq<Tail>) {
    forall c | Chain(order, c) && c != [] && c[|c| - 1] < n ::
      |c| <= |tails| && tails[|c| - 1].end <= order[c[|c| - 1]].end
  }

  ghost predicate Scanned(order: seq<Line>, n: nat, tails: seq<Tail>, predecessors: seq<Option<nat>>, depth: seq<nat>) {
    && n <= |order| && |depth| == n && |predecessors| == |order|
    && SortedTails(tails) && (n > 0 ==> tails != [])
    && TailsName(order, n, tails, depth)
    && Linked(order, n, predecessors, depth)
    && Dominates(order, n, tails)
  }

  /** The tails after one more line. */
  function NextTails(tails: seq<Tail>, line: Line, current: nat): seq<Tail> {
    var p := PartitionPoint(tails, line.start);
    if p == |tails| then tails + [Tail(line.end, current)]
    else if line.end < tails[p].end then tails[p := Tail(line.end, current)]
    else tails
  }

  function Predecessor(tails: seq<Tail>, line: Line): Option<nat> {
    var p := PartitionPoint(tails, line.start);
    if p > 0 then Some(tails[p - 1].index) else None
  }

  lemma BeforePoint(tails: seq<Tail>, start: nat, k: nat)
    requires SortedTails(tails) && k < |tails| && tails[k].end < start
    ensures k < PartitionPoint(tails, start)
  {}

  lemma DominatesStep(order: seq<Line>, n: nat, tails: seq<Tail>, c: seq<nat>)
    requires WellFormed(order) && n < |order| && SortedTails(tails) && Dominates(order, n, tails)
    requires Chain(order, c) && c != [] && c[|c| - 1] < n + 1
    ensures var tails' := NextTails(tails, order[n], n);
      |c| <= |tails'| && tails'[|c| - 1].end <= order[c[|c| - 1]].end
  {
    hide SortedTails;
    var p := PartitionPoint(tails, order[n].start);
    if c[|c| - 1] == n && |c| > 1 {
      var shorter := c[..|c| - 1];
      assert Chain(order, shorter);
      assert shorter[|shorter| - 1] == c[|c| - 2] < n && order[c[|c| - 2]].end < order[n].start;
      assert tails[|shorter| - 1].end < order[n].start;
      BeforePoint(tails, order[n].start, |shorter| - 1);
    }
  }

  lemma SortedStep(order: seq<Line>, n: nat, tails: seq<Tail>)
    requires WellFormed(order) && n < |order| && SortedTails(tails)
    ensures SortedTails(NextTails(tails, order[n], n))
  {
    var p := PartitionPoint(tails, order[n].start);
    assert forall k | 0 <= k < p :: tails[k].end < order[n].start <= order[n].end;
  }

  lemma ScanStart(order: seq<Line>, predecessors: seq<Option<nat>>)
    requires |predecessors| == |order|
    ensures Scanned(order, 0, [], predecessors, [])
  {}

  lemma ScanStep(order: seq<Line>, n: nat, tails: seq<Tail>, predecessors: seq<Option<nat>>, depth: seq<nat>)
    requires WellFormed(order) && n < |order| && Scanned(order, n, tails, predecessors, depth)
    ensures Scanned(order, n + 1, NextTails(tails, order[n], n), predecessors[n := Predecessor(tails, order[n])],
                    depth + [PartitionPoint(tails, order[n].start) + 1])
  {
    SortedStep(order, n, tails);
    NamesStep(order, n, tails, depth);
    LinkedStep(order, n, tails, predecessors, depth);
    forall c | Chain(order, c) && c != [] && c[|c| - 1] < n + 1
      ensures |c| <= |NextTails(tails, order[n], n)|
        && NextTails(tails, order[n], n)[|c| - 1].end <= order[c[|c| - 1]].end
    {
      DominatesStep(order, n, tails, c);
    }
  }

  lemma NamesStep(order: seq<Line>, n: nat, tails: seq<Tail>, depth: seq<nat>)
    requires n < |order| && |depth| == n && TailsName(order, n, tails, depth)
    ensures TailsName(order, n + 1, NextTails(tails, order[n], n), depth + [PartitionPoint(tails, order[n].start) + 1])
  {}

  lemma LinkedStep(order: seq<Line>, n: nat, tails: seq<Tail>, predecessors: seq<Option<nat>>, depth: seq<nat>)
    requires n < |order| && |depth| == n && |predecessors| == |order|
    requires TailsName(order, n, tails, depth) && Linked(order, n, predecessors, depth)
    ensures Linked(order, n + 1, predecessors[n := Predecessor(tails, order[n])],
                   depth + [PartitionPoint(tails, order[n].start) + 1])
  {}

  // ---------- the whole function ----------

  ghost predicate IsLongest(order: seq<Line>, c: seq<nat>) {
    Chain(order, c) && forall d | Chain(order, d) :: |d| <= |c|
  }

  ghost function OrderOf(lineIds: seq<nat>, lines: map<nat, Line>): seq<Line>
    requires forall id | id in lineIds :: id in lines
  {
    seq(|lineIds|, i requires 0 <= i < |lineIds| => lines[lineIds[i]])
  }

  /** The trusted ids are a subsequence of the input along a longest chain. */
  ghost predicate Trusted(lineIds: seq<nat>, lines: map<nat, Line>, trusted: seq<nat>)
    requires forall id | id in lineIds :: id in lines
  {
    exists c :: IsLongest(OrderOf(lineIds, lines), c) && |c| == |trusted|
                && forall k | 0 <= k < |c| :: trusted[k] == lineIds[c[k]]
  }

  /** The scan over all lines in order. */
  method ScanLines(lineIds: seq<nat>, lines: map<nat, Line>, ghost order: seq<Line>)
    returns (tails: seq<Tail>, predecessors: seq<Option<nat>>, ghost depth: seq<nat>)
    requires (forall id | id in lineIds :: id in lines) && order == OrderOf(lineIds, lines) && WellFormed(order)
    ensures Scanned(order, |order|, tails, predecessors, depth)
  {
    hide Scanned, WellFormed, NextTails, Predecessor;
    predecessors := seq(|lineIds|, _ => None);
    tails, depth := [], [];
    ScanStart(order, predecessors);
    for current := 0 to |lineIds|
      invariant Scanned(order, current, tails, predecessors, depth) && |predecessors| == |lineIds|
    {
      ScanStep(order, current, tails, predecessors, depth);
      var line := lines[lineIds[current]];
      assert line == order[current];
      ghost var deeper: nat := PartitionPoint(tails, line.start) + 1;
      predecessors := predecessors[current := Predecessor(tails, line)];
      depth := depth + [deeper];
      tails := NextTails(tails, line, current);
    }
  }

  method LongestRenderMonotoneSubsequence(lineIds: seq<nat>, lines: map<nat, Line>) returns (trusted: seq<nat>)
    requires forall id | id in lineIds :: id in lines && lines[id].start <= lines[id].end
    ensures Trusted(lineIds, lines, trusted)
  {
    ghost var order := OrderOf(lineIds, lines);
    ghost var c: seq<nat> := [];
    if lineIds == [] {
      LongestByTails(order, [], []);
      return [];
    }
    var tails, predecessors;
    ghost var depth;
    tails, predecessors, depth := ScanLines(lineIds, lines, order);
    trusted, c := WalkBack(lineIds, order, tails, predecessors, depth);
    LongestByTails(order, tails, c);
  }

  lemma LongestByTails(order: seq<Line>, tails: seq<Tail>, c: seq<nat>)
    requires Dominates(order, |order|, tails) && Chain(order, c) && |c| == |tails|
    ensures IsLongest(order, c)
  {
    forall d | Chain(order, d) ensures |d| <= |c| {
      assert d != [] ==> d[|d| - 1] < |order|;
    }
  }

  /** Follow the predecessors from the last tail, then turn the list around. */
  method WalkBack(lineIds: seq<nat>, ghost order: seq<Line>, tails: seq<Tail>, predecessors: seq<Option<nat>>,
                  ghost depth: seq<nat>)
    returns (trusted: seq<nat>, ghost c: seq<nat>)
    requires |lineIds| == |order| == |depth| == |predecessors| && tails != []
    requires TailsName(order, |order|, tails, depth) && Linked(order, |order|, predecessors, depth)
    ensures Chain(order, c) && |c| == |trusted| == |tails|
    ensures forall k | 0 <= k < |c| :: c[k] < |lineIds| && trusted[k] == lineIds[c[k]]
  {
    var cursor := tails[|tails| - 1].index;
    var walked: seq<nat> := [];
    c := [cursor];
    while true
      invariant c != [] && c[0] == cursor < |order| && Chain(order, c)
      invariant depth[cursor] + |c| - 1 == |tails|
      invariant |walked| == |c| - 1 && forall k | 0 <= k < |walked| :: walked[k] == lineIds[c[|c| - 1 - k]]
      decreases cursor
    {
      walked := walked + [lineIds[cursor]];
      if predecessors[cursor].None? {
        break;
      }
      cursor := predecessors[cursor].value;
      c := [cursor] + c;
    }
    trusted := seq(|walked|, k requires 0 <= k < |walked| => walked[|walked| - 1 - k]);
  }

}
