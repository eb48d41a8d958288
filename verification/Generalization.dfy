/** Scoring reported facts against annotated facts by one-to-one matching. */
module Generalization {
  import opened Basics
  import opened Matching

  const WORK_LIMIT: nat := 1_000_000
  type Group = seq<nat>

  datatype Dimension = Correspondence | ChangeUnit | DisplayRange | TextPosition | PixelRegion | Relation

  /** Operations, edge kinds, conventions and masks are only ever compared for
      equality, so they appear as opaque tokens. */
  datatype Fact =
    | RelationFact(relation: nat, oldEnds: (Group, Group), newEnds: (Group, Group), oldPresent: bool, newPresent: bool)
    | CorrespondenceFact(oldGroup: Group, newGroup: Group)
    | ChangeUnitFact(oldScope: Option<Group>, newScope: Option<Group>, operation: nat)
    | TextPositionFact(oldGroup: Group, newGroup: Group, convention: nat, oldSide: bool, position: nat)
    | DisplayRangeFact(oldGroup: Group, newGroup: Group, oldSide: bool, start: nat, end: nat)
    | PixelRegionFact(oldGroup: Group, newGroup: Group, mask: nat)

  /** A change unit may leave either side unannotated; everything else is equality. */
  predicate Accepts(expected: Fact, observed: Fact) {
    if expected.ChangeUnitFact? && observed.ChangeUnitFact? then
      && expected.operation == observed.operation
      && (expected.oldScope.None? || expected.oldScope == observed.oldScope)
      && (expected.newScope.None? || expected.newScope == observed.newScope)
    else expected == observed
  }

  /** The fact with its absent scopes, if it has any, filled in. */
  ghost function FilledIn(f: Fact, old': Option<Group>, new': Option<Group>): Fact {
    if f.ChangeUnitFact? then
      f.(oldScope := if f.oldScope.None? then old' else f.oldScope,
         newScope := if f.newScope.None? then new' else f.newScope)
    else f
  }

  /** A fact is accepted exactly when some way to fill in the absent scopes of the expected one gives it. */
  lemma AcceptsMeans(expected: Fact, observed: Fact)
    ensures Accepts(expected, observed) <==> exists old', new' :: FilledIn(expected, old', new') == observed
  {
    if Accepts(expected, observed) {
      if expected.ChangeUnitFact? {
        assert FilledIn(expected, observed.oldScope, observed.newScope) == observed;
      } else {
        assert FilledIn(expected, None, None) == observed;
      }
    }
  }

  predicate Scoped(f: Fact) {
    f.ChangeUnitFact? ==> f.oldScope.Some? && f.newScope.Some?
  }

  /** A scoped fact is one with nothing to fill in, so it accepts itself alone. */
  lemma ScopedMeans(f: Fact)
    ensures Scoped(f) <==> forall g :: Accepts(f, g) ==> g == f
  {
    if !Scoped(f) {
      var g := f.(oldScope := if f.oldScope.None? then Some([]) else f.oldScope,
                  newScope := if f.newScope.None? then Some([]) else f.newScope);
      assert Accepts(f, g) && g != f;
    }
  }

  // ---------- saturating work accounting ----------

  function TotalUnits(facts: seq<Fact>, units: Fact -> nat): nat {
    if facts == [] then 0 else TotalUnits(facts[..|facts| - 1], units) + units(facts[|facts| - 1])
  }

  function SatUnits(from: nat, facts: seq<Fact>, units: Fact -> nat): nat {
    if facts == [] then from else SatAdd(SatUnits(from, facts[..|facts| - 1], units), units(facts[|facts| - 1]))
  }

  function EdgeTotal(edges: Edges): nat {
    if edges == [] then 0 else EdgeTotal(edges[..|edges| - 1]) + |edges[|edges| - 1]|
  }

  function SatEdges(edges: Edges): nat {
    if edges == [] then 0 else SatAdd(SatEdges(edges[..|edges| - 1]), |edges[|edges| - 1]|)
  }

  function Cap(x: nat): nat { if x > USIZE_MAX then USIZE_MAX else x }

  lemma {:induction false} SatUnitsIsCapped(from: nat, facts: seq<Fact>, units: Fact -> nat)
    requires from <= USIZE_MAX
    ensures SatUnits(from, facts, units) == Cap(from + TotalUnits(facts, units))
  {
    if facts != [] {
      SatUnitsIsCapped(from, facts[..|facts| - 1], units);
    }
  }

  lemma {:induction false} SatEdgesIsCapped(edges: Edges)
    ensures SatEdges(edges) == Cap(EdgeTotal(edges))
  {
    if edges != [] {
      SatEdgesIsCapped(edges[..|edges| - 1]);
    }
  }

  lemma CappedProduct(x: nat, y: nat)
    ensures SatMul(Cap(x), Cap(y)) == Cap(x * y)
  {
    if x > USIZE_MAX && y > 0 {
      LargeProduct(x, y);
      LargeProduct(USIZE_MAX, Cap(y));
    } else if y > USIZE_MAX && x > 0 {
      LargeProduct(y, x);
      LargeProduct(USIZE_MAX, Cap(x));
    }
  }

  lemma LargeProduct(x: nat, y: nat)
    requires y > 0
    ensures x * y >= x && y * x >= x
  {
    assert x * y == x + x * (y - 1);
  }

  // ---------- edges and scores ----------

  /** The observed facts below n that the expected fact accepts, in order. */
  function AcceptedBelow(expected: Fact, observed: seq<Fact>, n: nat): (r: seq<nat>)
    requires n <= |observed|
    ensures forall k: nat :: k in r <==> k < n && Accepts(expected, observed[k])
  {
    if n == 0 then []
    else AcceptedBelow(expected, observed, n - 1) + if Accepts(expected, observed[n - 1]) then [n - 1] else []
  }

  function EdgesOf(expected: seq<Fact>, observed: seq<Fact>): (edges: Edges)
    ensures |edges| == |expected|
    ensures forall l: nat, r: nat :: IsEdge(edges, |observed|, l, r) <==>
              l < |expected| && r < |observed| && Accepts(expected[l], observed[r])
  {
    seq(|expected|, i requires 0 <= i < |expected| => AcceptedBelow(expected[i], observed, |observed|))
  }

  datatype AlternativeScore = AlternativeScore(truePositive: nat, falsePositive: nat, falseNegative: nat)

  /** The work charged before the edges are built, and after, without saturation. */
  function FirstWork(expected: seq<Fact>, observed: seq<Fact>, units: Fact -> nat): nat {
    (1 + TotalUnits(expected, units)) * (|observed| + 1) + TotalUnits(observed, units) * |expected|
  }

  function SecondWork(edges: Edges, expected: nat, observed: nat): nat {
    (EdgeTotal(edges) + expected + observed) * expected
  }

  lemma FirstChargeIsCapped(e: nat, o: nat, expected: nat, observed: nat)
    requires expected <= USIZE_MAX && observed <= USIZE_MAX
    ensures SatAdd(SatMul(Cap(e), SatAdd(observed, 1)), SatMul(Cap(o), expected))
      == Cap(e * (observed + 1) + o * expected)
  {
    var p, q := e * (observed + 1), o * expected;
    CappedProduct(e, observed + 1);
    CappedProduct(o, expected);
  }

  lemma SecondChargeIsCapped(total: nat, expected: nat, observed: nat)
    requires expected <= USIZE_MAX && observed <= USIZE_MAX
    ensures SatMul(SatAdd(SatAdd(Cap(total), expected), observed), expected)
      == Cap((total + expected + observed) * expected)
  {
    CappedProduct(total + expected + observed, expected);
  }

  function FirstCharge(expected: seq<Fact>, observed: seq<Fact>, units: Fact -> nat): (r: nat)
    requires |expected| <= USIZE_MAX && |observed| <= USIZE_MAX
    ensures r == Cap(FirstWork(expected, observed, units))
  {
    SatUnitsIsCapped(1, expected, units);
    SatUnitsIsCapped(0, observed, units);
    FirstChargeIsCapped(1 + TotalUnits(expected, units), TotalUnits(observed, units), |expected|, |observed|);
    SatAdd(SatMul(SatUnits(1, expected, units), SatAdd(|observed|, 1)),
           SatMul(SatUnits(0, observed, units), |expected|))
  }

  function SecondCharge(edges: Edges, expected: nat, observed: nat): (r: nat)
    requires expected <= USIZE_MAX && observed <= USIZE_MAX
    ensures r == Cap(SecondWork(edges, expected, observed))
  {
    SatEdgesIsCapped(edges);
    SecondChargeIsCapped(EdgeTotal(edges), expected, observed);
    SatMul(SatAdd(SatAdd(SatEdges(edges), expected), observed), expected)
  }

  ghost function ExactWork(expected: seq<Fact>, observed: seq<Fact>, units: Fact -> nat): nat {
    FirstWork(expected, observed, units) + SecondWork(EdgesOf(expected, observed), |expected|, |observed|)
  }

  ghost predicate ScoreMeans(expected: seq<Fact>, observed: seq<Fact>, s: AlternativeScore) {
    && IsMatchingNumber(EdgesOf(expected, observed), |observed|, s.truePositive)
    && s.truePositive + s.falsePositive == |observed|
    && s.truePositive + s.falseNegative == |expected|
  }

  /** Saturation never shows: scoring fails exactly when the true work passes the limit. */
  method Score(expected: seq<Fact>, observed: seq<Fact>, units: Fact -> nat, work: nat)
    returns (r: Option<AlternativeScore>, work': nat)
    requires |expected| <= USIZE_MAX && |observed| <= USIZE_MAX && work <= WORK_LIMIT
    ensures r.Some? <==> work + ExactWork(expected, observed, units) <= WORK_LIMIT
    ensures r.Some? ==> work' == work + ExactWork(expected, observed, units)
    ensures r.Some? ==> ScoreMeans(expected, observed, r.value)
    ensures r.None? ==> work' > WORK_LIMIT
  {
    work' := SatAdd(work, FirstCharge(expected, observed, units));
    if work' > WORK_LIMIT {
      return None, work';
    }
    var edges := EdgesOf(expected, observed);
    work' := SatAdd(work', SecondCharge(edges, |expected|, |observed|));
    if work' > WORK_LIMIT {
      return None, work';
    }
    var truePositive := MaximumCardinalityMatching(edges, |observed|);
    MatchingNumberMeaning(edges, |observed|, truePositive, map[]);
    r := Some(AlternativeScore(truePositive, |observed| - truePositive, |expected| - truePositive));
  }

  // ---------- what a perfect score certifies ----------

  /** f pairs every expected fact with its own observed fact, all observed facts are
      paired, and each pair is accepted. */
  ghost predicate AcceptingBijection(expected: seq<Fact>, observed: seq<Fact>, f: seq<nat>) {
    && |f| == |expected| == |observed|
    && (forall i | 0 <= i < |f| :: f[i] < |observed| && Accepts(expected[i], observed[f[i]]))
    && (forall i, j | 0 <= i < j < |f| :: f[i] != f[j])
    && (forall r: nat | r < |observed| :: r in f)
  }

  lemma PerfectScore(expected: seq<Fact>, observed: seq<Fact>, s: AlternativeScore)
    requires ScoreMeans(expected, observed, s)
    ensures s.falsePositive == 0 && s.falseNegative == 0 <==> exists f :: AcceptingBijection(expected, observed, f)
  {
    if s.falsePositive == 0 && s.falseNegative == 0 {
      MatchingNumberMeaning(EdgesOf(expected, observed), |observed|, s.truePositive, map[]);
      var m: map<nat, nat> :| IsMatching(EdgesOf(expected, observed), |observed|, m) && |m| == s.truePositive;
      var f := BijectionOf(expected, observed, m);
    }
    if f :| AcceptingBijection(expected, observed, f) {
      var m := MatchingOf(expected, observed, f);
      MatchingNumberMeaning(EdgesOf(expected, observed), |observed|, s.truePositive, m);
    }
  }

  lemma MatchingOf(expected: seq<Fact>, observed: seq<Fact>, f: seq<nat>) returns (m: map<nat, nat>)
    requires AcceptingBijection(expected, observed, f)
    ensures IsMatching(EdgesOf(expected, observed), |observed|, m) && |m| == |expected|
  {
    m := map i: nat | i < |f| :: f[i];
    assert m.Keys == Below(|f|);
  }

  ghost function Below(n: nat): (r: set<nat>)
    ensures forall k: nat :: k in r <==> k < n
    ensures |r| == n
  {
    if n == 0 then {} else Below(n - 1) + {n - 1}
  }

  /** A set of n numbers below n has them all. */
  lemma FullBelow(s: set<nat>, n: nat)
    requires (forall k | k in s :: k < n) && |s| >= n
    ensures forall k: nat | k < n :: k in s
  {
    FullSubset(s, Below(n));
  }

  ghost function Image(m: map<nat, nat>): set<nat> {
    set l | l in m :: m[l]
  }

  ghost predicate Injective(m: map<nat, nat>) {
    forall l, l' | l in m && l' in m && m[l] == m[l'] :: l == l'
  }

  ghost predicate CoversBelow(m: map<nat, nat>, n: nat) {
    forall k: nat | k < n :: k in m && k in Image(m)
  }

  /** An injective map of n pairs below n covers everything below n on both sides. */
  lemma Covers(m: map<nat, nat>, n: nat)
    requires forall l | l in m :: l < n && m[l] < n
    requires Injective(m) && |m| == n
    ensures CoversBelow(m, n)
  {
    FullBelow(m.Keys, n);
    InjectionCount(m.Keys, Image(m), m);
    FullBelow(Image(m), n);
  }

  ghost function Listed(m: map<nat, nat>, n: nat): (f: seq<nat>)
    requires CoversBelow(m, n)
    ensures |f| == n && forall k: nat | k < n :: f[k] == m[k]
  {
    seq(n, i requires 0 <= i < n => m[i])
  }

  lemma ListedCovers(m: map<nat, nat>, n: nat, r: nat)
    requires CoversBelow(m, n) && (forall l | l in m :: l < n) && r in Image(m)
    ensures r in Listed(m, n)
  {
    var l :| l in m && m[l] == r;
    assert Listed(m, n)[l] == r;
  }

  lemma MatchingBelow(expected: seq<Fact>, observed: seq<Fact>, m: map<nat, nat>)
    requires IsMatching(EdgesOf(expected, observed), |observed|, m)
    ensures forall l | l in m :: l < |expected| && m[l] < |observed| && Accepts(expected[l], observed[m[l]])
    ensures Injective(m)
  {
    forall l | l in m ensures l < |expected| && m[l] < |observed| && Accepts(expected[l], observed[m[l]]) {
      assert IsEdge(EdgesOf(expected, observed), |observed|, l, m[l]);
    }
  }

  lemma BijectionOf(expected: seq<Fact>, observed: seq<Fact>, m: map<nat, nat>) returns (f: seq<nat>)
    requires IsMatching(EdgesOf(expected, observed), |observed|, m) && |m| == |expected| == |observed|
    ensures AcceptingBijection(expected, observed, f)
  {
    hide Accepts, IsMatching, IsEdge, AcceptingBijection, Injective, CoversBelow;
    MatchingBelow(expected, observed, m);
    Covers(m, |expected|);
    f := Listed(m, |expected|);
    ListedAccepts(expected, observed, m);
  }

  lemma ListedAccepts(expected: seq<Fact>, observed: seq<Fact>, m: map<nat, nat>)
    requires |m| == |expected| == |observed|
    requires forall l | l in m :: l < |expected| && m[l] < |observed| && Accepts(expected[l], observed[m[l]])
    requires Injective(m) && CoversBelow(m, |expected|)
    ensures AcceptingBijection(expected, observed, Listed(m, |expected|))
  {
    hide Accepts, Image;
    var n := |expected|;
    var f := Listed(m, n);
    forall r: nat | r < n ensures r in f {
      ListedCovers(m, n, r);
    }
    forall i: nat | i < n ensures f[i] < |observed| && Accepts(expected[i], observed[f[i]]) {
      assert i in m && f[i] == m[i];
    }
    forall i: nat, j: nat | i < j < n ensures f[i] != f[j] {
      assert f[i] == m[i] && f[j] == m[j];
    }
  }

  lemma FullSubset(a: set<nat>, b: set<nat>)
    requires a <= b && |a| >= |b|
    ensures a == b
  {
    SubsetSize(a, b);
    if x :| x in b && x !in a {
      SubsetSize(a, b - {x});
    }
  }

  // ---------- facts scoped on both sides ----------

  /** The multiset of observed facts at the available indices below n. */
  ghost function Available(observed: seq<Fact>, indices: set<nat>, n: nat): multiset<Fact>
    requires n <= |observed|
  {
    if n == 0 then multiset{} else Available(observed, indices, n - 1) + Offer(observed, indices, n - 1)
  }

  /** The fact at index i, if the index is available. */
  ghost function Offer(observed: seq<Fact>, indices: set<nat>, i: nat): multiset<Fact>
    requires i < |observed|
  {
    if i in indices then multiset{observed[i]} else multiset{}
  }

  lemma {:induction false} AllAvailable(observed: seq<Fact>, indices: set<nat>, n: nat)
    requires n <= |observed| && forall k: nat | k < n :: k in indices
    ensures Available(observed, indices, n) == multiset(observed[..n])
  {
    if n > 0 {
      AllAvailable(observed, indices, n - 1);
      assert observed[..n] == observed[..n - 1] + [observed[n - 1]];
    }
  }

  /** Indices not below n do not matter. */
  lemma {:induction false} AvailableBelow(observed: seq<Fact>, indices: set<nat>, n: nat, r: nat)
    requires n <= |observed| && n <= r
    ensures Available(observed, indices, n) == Available(observed, indices - {r}, n)
  {
    hide Offer;
    if n > 0 {
      AvailableBelow(observed, indices, n - 1, r);
      OfferBelow(observed, indices, n - 1, r);
    }
  }

  lemma {:induction false} TakeAvailable(observed: seq<Fact>, indices: set<nat>, n: nat, r: nat)
    requires r < n <= |observed| && r in indices
    ensures Available(observed, indices, n) == Available(observed, indices - {r}, n) + multiset{observed[r]}
  {
    hide Offer;
    OfferTaken(observed, indices, n - 1, r);
    if r == n - 1 {
      AvailableBelow(observed, indices, n - 1, r);
    } else {
      TakeAvailable(observed, indices, n - 1, r);
    }
  }

  lemma AvailableMinus(observed: seq<Fact>, indices: set<nat>, r: nat)
    requires r < |observed| && r in indices
    ensures observed[r] in Available(observed, indices, |observed|)
    ensures Available(observed, indices, |observed|) - multiset{observed[r]}
      == Available(observed, indices - {r}, |observed|)
  {
    TakeAvailable(observed, indices, |observed|, r);
  }

  lemma OfferBelow(observed: seq<Fact>, indices: set<nat>, i: nat, r: nat)
    requires i < |observed| && i < r
    ensures Offer(observed, indices, i) == Offer(observed, indices - {r}, i)
  {}

  lemma OfferTaken(observed: seq<Fact>, indices: set<nat>, i: nat, r: nat)
    requires i < |observed| && r in indices
    ensures i != r ==> Offer(observed, indices, i) == Offer(observed, indices - {r}, i)
    ensures i == r ==>
      Offer(observed, indices, i) == multiset{observed[r]}
      && Offer(observed, indices - {r}, i) == multiset{}
  {}

  lemma {:induction false} FindAvailable(observed: seq<Fact>, indices: set<nat>, n: nat, v: Fact) returns (r: nat)
    requires n <= |observed| && v in Available(observed, indices, n)
    ensures r < n && r in indices && observed[r] == v
  {
    if n - 1 in indices && observed[n - 1] == v {
      r := n - 1;
    } else {
      r := FindAvailable(observed, indices, n - 1, v);
    }
  }

  /** How adding one element to one side changes a multiset intersection. */
  lemma MeetStep(x: multiset<Fact>, y: multiset<Fact>, v: Fact)
    ensures v in y ==> (x + multiset{v}) * y == x * (y - multiset{v}) + multiset{v}
    ensures v !in y ==> (x + multiset{v}) * y == x * y
    ensures |x * y| <= |(x + multiset{v}) * y|
  {
    if v in y {
      assert (x + multiset{v}) * y == x * (y - multiset{v}) + multiset{v};
    } else {
      assert (x + multiset{v}) * y == x * y;
    }
    assert x * y <= (x + multiset{v}) * y;
    var extra := (x + multiset{v}) * y - x * y;
    assert (x + multiset{v}) * y == x * y + extra;
  }

  /** Pairs equal facts at available indices, injectively, among the first n expected facts. */
  ghost predicate PairsEqual(expected: seq<Fact>, observed: seq<Fact>, n: nat, indices: set<nat>, m: map<nat, nat>)
    requires n <= |expected|
  {
    && (forall l | l in m :: l < n && m[l] in indices && m[l] < |observed| && expected[l] == observed[m[l]])
    && forall l, l' | l in m && l' in m && m[l] == m[l'] :: l == l'
  }

  lemma DropPair(expected: seq<Fact>, observed: seq<Fact>, n: nat, indices: set<nat>, m: map<nat, nat>)
    requires 0 < n <= |expected| && PairsEqual(expected, observed, n, indices, m) && n - 1 in m
    ensures PairsEqual(expected, observed, n - 1, indices - {m[n - 1]}, m - {n - 1})
    ensures |m| == |m - {n - 1}| + 1
  {
    assert (m - {n - 1}).Keys == m.Keys - {n - 1};
  }

  lemma {:induction false} EqualPairsUpper(expected: seq<Fact>, observed: seq<Fact>, n: nat, indices: set<nat>,
                                           m: map<nat, nat>)
    requires n <= |expected| && PairsEqual(expected, observed, n, indices, m)
    ensures |m| <= |multiset(expected[..n]) * Available(observed, indices, |observed|)|
  {
    hide Available;
    if n == 0 {
      assert m == map[];
    } else {
      var x, y, v := multiset(expected[..n - 1]), Available(observed, indices, |observed|), expected[n - 1];
      assert expected[..n] == expected[..n - 1] + [v];
      MeetStep(x, y, v);
      if n - 1 in m {
        var r := m[n - 1];
        AvailableMinus(observed, indices, r);
        DropPair(expected, observed, n, indices, m);
        EqualPairsUpper(expected, observed, n - 1, indices - {r}, m - {n - 1});
      } else {
        EqualPairsUpper(expected, observed, n - 1, indices, m);
      }
    }
  }

  lemma AddPair(expected: seq<Fact>, observed: seq<Fact>, n: nat, indices: set<nat>, rest: map<nat, nat>, r: nat)
    requires 0 < n <= |expected| && r in indices && r < |observed| && expected[n - 1] == observed[r]
    requires PairsEqual(expected, observed, n - 1, indices - {r}, rest)
    ensures PairsEqual(expected, observed, n, indices, rest[n - 1 := r]) && |rest[n - 1 := r]| == |rest| + 1
  {
    var m := rest[n - 1 := r];
    assert m.Keys == rest.Keys + {n - 1};
    assert forall l | l in rest :: l != n - 1 && m[l] == rest[l] != r;
  }

  lemma {:induction false} EqualPairsWitness(expected: seq<Fact>, observed: seq<Fact>, n: nat, indices: set<nat>)
    returns (m: map<nat, nat>)
    requires n <= |expected|
    ensures PairsEqual(expected, observed, n, indices, m)
    ensures |m| == |multiset(expected[..n]) * Available(observed, indices, |observed|)|
  {
    hide Available;
    if n == 0 {
      m := map[];
    } else {
      var x, y, v := multiset(expected[..n - 1]), Available(observed, indices, |observed|), expected[n - 1];
      assert expected[..n] == expected[..n - 1] + [v];
      MeetStep(x, y, v);
      if v in y {
        var r := FindAvailable(observed, indices, |observed|, v);
        AvailableMinus(observed, indices, r);
        var rest := EqualPairsWitness(expected, observed, n - 1, indices - {r});
        m := rest[n - 1 := r];
        AddPair(expected, observed, n, indices, rest, r);
      } else {
        m := EqualPairsWitness(expected, observed, n - 1, indices);
      }
    }
  }

  lemma ScopedEdges(expected: seq<Fact>, observed: seq<Fact>, m: map<nat, nat>)
    requires forall i | 0 <= i < |expected| :: Scoped(expected[i])
    ensures IsMatching(EdgesOf(expected, observed), |observed|, m)
       <==> PairsEqual(expected, observed, |expected|, Below(|observed|), m)
  {
    forall l: nat, r: nat ensures IsEdge(EdgesOf(expected, observed), |observed|, l, r)
                       <==> l < |expected| && r < |observed| && expected[l] == observed[r] {
      assert l < |expected| && r < |observed| ==> Scoped(expected[l]);
    }
  }

  /** For expected facts scoped on both sides, acceptance is equality and the
      true positives are the size of the multiset intersection. */
  lemma ScopedScore(expected: seq<Fact>, observed: seq<Fact>, s: AlternativeScore)
    requires ScoreMeans(expected, observed, s) && forall i | 0 <= i < |expected| :: Scoped(expected[i])
    ensures s.truePositive == |multiset(expected) * multiset(observed)|
  {
    var all := Below(|observed|);
    AllAvailable(observed, all, |observed|);
    assert expected[..|expected|] == expected && observed[..|observed|] == observed;
    var w := EqualPairsWitness(expected, observed, |expected|, all);
    ScopedEdges(expected, observed, w);
    MatchingNumberMeaning(EdgesOf(expected, observed), |observed|, s.truePositive, w);
    var m: map<nat, nat> :| IsMatching(EdgesOf(expected, observed), |observed|, m) && |m| == s.truePositive;
    ScopedEdges(expected, observed, m);
    EqualPairsUpper(expected, observed, |expected|, all, m);
  }

  // ---------- exactness of a whole evaluation ----------

  datatype DimensionScore = DimensionScore(dimension: Dimension, alternatives: seq<AlternativeScore>,
                                           inferredReports: nat)

  datatype GeneralizationScore = GeneralizationScore(dimensions: seq<DimensionScore>, comparisonComplete: bool)

  predicate Exact(score: GeneralizationScore) {
    && score.comparisonComplete
    && score.dimensions != []
    && forall d | 0 <= d < |score.dimensions| ::
         && score.dimensions[d].inferredReports == 0
         && exists a | 0 <= a < |score.dimensions[d].alternatives| ::
              score.dimensions[d].alternatives[a].falsePositive == 0
                && score.dimensions[d].alternatives[a].falseNegative == 0
  }

  /** The work of scoring the first n alternatives, each against the direct and the inferred reports. */
  ghost function WorkBelow(alternatives: seq<seq<Fact>>, observed: seq<Fact>, inferred: seq<Fact>, units: Fact -> nat,
                           n: nat): nat
    requires n <= |alternatives|
  {
    if n == 0 then 0
    else
      WorkBelow(alternatives, observed, inferred, units, n - 1)
      + ExactWork(alternatives[n - 1], observed, units) + ExactWork(alternatives[n - 1], inferred, units)
  }

  lemma {:induction false} WorkGrows(alternatives: seq<seq<Fact>>, observed: seq<Fact>, inferred: seq<Fact>,
                                     units: Fact -> nat, m: nat, n: nat)
    requires m <= n <= |alternatives|
    ensures WorkBelow(alternatives, observed, inferred, units, m)
      <= WorkBelow(alternatives, observed, inferred, units, n)
  {
    hide ExactWork;
    if m < n {
      WorkGrows(alternatives, observed, inferred, units, m, n - 1);
    }
  }

  /** Scores every alternative of one dimension against the direct and then the
      inferred reports, out of one work budget. */
  method ScoreAlternatives(alternatives: seq<seq<Fact>>, observed: seq<Fact>, inferred: seq<Fact>, units: Fact -> nat,
                           work: nat)
    returns (r: Option<(seq<AlternativeScore>, seq<AlternativeScore>)>, work': nat)
    requires |observed| <= USIZE_MAX && |inferred| <= USIZE_MAX
    requires forall a | 0 <= a < |alternatives| :: |alternatives[a]| <= USIZE_MAX
    requires work <= WORK_LIMIT
    ensures r.Some? <==> work + WorkBelow(alternatives, observed, inferred, units, |alternatives|) <= WORK_LIMIT
    ensures r.Some? ==> work' == work + WorkBelow(alternatives, observed, inferred, units, |alternatives|)
    ensures r.Some? ==> ScoredBy(alternatives, observed, r.value.0) && ScoredBy(alternatives, inferred, r.value.1)
  {
    hide ExactWork, ScoreMeans;
    var scores: seq<AlternativeScore>, inferredScores: seq<AlternativeScore> := [], [];
    work' := work;
    for a := 0 to |alternatives|
      invariant work' == work + WorkBelow(alternatives, observed, inferred, units, a) <= WORK_LIMIT
      invariant ScoredBy(alternatives[..a], observed, scores) && ScoredBy(alternatives[..a], inferred, inferredScores)
    {
      WorkGrows(alternatives, observed, inferred, units, a + 1, |alternatives|);
      var score;
      score, work' := Score(alternatives[a], observed, units, work');
      if score.None? {
        return None, work';
      }
      scores := scores + [score.value];
      score, work' := Score(alternatives[a], inferred, units, work');
      if score.None? {
        return None, work';
      }
      inferredScores := inferredScores + [score.value];
    }
    assert alternatives[..|alternatives|] == alternatives;
    r := Some((scores, inferredScores));
  }

  ghost predicate ScoredBy(alternatives: seq<seq<Fact>>, observed: seq<Fact>, scores: seq<AlternativeScore>) {
    |scores| == |alternatives| && forall a | 0 <= a < |scores| :: ScoreMeans(alternatives[a], observed, scores[a])
  }

  /** Some whole alternative is in acceptance-respecting bijection with the observations. */
  ghost predicate WhollyAccepted(alternatives: seq<seq<Fact>>, observed: seq<Fact>) {
    exists a, f :: 0 <= a < |alternatives| && AcceptingBijection(alternatives[a], observed, f)
  }

  /** Exactness means a complete comparison in which every annotated dimension
      has no inferred report and one alternative matched fact for fact. */
  lemma ExactMeans(score: GeneralizationScore, annotated: seq<seq<seq<Fact>>>, observed: seq<seq<Fact>>)
    requires |annotated| == |observed| == |score.dimensions|
    requires forall d | 0 <= d < |annotated| :: ScoredBy(annotated[d], observed[d], score.dimensions[d].alternatives)
    ensures Exact(score) <==>
      && score.comparisonComplete && annotated != []
      && forall d | 0 <= d < |annotated| ::
           score.dimensions[d].inferredReports == 0 && WhollyAccepted(annotated[d], observed[d])
  {
    forall d | 0 <= d < |annotated|
      ensures WhollyAccepted(annotated[d], observed[d]) <==>
        exists a | 0 <= a < |score.dimensions[d].alternatives| ::
          score.dimensions[d].alternatives[a].falsePositive == 0
            && score.dimensions[d].alternatives[a].falseNegative == 0
    {
      DimensionExact(annotated[d], observed[d], score.dimensions[d].alternatives);
    }
  }

  lemma DimensionExact(alternatives: seq<seq<Fact>>, observed: seq<Fact>, scores: seq<AlternativeScore>)
    requires ScoredBy(alternatives, observed, scores)
    ensures WhollyAccepted(alternatives, observed) <==>
      exists a | 0 <= a < |scores| :: scores[a].falsePositive == 0 && scores[a].falseNegative == 0
  {
    forall a | 0 <= a < |scores|
      ensures scores[a].falsePositive == 0 && scores[a].falseNegative == 0 <==>
        exists f :: AcceptingBijection(alternatives[a], observed, f)
    {
      PerfectScore(alternatives[a], observed, scores[a]);
    }
  }
}
