/** The visit statistics of a candidate query. */
module CandidateVisits {
  // Every n-gram of every old block is charged once for each new block containing it;
  // the code adds document frequency times occurrences per n-gram, in no particular
  // order, and the specification counts the n-grams shared by every pair of blocks. How
  // many n-grams carry half, and nine tenths, of the visits is a greedy count over
  // descending contributions, specified over all sub-multisets.

  import opened Basics
  import opened OrderStatistics
  import opened Sorting

  /** Visits an n-gram is charged, and its new-side document frequency. */
  datatype Contribution = Contribution(visits: nat, df: nat)

  function Visits(contributions: seq<Contribution>): (r: seq<nat>) {
    seq(|contributions|, i requires 0 <= i < |contributions| => contributions[i].visits)
  }

  function Dfs(contributions: seq<Contribution>): seq<nat> {
    seq(|contributions|, i requires 0 <= i < |contributions| => contributions[i].df)
  }

  function Sum(v: seq<nat>): nat {
    if v == [] then 0 else Sum(v[..|v| - 1]) + v[|v| - 1]
  }

  predicate Descending(v: seq<nat>) {
    forall i, j | 0 <= i <= j < |v| :: v[i] >= v[j]
  }

  // ---------- totals of multisets ----------

  ghost function Total(m: multiset<nat>): nat
    decreases |m|
  {
    if m == multiset{} then 0 else
      var x :| x in m;
      x + Total(m - multiset{x})
  }

  lemma OrderOfTaking(m: multiset<nat>, x: nat, y: nat)
    ensures m - multiset{y} - multiset{x} == m - multiset{x} - multiset{y}
  {}

  /** Any element may be taken out first. */
  lemma {:induction false} TotalWithout(m: multiset<nat>, x: nat)
    requires x in m
    ensures Total(m) == x + Total(m - multiset{x})
    decreases |m|
  {
    var y :| y in m && Total(m) == y + Total(m - multiset{y});
    if x != y {
      TotalWithout(m - multiset{y}, x);
      TotalWithout(m - multiset{x}, y);
      OrderOfTaking(m, x, y);
    }
  }

  lemma {:induction false} TotalOfSeq(v: seq<nat>)
    ensures Total(multiset(v)) == Sum(v)
  {
    if v != [] {
      var n := |v| - 1;
      TotalOfSeq(v[..n]);
      assert v == v[..n] + [v[n]];
      TotalWithout(multiset(v), v[n]);
      assert multiset(v) - multiset{v[n]} == multiset(v[..n]);
    }
  }

  lemma {:induction false} SumFront(v: seq<nat>)
    requires v != []
    ensures Sum(v) == v[0] + Sum(v[1..])
  {
    if |v| > 1 {
      var n := |v| - 1;
      SumFront(v[..n]);
      assert v[..n][1..] == v[1..][..n - 1];
      assert v[1..][n - 1] == v[n];
    }
  }

  // ---------- the specification ----------

  /** Some n of the contributions add up to the target. */
  ghost predicate Reaches(all: multiset<nat>, target: nat, n: nat) {
    exists pick: multiset<nat> :: pick <= all && |pick| == n && Total(pick) >= target
  }

  /** n is the least number of contributions that can add up to the target. */
  ghost predicate Fewest(all: multiset<nat>, target: nat, n: nat) {
    Reaches(all, target, n) && forall k: nat | k < n :: !Reaches(all, target, k)
  }

  /** With the first value out of both, or another out of the pick, the pick still fits. */
  lemma RestFits(v: seq<nat>, pick: multiset<nat>, y: nat)
    requires v != [] && pick <= multiset(v) && y in pick && (v[0] in pick ==> y == v[0])
    ensures pick - multiset{y} <= multiset(v[1..]) && y in v
  {
    assert v == [v[0]] + v[1..];
    assert multiset(v) == multiset{v[0]} + multiset(v[1..]);
  }

  /** No choice of k contributions exceeds the k largest. */
  lemma {:induction false} LargestFirst(v: seq<nat>, pick: multiset<nat>)
    requires Descending(v) && pick <= multiset(v)
    ensures |pick| <= |v| && Total(pick) <= Sum(v[..|pick|])
    decreases |v|
  {
    if v == [] {
      assert pick == multiset{};
    } else if pick != multiset{} {
      var y: nat :| y in pick && (v[0] in pick ==> y == v[0]);
      var rest := pick - multiset{y};
      RestFits(v, pick, y);
      LargestFirst(v[1..], rest);
      LargestStep(v, pick, y, rest);
    }
  }

  lemma LargestStep(v: seq<nat>, pick: multiset<nat>, y: nat, rest: multiset<nat>)
    requires Descending(v) && y in v && y in pick && rest == pick - multiset{y}
    requires |rest| < |v| && Total(rest) <= Sum(v[1..][..|rest|])
    ensures |pick| == |rest| + 1 && Total(pick) <= Sum(v[..|pick|])
  {
    TotalWithout(pick, y);
    FrontSum(v, |pick|);
  }

  lemma FrontSum(v: seq<nat>, k: nat)
    requires 0 < k <= |v|
    ensures Sum(v[..k]) == v[0] + Sum(v[1..][..k - 1])
  {
    SumFront(v[..k]);
    assert v[..k][1..] == v[1..][..k - 1];
  }

  lemma {:induction false} PrefixGrows(v: seq<nat>, i: nat, j: nat)
    requires i <= j <= |v|
    ensures Sum(v[..i]) <= Sum(v[..j])
  {
    if i < j {
      PrefixGrows(v, i, j - 1);
      assert v[..j][..j - 1] == v[..j - 1];
    }
  }

  lemma FrontReaches(v: seq<nat>, n: nat)
    requires n <= |v|
    ensures Reaches(multiset(v), Sum(v[..n]), n)
  {
    var front := v[..n];
    assert v == front + v[n..];
    TotalOfSeq(front);
    assert multiset(front) <= multiset(v) && |multiset(front)| == n;
  }

  lemma TooFew(v: seq<nat>, target: nat, n: nat, k: nat)
    requires Descending(v) && k < n <= |v| && Sum(v[..n - 1]) < target
    ensures !Reaches(multiset(v), target, k)
  {
    forall pick: multiset<nat> | pick <= multiset(v) && |pick| == k ensures Total(pick) < target {
      LargestFirst(v, pick);
      PrefixGrows(v, k, n - 1);
    }
  }

  /** The greedy answer: the first prefix of the descending order that reaches the target. */
  lemma FirstPrefixIsFewest(v: seq<nat>, target: nat, n: nat)
    requires Descending(v) && n <= |v| && Sum(v[..n]) >= target
    requires n > 0 ==> Sum(v[..n - 1]) < target
    ensures Fewest(multiset(v), target, n)
  {
    FrontReaches(v, n);
    forall k: nat | k < n ensures !Reaches(multiset(v), target, k) {
      TooFew(v, target, n, k);
    }
  }

  /** There is only one such number, so the counts do not depend on the order. */
  lemma FewestIsUnique(all: multiset<nat>, target: nat, n: nat, k: nat)
    requires Fewest(all, target, n) && Fewest(all, target, k)
    ensures n == k
  {}

  /** Half rounded up, and the whole less a tenth rounded down; the difference never saturates. */
  function Target50(total: nat): nat { (total + 1) / 2 }

  function Target90(total: nat): nat { if total / 10 <= total then total - total / 10 else 0 }

  /** Some n of the contributions carry that many tenths of the whole. */
  ghost predicate Carries(all: multiset<nat>, tenths: nat, n: nat) {
    exists pick: multiset<nat> :: pick <= all && |pick| == n && 10 * Total(pick) >= tenths * Total(all)
  }

  /** n is the least number of contributions that carry that many tenths of the whole. */
  ghost predicate FewestCarrying(all: multiset<nat>, tenths: nat, n: nat) {
    Carries(all, tenths, n) && forall k: nat | k < n :: !Carries(all, tenths, k)
  }

  lemma TargetsAreShares(total: nat, sum: nat)
    ensures sum >= Target50(total) <==> 10 * sum >= 5 * total
    ensures sum >= Target90(total) <==> 10 * sum >= 9 * total
  {}

  lemma ReachingIsCarrying(all: multiset<nat>, n: nat)
    ensures Reaches(all, Target50(Total(all)), n) <==> Carries(all, 5, n)
    ensures Reaches(all, Target90(Total(all)), n) <==> Carries(all, 9, n)
  {
    hide Target50, Target90;
    forall pick: multiset<nat> | pick <= all && |pick| == n
      ensures Total(pick) >= Target50(Total(all)) <==> 10 * Total(pick) >= 5 * Total(all)
      ensures Total(pick) >= Target90(Total(all)) <==> 10 * Total(pick) >= 9 * Total(all)
    {
      TargetsAreShares(Total(all), Total(pick));
    }
  }

  /** The two targets are half and nine tenths of the whole: the second leaves at most a tenth. */
  lemma TargetsMean(v: seq<nat>, n: nat)
    ensures Fewest(multiset(v), Target50(Sum(v)), n) <==> FewestCarrying(multiset(v), 5, n)
    ensures Fewest(multiset(v), Target90(Sum(v)), n) <==> FewestCarrying(multiset(v), 9, n)
  {
    hide Target50, Target90, Reaches, Carries;
    TotalOfSeq(v);
    forall k: nat
      ensures Reaches(multiset(v), Target50(Sum(v)), k) <==> Carries(multiset(v), 5, k)
      ensures Reaches(multiset(v), Target90(Sum(v)), k) <==> Carries(multiset(v), 9, k)
    {
      ReachingIsCarrying(multiset(v), k);
    }
  }

  /** A counter is set once, at the first index that reaches its target. */
  function Mark(n: nat, reached: bool, count: nat): nat {
    if n == 0 && reached then count else n
  }

  /** What a counter holds once `done` contributions are accumulated. */
  ghost predicate Counted(v: seq<nat>, target: nat, done: nat, n: nat) {
    && done <= |v| && n <= done
    && (n == 0 ==> Sum(v[..done]) < target)
    && (n > 0 ==> Sum(v[..n]) >= target && Sum(v[..n - 1]) < target)
  }

  lemma CountedStep(v: seq<nat>, target: nat, done: nat, n: nat)
    requires done < |v| && target > 0 && Counted(v, target, done, n)
    ensures Sum(v[..done + 1]) == Sum(v[..done]) + v[done]
    ensures Counted(v, target, done + 1, Mark(n, Sum(v[..done]) + v[done] >= target, done + 1))
  {
    assert v[..done + 1][..done] == v[..done];
  }

  /** Once everything is accumulated, or the counter is set, it is the least number. */
  lemma CountedEnd(v: seq<nat>, target: nat, done: nat, n: nat)
    requires Descending(v) && Counted(v, target, done, n) && target <= Sum(v) && (n > 0 || done == |v|)
    ensures n > 0 && Fewest(multiset(v), target, n)
  {
    assert v[..|v|] == v;
    FirstPrefixIsFewest(v, target, n);
  }

  lemma CountedOrder(v: seq<nat>, low: nat, high: nat, done: nat, n: nat, k: nat)
    requires Counted(v, low, done, n) && Counted(v, high, done, k) && low <= high && k > 0
    ensures n <= k
  {
    if k < n {
      PrefixGrows(v, k, n - 1);
    }
  }

  /** Both counters after `done` contributions. */
  ghost predicate BothCounted(v: seq<nat>, low: nat, high: nat, done: nat, accumulated: nat, n50: nat, n90: nat) {
    && done <= |v| && 0 < low <= high <= Sum(v) && accumulated == Sum(v[..done])
    && Counted(v, low, done, n50) && Counted(v, high, done, n90)
  }

  lemma BothStart(v: seq<nat>)
    requires Descending(v)
    ensures Sum(v) == 0 ==> Fewest(multiset(v), Target50(Sum(v)), 0) && Fewest(multiset(v), Target90(Sum(v)), 0)
    ensures Sum(v) > 0 ==> BothCounted(v, Target50(Sum(v)), Target90(Sum(v)), 0, 0, 0, 0)
  {
    if Sum(v) == 0 {
      FirstPrefixIsFewest(v, 0, 0);
    }
  }

  lemma BothStep(v: seq<nat>, low: nat, high: nat, done: nat, accumulated: nat, n50: nat, n90: nat)
    requires done < |v| && BothCounted(v, low, high, done, accumulated, n50, n90)
    ensures BothCounted(v, low, high, done + 1, accumulated + v[done],
              Mark(n50, accumulated + v[done] >= low, done + 1), Mark(n90, accumulated + v[done] >= high, done + 1))
  {
    CountedStep(v, low, done, n50);
    CountedStep(v, high, done, n90);
  }

  lemma BothEnd(v: seq<nat>, low: nat, high: nat, done: nat, accumulated: nat, n50: nat, n90: nat)
    requires Descending(v) && BothCounted(v, low, high, done, accumulated, n50, n90)
    requires done == |v| || (n50 > 0 && n90 > 0)
    ensures Fewest(multiset(v), low, n50) && Fewest(multiset(v), high, n90)
    ensures n50 <= n90 <= |v|
  {
    CountedEnd(v, low, done, n50);
    CountedEnd(v, high, done, n90);
    CountedOrder(v, low, high, done, n50, n90);
  }

  method CumulativeVisitCounts(byDescendingVisits: seq<Contribution>, totalPostingVisits: nat)
    returns (n50: nat, n90: nat)
    requires Descending(Visits(byDescendingVisits)) && totalPostingVisits == Sum(Visits(byDescendingVisits))
    ensures Fewest(multiset(Visits(byDescendingVisits)), Target50(totalPostingVisits), n50)
    ensures Fewest(multiset(Visits(byDescendingVisits)), Target90(totalPostingVisits), n90)
    ensures FewestCarrying(multiset(Visits(byDescendingVisits)), 5, n50)
    ensures FewestCarrying(multiset(Visits(byDescendingVisits)), 9, n90)
    ensures n50 <= n90 <= |byDescendingVisits|
  {
    hide FewestCarrying, Fewest, BothCounted, Descending, Sum, Target50, Target90, Mark;
    ghost var v := Visits(byDescendingVisits);
    BothStart(v);
    if totalPostingVisits == 0 {
      TargetsMean(v, 0);
      return 0, 0;
    }
    var target50 := Target50(totalPostingVisits);
    var target90 := Target90(totalPostingVisits);
    var accumulated: nat := 0;
    n50, n90 := 0, 0;
    var index: nat := 0;
    while index < |byDescendingVisits| && !(n50 > 0 && n90 > 0)
      invariant index <= |v| == |byDescendingVisits|
      invariant BothCounted(v, target50, target90, index, accumulated, n50, n90)
    {
      BothStep(v, target50, target90, index, accumulated, n50, n90);
      accumulated := accumulated + byDescendingVisits[index].visits;
      n50 := Mark(n50, accumulated >= target50, index + 1);
      n90 := Mark(n90, accumulated >= target90, index + 1);
      index := index + 1;
    }
    BothEnd(v, target50, target90, index, accumulated, n50, n90);
    TargetsMean(v, n50);
    TargetsMean(v, n90);
  }

  /** The ten largest contributions add up to the most that ten or fewer can. */
  lemma TopTen(v: seq<nat>, pick: multiset<nat>)
    requires Descending(v) && pick <= multiset(v) && |pick| <= 10
    ensures Total(pick) <= Sum(v[..if |v| < 10 then |v| else 10])
  {
    LargestFirst(v, pick);
    PrefixGrows(v, |pick|, if |v| < 10 then |v| else 10);
  }

  // ---------- posting visits ----------

  /** How many blocks contain g. */
  ghost function Df<T>(blocks: seq<set<T>>, g: T): nat {
    if blocks == [] then 0
    else Df(blocks[..|blocks| - 1], g) + if g in blocks[|blocks| - 1] then 1 else 0
  }

  /** The n-grams of all blocks. */
  ghost function Keys<T>(blocks: seq<set<T>>): set<T> {
    if blocks == [] then {} else Keys(blocks[..|blocks| - 1]) + blocks[|blocks| - 1]
  }

  /** The n-grams one block shares with each of the others, counted with repetition. */
  ghost function SharedWith<T>(block: set<T>, others: seq<set<T>>): nat {
    if others == [] then 0
    else SharedWith(block, others[..|others| - 1]) + |block * others[|others| - 1]|
  }

  ghost function SharedPairs<T>(olds: seq<set<T>>, news: seq<set<T>>): nat {
    if olds == [] then 0
    else SharedPairs(olds[..|olds| - 1], news) + SharedWith(olds[|olds| - 1], news)
  }

  // ---------- sums over finite sets ----------

  ghost function SumOver<T(!new)>(s: set<T>, f: T -> nat): nat
    decreases |s|
  {
    if s == {} then 0 else
      var x :| x in s;
      f(x) + SumOver(s - {x}, f)
  }

  lemma {:induction false} SumWithout<T(!new)>(s: set<T>, f: T -> nat, x: T)
    requires x in s
    ensures SumOver(s, f) == f(x) + SumOver(s - {x}, f)
    decreases |s|
  {
    var y :| y in s && SumOver(s, f) == f(y) + SumOver(s - {y}, f);
    if x != y {
      SumWithout(s - {y}, f, x);
      SumWithout(s - {x}, f, y);
      assert s - {y} - {x} == s - {x} - {y};
    }
  }

  lemma {:induction false} SumAdds<T(!new)>(s: set<T>, f: T -> nat, g: T -> nat, h: T -> nat)
    requires forall x | x in s :: h(x) == f(x) + g(x)
    ensures SumOver(s, h) == SumOver(s, f) + SumOver(s, g)
    decreases |s|
  {
    if s != {} {
      var x :| x in s;
      SumAdds(s - {x}, f, g, h);
      SumWithout(s, f, x);
      SumWithout(s, g, x);
      SumWithout(s, h, x);
    }
  }

  /** Elements with nothing to add may be left out. */
  lemma {:induction false} SumSupport<T(!new)>(s: set<T>, t: set<T>, f: T -> nat)
    requires s <= t && forall x | x in t && x !in s :: f(x) == 0
    ensures SumOver(s, f) == SumOver(t, f)
    decreases |t|
  {
    if s != t {
      var x :| x in t && x !in s;
      SumSupport(s, t - {x}, f);
      SumWithout(t, f, x);
    }
  }

  lemma {:induction false} SumCounts<T(!new)>(s: set<T>, c: set<T>, f: T -> nat)
    requires forall x | x in s :: f(x) == if x in c then 1 else 0
    ensures SumOver(s, f) == |s * c|
    decreases |s|
  {
    if s != {} {
      var x :| x in s;
      SumCounts(s - {x}, c, f);
      SumWithout(s, f, x);
      if x in c {
        assert s * c == (s - {x}) * c + {x};
      } else {
        assert s * c == (s - {x}) * c;
      }
    } else {
      assert s * c == {};
    }
  }

  lemma {:induction false} SumZero<T(!new)>(s: set<T>, f: T -> nat)
    requires forall x | x in s :: f(x) == 0
    ensures SumOver(s, f) == 0
  {
    SumSupport({}, s, f);
  }

  // ---------- double counting ----------

  ghost function Frequencies<T(!new)>(blocks: seq<set<T>>): T -> nat {
    g => Df(blocks, g)
  }

  ghost function Membership<T(!new)>(block: set<T>): T -> nat {
    g => if g in block then 1 else 0
  }

  lemma OneMoreBlock<T(!new)>(block: set<T>, blocks: seq<set<T>>, last: set<T>)
    ensures SumOver(block, Frequencies(blocks + [last])) == SumOver(block, Frequencies(blocks)) + |block * last|
  {
    assert (blocks + [last])[..|blocks|] == blocks;
    SumAdds(block, Frequencies(blocks), Membership(last), Frequencies(blocks + [last]));
    SumCounts(block, last, Membership(last));
  }

  /** What one old block is charged, new block by new block. */
  lemma {:induction false} BlockVisits<T(!new)>(block: set<T>, others: seq<set<T>>)
    ensures SumOver(block, Frequencies(others)) == SharedWith(block, others)
  {
    hide Frequencies;
    if others == [] {
      SumNone(block);
    } else {
      var n := |others| - 1;
      BlockVisits(block, others[..n]);
      OneMoreBlock(block, others[..n], others[n]);
      assert others == others[..n] + [others[n]];
    }
  }

  lemma SumNone<T(!new)>(block: set<T>)
    ensures SumOver(block, Frequencies<T>([])) == 0
  {
    SumZero(block, Frequencies<T>([]));
  }

  ghost function Charge<T(!new)>(olds: seq<set<T>>, news: seq<set<T>>): T -> nat {
    g => Df(news, g) * Df(olds, g)
  }

  lemma {:induction false} KeysAre<T(!new)>(blocks: seq<set<T>>, g: T)
    ensures g in Keys(blocks) <==> Df(blocks, g) > 0
  {
    if blocks != [] {
      KeysAre(blocks[..|blocks| - 1], g);
    }
  }

  /** What the last old block adds to the charge of g. */
  ghost function LastCharge<T(!new)>(last: set<T>, news: seq<set<T>>): T -> nat {
    g => if g in last then Df(news, g) else 0
  }

  lemma ChargeAdds<T(!new)>(olds: seq<set<T>>, news: seq<set<T>>, last: set<T>, g: T)
    ensures Charge(olds + [last], news)(g) == Charge(olds, news)(g) + LastCharge(last, news)(g)
  {
    var all := olds + [last];
    assert all[..|all| - 1] == olds;
    var df, n := Df(news, g), Df(olds, g);
    assert df * (n + 1) == df * n + df;
  }

  lemma LastBlock<T(!new)>(olds: seq<set<T>>, news: seq<set<T>>, last: set<T>)
    ensures SumOver(Keys(olds) + last, Charge(olds + [last], news))
      == SumOver(Keys(olds), Charge(olds, news)) + SharedWith(last, news)
  {
    var keys := Keys(olds) + last;
    forall g | g in keys ensures Charge(olds + [last], news)(g) == Charge(olds, news)(g) + LastCharge(last, news)(g) {
      ChargeAdds(olds, news, last, g);
    }
    SumAdds(keys, Charge(olds, news), LastCharge(last, news), Charge(olds + [last], news));
    forall g | g in keys && g !in Keys(olds) ensures Charge(olds, news)(g) == 0 {
      KeysAre(olds, g);
    }
    SumSupport(Keys(olds), keys, Charge(olds, news));
    SumSupport(last, keys, LastCharge(last, news));
    BlockVisits(last, news);
    SumSame(last, LastCharge(last, news), Frequencies(news));
  }

  /** Document frequency times occurrences, over all old n-grams, is what the pairs of blocks share. */
  lemma {:induction false} VisitsCountPairs<T(!new)>(olds: seq<set<T>>, news: seq<set<T>>)
    ensures SumOver(Keys(olds), Charge(olds, news)) == SharedPairs(olds, news)
  {
    if olds != [] {
      var n := |olds| - 1;
      VisitsCountPairs(olds[..n], news);
      LastBlock(olds[..n], news, olds[n]);
      assert olds == olds[..n] + [olds[n]];
    }
  }

  lemma {:induction false} SumSame<T(!new)>(s: set<T>, f: T -> nat, g: T -> nat)
    requires forall x | x in s :: f(x) == g(x)
    ensures SumOver(s, f) == SumOver(s, g)
    decreases |s|
  {
    if s != {} {
      var x :| x in s;
      SumSame(s - {x}, f, g);
      SumWithout(s, f, x);
      SumWithout(s, g, x);
    }
  }

  /** The charge is symmetric: swapping the sides moves no visit. */
  lemma {:induction false} SharedWithEach<T(!new)>(others: seq<set<T>>, blocks: seq<set<T>>, block: set<T>)
    ensures SharedPairs(others, blocks + [block]) == SharedPairs(others, blocks) + SharedWith(block, others)
  {
    if others != [] {
      var n := |others| - 1;
      SharedWithEach(others[..n], blocks, block);
      assert (blocks + [block])[..|blocks|] == blocks;
      assert others[n] * block == block * others[n];
    }
  }

  lemma {:induction false} PairsSymmetric<T(!new)>(a: seq<set<T>>, b: seq<set<T>>)
    ensures SharedPairs(a, b) == SharedPairs(b, a)
  {
    if b == [] {
      NothingShared(a);
    } else {
      var n := |b| - 1;
      PairsSymmetric(a, b[..n]);
      SharedWithEach(a, b[..n], b[n]);
      assert b == b[..n] + [b[n]];
    }
  }

  lemma {:induction false} NothingShared<T(!new)>(a: seq<set<T>>)
    ensures SharedPairs(a, []) == 0
  {
    if a != [] {
      NothingShared(a[..|a| - 1]);
    }
  }

  // ---------- the code ----------

  /** The map from each n-gram to the number of blocks containing it. */
  ghost predicate Counts<T(!new)>(blocks: seq<set<T>>, counts: map<T, nat>) {
    && counts.Keys == Keys(blocks)
    && forall g | g in counts :: counts[g] == Df(blocks, g)
  }

  /** Part of one more block has been counted. */
  ghost predicate CountsInto<T(!new)>(seen: seq<set<T>>, part: set<T>, counts: map<T, nat>) {
    && counts.Keys == Keys(seen) + part
    && forall g | g in counts :: counts[g] == Df(seen, g) + if g in part then 1 else 0
  }

  lemma CountsMore<T(!new)>(seen: seq<set<T>>, part: set<T>, counts: map<T, nat>, g: T)
    requires CountsInto(seen, part, counts) && g !in part
    ensures CountsInto(seen, part + {g}, counts[g := (if g in counts then counts[g] else 0) + 1])
  {
    KeysAre(seen, g);
  }

  method CountBlock<T(!new,==)>(ghost seen: seq<set<T>>, block: set<T>, before: map<T, nat>)
    returns (counts: map<T, nat>)
    requires Counts(seen, before)
    ensures Counts(seen + [block], counts)
  {
    counts := before;
    var rest := block;
    assert block - rest == {};
    while rest != {}
      invariant rest <= block && CountsInto(seen, block - rest, counts)
      decreases rest
    {
      var g :| g in rest;
      CountsMore(seen, block - rest, counts, g);
      TakeOne(block, rest, g);
      counts := counts[g := (if g in counts then counts[g] else 0) + 1];
      rest := rest - {g};
    }
    assert block - rest == block;
  }

  lemma TakeOne<T>(all: set<T>, rest: set<T>, g: T)
    requires rest <= all && g in rest
    ensures all - (rest - {g}) == (all - rest) + {g}
  {}

  method CountBlocks<T(!new,==)>(blocks: seq<set<T>>) returns (counts: map<T, nat>)
    ensures Counts(blocks, counts)
  {
    counts := map[];
    for k := 0 to |blocks|
      invariant Counts(blocks[..k], counts)
    {
      counts := CountBlock(blocks[..k], blocks[k], counts);
      assert blocks[..k + 1] == blocks[..k] + [blocks[k]];
    }
    assert blocks[..|blocks|] == blocks;
  }

  datatype Stats = Stats(total: nat, dominantVisits: nat, dominantDf: nat, contributions: seq<Contribution>)

  /** Exactly one contribution per n-gram found on both sides: its charge and its document frequency. */
  ghost predicate Lists<T(!new)>(olds: seq<set<T>>, news: seq<set<T>>, grams: seq<T>, done: set<T>,
                                 contributions: seq<Contribution>) {
    && |grams| == |contributions|
    && (forall i, j | 0 <= i < j < |grams| :: grams[i] != grams[j])
    && (forall g :: g in grams <==> g in done && Df(news, g) > 0)
    && forall i | 0 <= i < |grams| :: contributions[i] == Contribution(Charge(olds, news)(grams[i]), Df(news, grams[i]))
  }

  /** The largest charge, and among the n-grams with that charge the largest frequency. */
  ghost predicate Dominates<T(!new)>(olds: seq<set<T>>, news: seq<set<T>>, done: set<T>, visits: nat, df: nat) {
    && (forall g | g in done ::
          Charge(olds, news)(g) < visits
          || (Charge(olds, news)(g) == visits && Df(news, g) <= df))
    && ((visits == 0 && df == 0) || exists g :: g in done && Charge(olds, news)(g) == visits && Df(news, g) == df)
  }

  lemma SumMore(contributions: seq<Contribution>, c: Contribution)
    ensures Sum(Visits(contributions + [c])) == Sum(Visits(contributions)) + c.visits
  {
    assert Visits(contributions + [c])[..|contributions|] == Visits(contributions);
  }

  /** Everything known after the n-grams in `done` were visited. */
  ghost predicate Tallied<T(!new)>(olds: seq<set<T>>, news: seq<set<T>>, done: set<T>, grams: seq<T>, s: Stats) {
    && s.total == SumOver(done, Charge(olds, news)) == Sum(Visits(s.contributions))
    && Dominates(olds, news, done, s.dominantVisits, s.dominantDf)
    && Lists(olds, news, grams, done, s.contributions)
  }

  /** One more n-gram, as the loop body treats it. */
  function Visit(s: Stats, visits: nat, df: nat): Stats {
    var larger := visits > s.dominantVisits || (visits == s.dominantVisits && df > s.dominantDf);
    Stats(s.total + visits, if larger then visits else s.dominantVisits, if larger then df else s.dominantDf,
          if df > 0 then s.contributions + [Contribution(visits, df)] else s.contributions)
  }

  lemma TotalMore<T(!new)>(f: T -> nat, done: set<T>, g: T)
    requires g !in done
    ensures SumOver(done + {g}, f) == SumOver(done, f) + f(g)
  {
    SumWithout(done + {g}, f, g);
    assert done + {g} - {g} == done;
  }

  lemma ListedMore<T(!new)>(olds: seq<set<T>>, news: seq<set<T>>, done: set<T>, grams: seq<T>, s: Stats, g: T)
    requires Lists(olds, news, grams, done, s.contributions) && s.total == Sum(Visits(s.contributions)) && g !in done
    ensures var s' := Visit(s, Charge(olds, news)(g), Df(news, g));
      && Lists(olds, news, if Df(news, g) > 0 then grams + [g] else grams, done + {g}, s'.contributions)
      && s'.total == Sum(Visits(s'.contributions))
  {
    SumMore(s.contributions, Contribution(Charge(olds, news)(g), Df(news, g)));
    if Df(news, g) == 0 {
      assert Charge(olds, news)(g) == 0 * Df(olds, g) == 0;
    }
  }

  lemma TalliedMore<T(!new)>(olds: seq<set<T>>, news: seq<set<T>>, done: set<T>, grams: seq<T>, s: Stats, g: T)
    requires Tallied(olds, news, done, grams, s) && g !in done
    ensures Tallied(olds, news, done + {g}, if Df(news, g) > 0 then grams + [g] else grams,
                    Visit(s, Charge(olds, news)(g), Df(news, g)))
  {
    hide Lists, Dominates, SumOver;
    TotalMore(Charge(olds, news), done, g);
    ListedMore(olds, news, done, grams, s, g);
    DominatesMore(olds, news, done, s, g);
  }

  lemma DominatesMore<T(!new)>(olds: seq<set<T>>, news: seq<set<T>>, done: set<T>, s: Stats, g: T)
    requires Dominates(olds, news, done, s.dominantVisits, s.dominantDf)
    ensures var s' := Visit(s, Charge(olds, news)(g), Df(news, g));
      Dominates(olds, news, done + {g}, s'.dominantVisits, s'.dominantDf)
  {}

  lemma {:induction false} SumBounded<T(!new)>(s: set<T>, t: set<T>, f: T -> nat)
    requires s <= t
    ensures SumOver(s, f) <= SumOver(t, f)
    decreases |t|
  {
    if s != t {
      var x :| x in t && x !in s;
      SumBounded(s, t - {x}, f);
      SumWithout(t, f, x);
    }
  }

  /** An overflow anywhere means the whole total does not fit. */
  lemma OverflowIsReal<T(!new)>(olds: seq<set<T>>, news: seq<set<T>>, done: set<T>, g: T)
    requires done <= Keys(olds) && g in Keys(olds) && g !in done
    ensures SumOver(done, Charge(olds, news)) + Charge(olds, news)(g) <= SharedPairs(olds, news)
  {
    var f := Charge(olds, news);
    TotalMore(f, done, g);
    SumBounded(done + {g}, Keys(olds), f);
    VisitsCountPairs(olds, news);
  }

  lemma VisitOne<T(!new)>(olds: seq<set<T>>, news: seq<set<T>>, rest: set<T>, grams: seq<T>, s: Stats, g: T)
    requires rest <= Keys(olds) && Tallied(olds, news, Keys(olds) - rest, grams, s) && g in rest
    ensures Tallied(olds, news, Keys(olds) - (rest - {g}), if Df(news, g) > 0 then grams + [g] else grams,
              Visit(s, Charge(olds, news)(g), Df(news, g)))
    ensures s.total + Charge(olds, news)(g) <= SharedPairs(olds, news)
  {
    OverflowIsReal(olds, news, Keys(olds) - rest, g);
    TalliedMore(olds, news, Keys(olds) - rest, grams, s, g);
    TakeOne(Keys(olds), rest, g);
  }

  lemma VisitsDone<T(!new)>(olds: seq<set<T>>, news: seq<set<T>>, grams: seq<T>, s: Stats)
    requires Tallied(olds, news, Keys(olds) - {}, grams, s)
    ensures s.total == SharedPairs(olds, news) && Tallied(olds, news, Keys(olds), grams, s)
  {
    VisitsCountPairs(olds, news);
    assert Keys(olds) - {} == Keys(olds);
  }

  /** The charge of one n-gram, read from the two maps. */
  method ChargeOf<T(!new,==)>(ghost olds: seq<set<T>>, ghost news: seq<set<T>>, oldOccurrences: map<T, nat>,
                              newDf: map<T, nat>, g: T)
    returns (visits: nat, df: nat)
    requires Counts(olds, oldOccurrences) && Counts(news, newDf) && g in oldOccurrences
    ensures visits == Charge(olds, news)(g) && df == Df(news, g)
  {
    df := if g in newDf then newDf[g] else 0;
    KeysAre(news, g);
    visits := df * oldOccurrences[g];
  }

  /** Fails exactly when the posting visits overflow; the order in which the n-grams are met does not matter. */
  method NgramVisits<T(!new,==)>(olds: seq<set<T>>, news: seq<set<T>>) returns (r: Option<Stats>, ghost grams: seq<T>)
    ensures r.Some? <==> SharedPairs(olds, news) < USIZE
    ensures r.Some? ==> r.value.total == SharedPairs(olds, news) && Tallied(olds, news, Keys(olds), grams, r.value)
  {
    var newDf := CountBlocks(news);
    var oldOccurrences := CountBlocks(olds);
    var s := Stats(0, 0, 0, []);
    grams := [];
    var rest := oldOccurrences.Keys;
    while rest != {}
      invariant rest <= Keys(olds) && s.total < USIZE
      invariant Tallied(olds, news, Keys(olds) - rest, grams, s)
      decreases rest
    {
      var g :| g in rest;
      var visits, df := ChargeOf(olds, news, oldOccurrences, newDf, g);
      VisitOne(olds, news, rest, grams, s, g);
      if visits >= USIZE || s.total + visits >= USIZE {
        return None, grams;
      }
      s := Visit(s, visits, df);
      grams := if df > 0 then grams + [g] else grams;
      rest := rest - {g};
    }
    VisitsDone(olds, news, grams, s);
    r := Some(s);
  }

  /** The descending sort by visits. */
  predicate NoFewerVisits(x: Contribution, y: Contribution) { x.visits >= y.visits }

  lemma SortedDescends(contributions: seq<Contribution>)
    ensures var sorted := Sort(NoFewerVisits, contributions);
      && multiset(sorted) == multiset(contributions) && Descending(Visits(sorted))
      && multiset(Visits(sorted)) == multiset(Visits(contributions))
      && multiset(Dfs(sorted)) == multiset(Dfs(contributions))
  {
    SortKeeps(NoFewerVisits, contributions);
    SortSorts(NoFewerVisits, contributions);
    SortColumns(contributions);
  }

  lemma {:induction false} SortColumns(contributions: seq<Contribution>)
    ensures var sorted := Sort(NoFewerVisits, contributions);
      && multiset(Visits(sorted)) == multiset(Visits(contributions))
      && multiset(Dfs(sorted)) == multiset(Dfs(contributions))
  {
    if contributions != [] {
      var c, rest := contributions[0], contributions[1..];
      SortColumns(rest);
      InsertColumns(c, Sort(NoFewerVisits, rest));
      assert contributions == [c] + rest;
      FrontColumns(c, rest);
    }
  }

  lemma {:induction false} InsertColumns(c: Contribution, sorted: seq<Contribution>)
    ensures var more := Insert(NoFewerVisits, c, sorted);
      && multiset(Visits(more)) == multiset{c.visits} + multiset(Visits(sorted))
      && multiset(Dfs(more)) == multiset{c.df} + multiset(Dfs(sorted))
  {
    FrontColumns(c, sorted);
    if sorted != [] && !NoFewerVisits(c, sorted[0]) {
      var rest := sorted[1..];
      InsertColumns(c, rest);
      assert sorted == [sorted[0]] + rest;
      FrontColumns(sorted[0], rest);
      FrontColumns(sorted[0], Insert(NoFewerVisits, c, rest));
    }
  }

  lemma FrontColumns(c: Contribution, rest: seq<Contribution>)
    ensures multiset(Visits([c] + rest)) == multiset{c.visits} + multiset(Visits(rest))
    ensures multiset(Dfs([c] + rest)) == multiset{c.df} + multiset(Dfs(rest))
  {
    assert Visits([c] + rest) == [c.visits] + Visits(rest);
    assert Dfs([c] + rest) == [c.df] + Dfs(rest);
  }

  datatype Summary = Summary(stats: Stats, shared: nat, top10: nat, n50: nat, n90: nat,
                             dfP50: nat, dfP95: nat, dfMax: nat)

  /** No ten contributions add up to more. */
  ghost predicate IsTopTen(all: multiset<nat>, top: nat) {
    && (forall pick: multiset<nat> | pick <= all && |pick| <= 10 :: Total(pick) <= top)
    && exists pick: multiset<nat> :: pick <= all && |pick| <= 10 && Total(pick) == top
  }

  lemma FirstTenAreTop(v: seq<nat>)
    requires Descending(v)
    ensures IsTopTen(multiset(v), Sum(v[..if |v| < 10 then |v| else 10]))
  {
    var front := v[..if |v| < 10 then |v| else 10];
    assert v == front + v[|front|..];
    TotalOfSeq(front);
    forall pick: multiset<nat> | pick <= multiset(v) && |pick| <= 10 ensures Total(pick) <= Sum(front) {
      TopTen(v, pick);
    }
    assert multiset(front) <= multiset(v) && |multiset(front)| <= 10;
  }

  /** The summary of the visit distribution, whatever order the maps are read in. */
  method NgramVisitStats<T(!new,==)>(olds: seq<set<T>>, news: seq<set<T>>)
    returns (r: Option<Summary>, ghost grams: seq<T>)
    ensures r.Some? <==> SharedPairs(olds, news) < USIZE
    ensures r.Some? ==>
      && r.value.stats.total == SharedPairs(olds, news)
      && Tallied(olds, news, Keys(olds), grams, r.value.stats)
      && r.value.shared == |grams|
    ensures r.Some? ==>
      var all := multiset(Visits(r.value.stats.contributions));
      && IsTopTen(all, r.value.top10)
      && FewestCarrying(all, 5, r.value.n50)
      && FewestCarrying(all, 9, r.value.n90)
    ensures r.Some? ==>
      var dfs := Dfs(r.value.stats.contributions);
      && IsRoundedPercentile(dfs, 50, r.value.dfP50)
      && IsRoundedPercentile(dfs, 95, r.value.dfP95)
      && IsMaximum(multiset(dfs), r.value.dfMax)
  {
    var visits;
    visits, grams := NgramVisits(olds, news);
    if visits == None {
      return None, grams;
    }
    var stats := visits.value;
    var sorted := Sort(NoFewerVisits, stats.contributions);
    SortedDescends(stats.contributions);
    var v := Visits(sorted);
    TotalOfSeq(v);
    TotalOfSeq(Visits(stats.contributions));
    var n50, n90 := CumulativeVisitCounts(sorted, stats.total);
    FirstTenAreTop(v);
    var dfs := Dfs(sorted);
    RoundedPercentileMeaning(Dfs(stats.contributions), dfs, 50);
    RoundedPercentileMeaning(Dfs(stats.contributions), dfs, 95);
    var dfMax := Maximum(dfs);
    r := Some(Summary(stats, |sorted|, Sum(v[..if |v| < 10 then |v| else 10]), n50, n90,
                      RoundedPercentile(dfs, 50), RoundedPercentile(dfs, 95), dfMax));
    assert |multiset(sorted)| == |sorted|;
  }
}
