/** Maximum-cardinality bipartite matching by breadth-first augmenting paths. */
module Matching {
  import opened Basics

  type Edges = seq<seq<nat>>

  /** Left l may be matched to right r: a listed edge to a right that exists. */
  predicate IsEdge(edges: Edges, rights: nat, l: nat, r: nat) {
    l < |edges| && r < rights && r in edges[l]
  }

  /** A matching as a map from left to right, along edges and injective. */
  ghost predicate IsMatching(edges: Edges, rights: nat, m: map<nat, nat>) {
    && (forall l | l in m :: IsEdge(edges, rights, l, m[l]))
    && forall l, l' | l in m && l' in m && m[l] == m[l'] :: l == l'
  }

  /** A matching of lefts below n as large as every matching of lefts below n. */
  ghost predicate IsMaximum(edges: Edges, rights: nat, n: nat, m: map<nat, nat>) {
    && IsMatching(edges, rights, m)
    && (forall l | l in m :: l < n)
    && forall rival | IsMatching(edges, rights, rival) && (forall l | l in rival :: l < n) :: |rival| <= |m|
  }

  // ---------- counting ----------

  /** A set that maps injectively into another is no larger. */
  lemma {:induction false} InjectionCount(a: set<nat>, b: set<nat>, f: map<nat, nat>)
    requires a <= f.Keys
    requires forall x | x in a :: f[x] in b
    requires forall x, y | x in a && y in a && f[x] == f[y] :: x == y
    ensures |a| <= |b|
  {
    if a != {} {
      var x :| x in a;
      InjectionCount(a - {x}, b - {f[x]}, f);
    }
  }

  /** What a failed search leaves behind: the visited lefts, closed under edges
      into visited rights, all of which the matching sends back to visited lefts other than the root. */
  ghost predicate Blocked(edges: Edges, rights: nat, m: map<nat, nat>, root: nat, lefts: set<nat>, reached: set<nat>) {
    && root in lefts && root !in m
    && (forall l, r | l in lefts && IsEdge(edges, rights, l, r) :: r in reached)
    && (forall l | l in lefts && l != root :: l in m && m[l] in reached)
    && (forall r | r in reached :: exists l :: l in lefts && l in m && m[l] == r)
  }

  ghost function Owner(m: map<nat, nat>, lefts: set<nat>, r: nat): (l: nat)
    requires exists l :: l in lefts && l in m && m[l] == r
    ensures l in lefts && l in m && m[l] == r
  {
    var l :| l in lefts && l in m && m[l] == r;
    l
  }

  /** The rival's pairs whose right the search did not reach, plus the matching's own pairs inside. */
  ghost function Traded(m: map<nat, nat>, lefts: set<nat>, reached: set<nat>, rival: map<nat, nat>)
    : (other: map<nat, nat>)
    ensures forall l :: l in other <==> (l in m && l in lefts) || (l in rival && rival[l] !in reached)
    ensures forall l | l in other :: other[l] == if l in m && l in lefts then m[l] else rival[l]
  {
    (map l | l in rival && rival[l] !in reached :: rival[l]) + (map l | l in m && l in lefts :: m[l])
  }

  lemma TradedMatches(edges: Edges, rights: nat, m: map<nat, nat>, root: nat, lefts: set<nat>, reached: set<nat>,
                      rival: map<nat, nat>)
    requires IsMatching(edges, rights, m) && IsMatching(edges, rights, rival)
    requires Blocked(edges, rights, m, root, lefts, reached)
    ensures IsMatching(edges, rights, Traded(m, lefts, reached, rival))
  {
    var other := Traded(m, lefts, reached, rival);
    forall l | l in m && l in lefts ensures m[l] in reached {}
  }

  lemma ReachedCount(edges: Edges, rights: nat, m: map<nat, nat>, root: nat, lefts: set<nat>, reached: set<nat>)
    requires Blocked(edges, rights, m, root, lefts, reached)
    ensures |reached| <= |m.Keys * lefts|
  {
    var back := map r | r in reached :: Owner(m, lefts, r);
    InjectionCount(reached, m.Keys * lefts, back);
  }

  lemma TakenCount(rival: map<nat, nat>, reached: set<nat>)
    requires forall l, l' | l in rival && l' in rival && rival[l] == rival[l'] :: l == l'
    ensures |Taken(rival, reached)| <= |reached|
  {
    InjectionCount(Taken(rival, reached), reached, rival);
  }

  ghost function Outside(rival: map<nat, nat>, reached: set<nat>): set<nat> {
    set l | l in rival && rival[l] !in reached
  }

  ghost function Taken(rival: map<nat, nat>, reached: set<nat>): set<nat> {
    set l | l in rival && rival[l] in reached
  }

  lemma RivalCount(rival: map<nat, nat>, reached: set<nat>)
    ensures |rival| == |Outside(rival, reached)| + |Taken(rival, reached)|
  {
    assert rival.Keys == Outside(rival, reached) + Taken(rival, reached);
    assert Outside(rival, reached) !! Taken(rival, reached);
  }

  lemma TradedKeys(m: map<nat, nat>, lefts: set<nat>, reached: set<nat>, rival: map<nat, nat>)
    requires Outside(rival, reached) !! m.Keys * lefts
    ensures |Traded(m, lefts, reached, rival)| == |Outside(rival, reached)| + |m.Keys * lefts|
  {
    assert Traded(m, lefts, reached, rival).Keys == Outside(rival, reached) + m.Keys * lefts;
  }

  lemma TradedCount(edges: Edges, rights: nat, m: map<nat, nat>, root: nat, lefts: set<nat>, reached: set<nat>,
                    rival: map<nat, nat>)
    requires IsMatching(edges, rights, rival) && Blocked(edges, rights, m, root, lefts, reached)
    ensures |rival| <= |Traded(m, lefts, reached, rival)|
  {
    TakenCount(rival, reached);
    ReachedCount(edges, rights, m, root, lefts, reached);
    RivalCount(rival, reached);
    TradedKeys(m, lefts, reached, rival);
  }

  /** A blocked root adds nothing: the matching stays maximum with the root allowed. */
  lemma BlockedStaysMaximum(edges: Edges, rights: nat, m: map<nat, nat>, root: nat, lefts: set<nat>, reached: set<nat>)
    requires IsMaximum(edges, rights, root, m) && Blocked(edges, rights, m, root, lefts, reached)
    ensures IsMaximum(edges, rights, root + 1, m)
  {
    forall rival | IsMatching(edges, rights, rival) && forall l | l in rival :: l < root + 1
      ensures |rival| <= |m|
    {
      TradedMatches(edges, rights, m, root, lefts, reached, rival);
      TradedCount(edges, rights, m, root, lefts, reached, rival);
      forall l | l in Traded(m, lefts, reached, rival) ensures l < root {
        if l !in m {
          assert IsEdge(edges, rights, l, rival[l]);
        }
      }
    }
  }

  /** One more matched left is the most one more root can bring. */
  lemma AugmentedIsMaximum(edges: Edges, rights: nat, m: map<nat, nat>, m': map<nat, nat>, root: nat)
    requires IsMaximum(edges, rights, root, m) && IsMatching(edges, rights, m')
    requires m'.Keys == m.Keys + {root}
    ensures IsMaximum(edges, rights, root + 1, m')
    ensures |m'| == |m| + 1
  {
    OneMoreKey(m, m', root);
    forall rival | IsMatching(edges, rights, rival) && forall l | l in rival :: l < root + 1
      ensures |rival| <= |m'|
    {
      WithoutRoot(edges, rights, rival, root);
    }
  }

  lemma WithoutRoot(edges: Edges, rights: nat, rival: map<nat, nat>, root: nat)
    requires IsMatching(edges, rights, rival) && forall l | l in rival :: l < root + 1
    ensures IsMatching(edges, rights, rival - {root}) && forall l | l in rival - {root} :: l < root
    ensures |rival| <= |rival - {root}| + 1
  {
    assert (rival - {root}).Keys == rival.Keys - {root};
  }

  lemma OneMoreKey(m: map<nat, nat>, m': map<nat, nat>, root: nat)
    requires root !in m && m'.Keys == m.Keys + {root}
    ensures |m'| == |m| + 1
  {
    assert |m'.Keys| == |m.Keys| + 1;
  }

  // ---------- the two match arrays ----------

  type Matches = seq<Option<nat>>

  /** Left and right arrays are inverse to each other along real edges. */
  ghost predicate Inverse(edges: Edges, rights: nat, left: Matches, right: Matches) {
    && |left| == |edges| && |right| == rights
    && (forall l: nat | l < |left| && left[l].Some? ::
          IsEdge(edges, rights, l, left[l].value) && right[left[l].value] == Some(l))
    && (forall r: nat | r < |right| && right[r].Some? ::
          right[r].value < |left| && left[right[r].value] == Some(r))
  }

  ghost function MapOf(left: Matches): (m: map<nat, nat>)
    ensures forall l: nat :: l in m <==> l < |left| && left[l].Some?
    ensures forall l: nat | l in m :: m[l] == left[l].value
  {
    map l: nat | l < |left| && left[l].Some? :: left[l].value
  }

  lemma InverseIsMatching(edges: Edges, rights: nat, left: Matches, right: Matches)
    requires Inverse(edges, rights, left, right)
    ensures IsMatching(edges, rights, MapOf(left))
  {}

  // ---------- one breadth-first search ----------

  /** Every visited left but the root was reached through its own matched
      right, from a left visited earlier. */
  ghost predicate LeadsBack(left: Matches, root: nat, rank: map<nat, nat>, parent: Matches) {
    forall l | l in rank && l != root ::
      && l < |left| && left[l].Some? && left[l].value < |parent|
      && parent[left[l].value].Some?
      && parent[left[l].value].value in rank
      && rank[parent[left[l].value].value] < rank[l]
  }

  /** Every reached right hangs on an edge from a visited left. */
  ghost predicate Hangs(edges: Edges, rights: nat, rank: map<nat, nat>, parent: Matches) {
    forall r: nat | r < |parent| && parent[r].Some? :: parent[r].value in rank
      && IsEdge(edges, rights, parent[r].value, r)
  }

  /** The owner of every reached right is visited. */
  ghost predicate OwnersVisited(right: Matches, rank: map<nat, nat>, parent: Matches) {
    forall r: nat | r < |parent| && r < |right| && parent[r].Some? && right[r].Some? :: right[r].value in rank
  }

  /** The alternating tree grown from the root. rank orders the visited lefts by
      visit time; parent names, for every reached right, the left that reached it. */
  ghost predicate Tree(edges: Edges, rights: nat, left: Matches, right: Matches, root: nat,
                       rank: map<nat, nat>, parent: Matches)
  {
    && |parent| == rights && root in rank
    && (forall l | l in rank :: l < |edges| && rank[l] < |rank|)
    && LeadsBack(left, root, rank, parent)
    && Hangs(edges, rights, rank, parent)
    && OwnersVisited(right, rank, parent)
  }

  /** The ranks after reaching right r: its owner, if any and if new, comes last. */
  ghost function NextRank(right: Matches, rank: map<nat, nat>, r: nat): map<nat, nat>
    requires r < |right|
  {
    if right[r].Some? && right[r].value !in rank then rank[right[r].value := |rank|] else rank
  }

  /** Reaching one more right keeps the tree. */
  lemma TreeStep(edges: Edges, rights: nat, left: Matches, right: Matches, root: nat,
                 rank: map<nat, nat>, parent: Matches, l: nat, r: nat)
    requires Inverse(edges, rights, left, right)
    requires Tree(edges, rights, left, right, root, rank, parent)
    requires l in rank && IsEdge(edges, rights, l, r) && parent[r].None?
    ensures Tree(edges, rights, left, right, root, NextRank(right, rank, r), parent[r := Some(l)])
  {
    var rank', parent' := NextRank(right, rank, r), parent[r := Some(l)];
    assert Hangs(edges, rights, rank', parent');
    assert OwnersVisited(right, rank', parent');
  }

  /** The visited flags agree with the tree. */
  ghost predicate Flags(rank: map<nat, nat>, parent: Matches, visitedLeft: seq<bool>, visitedRight: seq<bool>) {
    && |visitedRight| == |parent|
    && (forall r: nat | r < |parent| :: visitedRight[r] <==> parent[r].Some?)
    && (forall l: nat | l < |visitedLeft| :: visitedLeft[l] <==> l in rank)
  }

  /** The queue holds, without repetition, the visited lefts not yet scanned. */
  ghost predicate Waiting(queue: seq<nat>, rank: map<nat, nat>, scanned: set<nat>) {
    && (forall i, j | 0 <= i < j < |queue| :: queue[i] != queue[j])
    && (forall l :: l in queue <==> l in rank && l !in scanned)
    && scanned <= rank.Keys
  }

  /** Every edge of the scanned lefts leads to a reached right. */
  ghost predicate Scanned(edges: Edges, rights: nat, lefts: set<nat>, parent: Matches) {
    forall l: nat, r: nat | l in lefts && IsEdge(edges, rights, l, r) :: r < |parent| && parent[r].Some?
  }

  ghost predicate ReachedMatched(right: Matches, parent: Matches) {
    forall r: nat | r < |right| && r < |parent| && parent[r].Some? :: right[r].Some?
  }

  /** The state of a search that has met no free right yet. */
  ghost predicate Searching(edges: Edges, rights: nat, left: Matches, right: Matches, root: nat, rank: map<nat, nat>,
                            parent: Matches, visitedLeft: seq<bool>, visitedRight: seq<bool>, queue: seq<nat>,
                            scanned: set<nat>)
  {
    && |visitedLeft| == |edges|
    && Inverse(edges, rights, left, right)
    && Tree(edges, rights, left, right, root, rank, parent)
    && Flags(rank, parent, visitedLeft, visitedRight)
    && Waiting(queue, rank, scanned)
    && ReachedMatched(right, parent)
  }

  /** Reaching an owned right flags it and queues its owner unless already flagged. */
  lemma ReachOwned(edges: Edges, rights: nat, left: Matches, right: Matches, root: nat, rank: map<nat, nat>,
                   parent: Matches,
                   visitedLeft: seq<bool>, visitedRight: seq<bool>, queue: seq<nat>, scanned: set<nat>, l: nat, r: nat)
    requires Searching(edges, rights, left, right, root, rank, parent, visitedLeft, visitedRight, queue, scanned)
    requires l in rank && IsEdge(edges, rights, l, r) && parent[r].None? && right[r].Some?
    ensures var owner := right[r].value;
      Searching(edges, rights, left, right, root, NextRank(right, rank, r), parent[r := Some(l)],
                visitedLeft[owner := true], visitedRight[r := true],
                if visitedLeft[owner] then queue else queue + [owner], scanned)
  {
    TreeStep(edges, rights, left, right, root, rank, parent, l, r);
    FlagStep(rank, parent, visitedLeft, visitedRight, right[r].value, l, r);
    QueueStep(queue, rank, NextRank(right, rank, r), scanned, right[r].value, visitedLeft[right[r].value]);
  }

  lemma FlagStep(rank: map<nat, nat>, parent: Matches, visitedLeft: seq<bool>, visitedRight: seq<bool>, owner: nat,
                 l: nat, r: nat)
    requires Flags(rank, parent, visitedLeft, visitedRight) && r < |parent| && owner < |visitedLeft|
    ensures forall rank': map<nat, nat> | rank'.Keys == rank.Keys + {owner} ::
              Flags(rank', parent[r := Some(l)], visitedLeft[owner := true], visitedRight[r := true])
  {}

  lemma QueueStep(queue: seq<nat>, rank: map<nat, nat>, rank': map<nat, nat>, scanned: set<nat>, owner: nat,
                  known: bool)
    requires Waiting(queue, rank, scanned)
    requires rank'.Keys == rank.Keys + {owner} && (known <==> owner in rank)
    ensures Waiting(if known then queue else queue + [owner], rank', scanned)
  {
    if !known {
      assert owner !in queue;
    }
  }

  /** The first e listed rights that exist are reached. */
  ghost predicate ListReached(list: seq<nat>, e: nat, rights: nat, parent: Matches) {
    forall k | 0 <= k < e && k < |list| && list[k] < rights :: list[k] < |parent| && parent[list[k]].Some?
  }

  lemma ReachedGrows(edges: Edges, rights: nat, lefts: set<nat>, list: seq<nat>, e: nat, parent: Matches, l: nat,
                     r: nat)
    requires Scanned(edges, rights, lefts, parent) && ListReached(list, e, rights, parent)
    requires e < |list| && list[e] == r < |parent|
    ensures Scanned(edges, rights, lefts, parent[r := Some(l)])
    ensures ListReached(list, e + 1, rights, parent[r := Some(l)])
  {}

  lemma AllReached(edges: Edges, rights: nat, scanned: set<nat>, parent: Matches, l: nat)
    requires Scanned(edges, rights, scanned - {l}, parent) && l < |edges|
    requires ListReached(edges[l], |edges[l]|, rights, parent)
    ensures Scanned(edges, rights, scanned, parent)
  {
    forall l': nat, r: nat | l' in scanned && IsEdge(edges, rights, l', r)
      ensures r < |parent| && parent[r].Some?
    {
      if l' != l {
        assert l' in scanned - {l};
      }
    }
  }

  /** The for-loop over one left's edges: reach every new right, queue its owner,
      or stop at a right that nobody owns. */
  method ScanEdges(edges: Edges, rights: nat, rightMatch: Matches, l: nat, queue: seq<nat>,
                   visitedLeft: seq<bool>, visitedRight: seq<bool>, rightParent: Matches,
                   ghost leftMatch: Matches, ghost root: nat, ghost rank: map<nat, nat>, ghost scanned: set<nat>)
    returns (queue': seq<nat>, visitedLeft': seq<bool>, visitedRight': seq<bool>, parent: Matches,
             free: Option<nat>, ghost rank': map<nat, nat>)
    requires Searching(edges, rights, leftMatch, rightMatch, root, rank, rightParent, visitedLeft, visitedRight, queue,
                       scanned)
    requires l in scanned && Scanned(edges, rights, scanned - {l}, rightParent)
    ensures free.None? ==>
      && Searching(edges, rights, leftMatch, rightMatch, root, rank', parent, visitedLeft', visitedRight', queue',
                   scanned)
      && Scanned(edges, rights, scanned, parent)
    ensures free.Some? ==>
      && Tree(edges, rights, leftMatch, rightMatch, root, rank', parent)
      && free.value < |rightMatch| && free.value < |parent| && rightMatch[free.value].None? && parent[free.value].Some?
  {
    queue', visitedLeft', visitedRight', parent, rank' := queue, visitedLeft, visitedRight, rightParent, rank;
    free := None;
    for e := 0 to |edges[l]|
      invariant Searching(edges, rights, leftMatch, rightMatch, root, rank', parent, visitedLeft', visitedRight',
                          queue', scanned)
      invariant Scanned(edges, rights, scanned - {l}, parent)
      invariant ListReached(edges[l], e, rights, parent)
    {
      var r := edges[l][e];
      if r >= rights || visitedRight'[r] {
        continue;
      }
      ReachedGrows(edges, rights, scanned - {l}, edges[l], e, parent, l, r);
      if rightMatch[r].Some? {
        var nextLeft := rightMatch[r].value;
        ReachOwned(edges, rights, leftMatch, rightMatch, root, rank', parent, visitedLeft', visitedRight', queue',
                   scanned, l, r);
        rank' := NextRank(rightMatch, rank', r);
        visitedRight' := visitedRight'[r := true];
        parent := parent[r := Some(l)];
        if !visitedLeft'[nextLeft] {
          queue' := queue' + [nextLeft];
        }
        visitedLeft' := visitedLeft'[nextLeft := true];
      } else {
        TreeStep(edges, rights, leftMatch, rightMatch, root, rank', parent, l, r);
        rank' := NextRank(rightMatch, rank', r);
        visitedRight' := visitedRight'[r := true];
        parent := parent[r := Some(l)];
        free := Some(r);
        return;
      }
    }
    AllReached(edges, rights, scanned, parent, l);
  }

  ghost function Reached(parent: Matches): set<nat> {
    set r: nat | r < |parent| && parent[r].Some?
  }

  /** Breadth-first search for an augmenting path from an unmatched root: either
      a free right with the tree that leads back from it, or proof that there is none. */
  method Search(edges: Edges, rights: nat, root: nat, rightMatch: Matches, ghost leftMatch: Matches)
    returns (free: Option<nat>, parent: Matches, ghost rank: map<nat, nat>)
    requires root < |edges| && Inverse(edges, rights, leftMatch, rightMatch) && leftMatch[root].None?
    ensures free.Some? ==>
      && Tree(edges, rights, leftMatch, rightMatch, root, rank, parent)
      && free.value < |rightMatch| && free.value < |parent| && rightMatch[free.value].None? && parent[free.value].Some?
    ensures free.None? ==> Blocked(edges, rights, MapOf(leftMatch), root, rank.Keys, Reached(parent))
  {
    var queue := [root];
    var visitedLeft := seq(|edges|, l => l == root);
    var visitedRight := seq(rights, _ => false);
    parent := seq(rights, _ => None);
    rank := map[root := 0];
    free := None;
    ghost var scanned: set<nat> := {};
    SearchStart(edges, rights, leftMatch, rightMatch, root, visitedLeft, visitedRight, parent);
    while queue != []
      invariant free.None?
      invariant Searching(edges, rights, leftMatch, rightMatch, root, rank, parent, visitedLeft, visitedRight, queue,
                          scanned)
      invariant Scanned(edges, rights, scanned, parent)
      decreases |edges| - |scanned|
    {
      var l := queue[0];
      ghost var next := scanned + {l};
      PopQueue(edges, rights, leftMatch, rightMatch, root, rank, parent, visitedLeft, visitedRight, queue, scanned);
      assert next - {l} == scanned;
      queue, visitedLeft, visitedRight, parent, free, rank :=
        ScanEdges(edges, rights, rightMatch, l, queue[1..], visitedLeft, visitedRight, parent, leftMatch, root, rank,
                  next);
      scanned := next;
      if free.Some? {
        return;
      }
    }
  }

  lemma SearchStart(edges: Edges, rights: nat, left: Matches, right: Matches, root: nat,
                    visitedLeft: seq<bool>, visitedRight: seq<bool>, parent: Matches)
    requires root < |edges| && Inverse(edges, rights, left, right)
    requires |visitedLeft| == |edges| && forall l: nat | l < |edges| :: visitedLeft[l] <==> l == root
    requires |visitedRight| == |parent| == rights && forall r: nat | r < rights :: !visitedRight[r] && parent[r].None?
    ensures Searching(edges, rights, left, right, root, map[root := 0], parent, visitedLeft, visitedRight, [root], {})
  {
    assert |map[root := 0]| == 1;
  }

  /** Fewer scanned lefts than lefts, so the queue runs dry. */
  lemma {:induction false} BelowCount(s: set<nat>, n: nat)
    requires forall l | l in s :: l < n
    ensures |s| <= n
  {
    if n == 0 {
      assert s == {};
    } else {
      BelowCount(s - {n - 1}, n - 1);
    }
  }

  lemma PopQueue(edges: Edges, rights: nat, left: Matches, right: Matches, root: nat, rank: map<nat, nat>,
                 parent: Matches,
                 visitedLeft: seq<bool>, visitedRight: seq<bool>, queue: seq<nat>, scanned: set<nat>)
    requires queue != []
    requires Searching(edges, rights, left, right, root, rank, parent, visitedLeft, visitedRight, queue, scanned)
    ensures queue[0] !in scanned
    ensures Searching(edges, rights, left, right, root, rank, parent, visitedLeft, visitedRight, queue[1..],
                      scanned + {queue[0]})
    ensures |scanned + {queue[0]}| == |scanned| + 1 <= |edges|
  {
    BelowCount(scanned + {queue[0]}, |edges|);
  }

  // ---------- augmenting along the tree ----------

  /** Mid-flip: the arrays are inverse except for the right about to be
      reassigned, which no left claims and whose own entry may be stale. */
  ghost predicate Flipping(edges: Edges, rights: nat, left: Matches, right: Matches, pending: nat) {
    && |left| == |edges| && |right| == rights && pending < rights
    && (forall l: nat | l < |left| && left[l].Some? ::
          left[l].value != pending && IsEdge(edges, rights, l, left[l].value) && right[left[l].value] == Some(l))
    && (forall r: nat | r < |right| && r != pending && right[r].Some? ::
          right[r].value < |left| && left[right[r].value] == Some(r))
  }

  /** Lefts visited no later than the given one still have their matches from before the flip. */
  ghost predicate EarlierUntouched(left: Matches, original: Matches, rank: map<nat, nat>, bound: nat) {
    && |left| == |original|
    && (forall l: nat | l < |left| :: left[l].Some? <==> original[l].Some?)
    && forall l | l in rank && l < |left| && rank[l] <= bound :: left[l] == original[l]
  }

  /** The state of the flip loop over a tree grown on the original left array. */
  ghost predicate MidFlip(edges: Edges, rights: nat, original: Matches, rank: map<nat, nat>, parent: Matches,
                          left: Matches, right: Matches, pending: nat)
  {
    && Flipping(edges, rights, left, right, pending)
    && pending < |parent| && parent[pending].Some? && parent[pending].value in rank
    && EarlierUntouched(left, original, rank, rank[parent[pending].value])
  }

  /** One reassignment: the pending right goes to its tree parent, whose previous
      right becomes pending one level closer to the root. */
  lemma FlipStep(edges: Edges, rights: nat, original: Matches, rank: map<nat, nat>, parent: Matches,
                 left: Matches, right: Matches, pending: nat, l: nat, previous: nat)
    requires MidFlip(edges, rights, original, rank, parent, left, right, pending)
    requires parent[pending] == Some(l) && IsEdge(edges, rights, l, pending) && left[l] == Some(previous)
    requires previous < |parent| && parent[previous].Some? && parent[previous].value in rank
    requires rank[parent[previous].value] < rank[l]
    ensures MidFlip(edges, rights, original, rank, parent, left[l := Some(pending)], right[pending := Some(l)],
                    previous)
  {}

  /** The last reassignment reaches the root, which was unmatched: the arrays are
      inverse again and the root is the one newly matched left. */
  lemma FlipEnd(edges: Edges, rights: nat, original: Matches, rank: map<nat, nat>, parent: Matches,
                left: Matches, right: Matches, pending: nat, l: nat)
    requires MidFlip(edges, rights, original, rank, parent, left, right, pending)
    requires parent[pending] == Some(l) && IsEdge(edges, rights, l, pending) && left[l].None?
    ensures Inverse(edges, rights, left[l := Some(pending)], right[pending := Some(l)])
    ensures MapOf(left[l := Some(pending)]).Keys == MapOf(original).Keys + {l}
  {}

  /** Flip the matches along the tree from the free right back to the root. */
  method Flip(edges: Edges, rights: nat, root: nat, free: nat, parent: Matches, ghost rank: map<nat, nat>,
              leftMatch: array<Option<nat>>, rightMatch: array<Option<nat>>)
    requires leftMatch != rightMatch
    requires Inverse(edges, rights, leftMatch[..], rightMatch[..]) && root < |edges| && leftMatch[root].None?
    requires Tree(edges, rights, leftMatch[..], rightMatch[..], root, rank, parent)
    requires free < rights && rightMatch[..][free].None? && parent[free].Some?
    modifies leftMatch, rightMatch
    ensures Inverse(edges, rights, leftMatch[..], rightMatch[..])
    ensures MapOf(leftMatch[..]).Keys == MapOf(old(leftMatch[..])).Keys + {root}
  {
    ghost var original, originalRight := leftMatch[..], rightMatch[..];
    var right: nat := free;
    while true
      invariant MidFlip(edges, rights, original, rank, parent, leftMatch[..], rightMatch[..], right)
      decreases rank[parent[right].value]
    {
      ghost var lefts, rights' := leftMatch[..], rightMatch[..];
      var left := parent[right].value;
      assert lefts[left] == original[left];
      var previousRight := leftMatch[left];
      if previousRight.Some? {
        FlipStep(edges, rights, original, rank, parent, lefts, rights', right, left, previousRight.value);
      } else {
        FlipEnd(edges, rights, original, rank, parent, lefts, rights', right, left);
      }
      leftMatch[left] := Some(right);
      rightMatch[right] := Some(left);
      assert leftMatch[..] == lefts[left := Some(right)] && rightMatch[..] == rights'[right := Some(left)];
      if previousRight.None? {
        break;
      }
      right := previousRight.value;
    }
  }

  // ---------- the matching ----------

  /** The size of a largest matching that uses only rights below rightCount. */
  ghost predicate IsMatchingNumber(edges: Edges, rights: nat, n: nat) {
    exists m :: IsMaximum(edges, rights, |edges|, m) && |m| == n
  }

  /** One turn of the root loop: search from the root and flip the path, if there is one. */
  method MatchRoot(edges: Edges, rightCount: nat, root: nat, leftMatch: array<Option<nat>>,
                   rightMatch: array<Option<nat>>)
    returns (found: bool)
    requires leftMatch != rightMatch && root < |edges|
    requires Inverse(edges, rightCount, leftMatch[..], rightMatch[..])
    requires IsMaximum(edges, rightCount, root, MapOf(leftMatch[..]))
    modifies leftMatch, rightMatch
    ensures Inverse(edges, rightCount, leftMatch[..], rightMatch[..])
    ensures IsMaximum(edges, rightCount, root + 1, MapOf(leftMatch[..]))
    ensures |MapOf(leftMatch[..])| == |MapOf(old(leftMatch[..]))| + if found then 1 else 0
  {
    hide IsMaximum, Tree, Blocked;
    ghost var m := MapOf(leftMatch[..]);
    RootIsNew(edges, rightCount, root, m);
    var free, parent;
    ghost var rank;
    free, parent, rank := Search(edges, rightCount, root, rightMatch[..], leftMatch[..]);
    if free.None? {
      BlockedStaysMaximum(edges, rightCount, m, root, rank.Keys, Reached(parent));
      return false;
    }
    Flip(edges, rightCount, root, free.value, parent, rank, leftMatch, rightMatch);
    InverseIsMatching(edges, rightCount, leftMatch[..], rightMatch[..]);
    AugmentedIsMaximum(edges, rightCount, m, MapOf(leftMatch[..]), root);
    found := true;
  }

  method MaximumCardinalityMatching(edges: Edges, rightCount: nat) returns (matched: nat)
    ensures IsMatchingNumber(edges, rightCount, matched)
  {
    hide IsMaximum, MapOf, Inverse;
    var leftMatch := new Option<nat>[|edges|](_ => None);
    var rightMatch := new Option<nat>[rightCount](_ => None);
    matched := 0;
    EmptyIsMaximum(edges, rightCount, leftMatch[..]);
    EmptyIsInverse(edges, rightCount, leftMatch[..], rightMatch[..]);
    for root := 0 to |edges|
      invariant Inverse(edges, rightCount, leftMatch[..], rightMatch[..])
      invariant IsMaximum(edges, rightCount, root, MapOf(leftMatch[..]))
      invariant |MapOf(leftMatch[..])| == matched
    {
      var found := MatchRoot(edges, rightCount, root, leftMatch, rightMatch);
      if !found {
        continue;
      }
      matched := matched + 1;
    }
  }

  lemma EmptyIsInverse(edges: Edges, rights: nat, left: Matches, right: Matches)
    requires |left| == |edges| && |right| == rights
    requires (forall l | 0 <= l < |left| :: left[l].None?) && (forall r | 0 <= r < |right| :: right[r].None?)
    ensures Inverse(edges, rights, left, right)
  {}

  lemma RootIsNew(edges: Edges, rights: nat, root: nat, m: map<nat, nat>)
    requires IsMaximum(edges, rights, root, m)
    ensures root !in m
  {}

  lemma EmptyIsMaximum(edges: Edges, rights: nat, left: Matches)
    requires forall l: nat | l < |left| :: left[l].None?
    ensures MapOf(left) == map[] && IsMaximum(edges, rights, 0, MapOf(left))
  {
    forall rival: map<nat, nat> | IsMatching(edges, rights, rival) && forall l | l in rival :: l < 0
      ensures |rival| <= 0
    {
      assert rival == map[];
    }
  }

  /** The matching number is unique, bounds every matching from above, and is attained. */
  lemma MatchingNumberMeaning(edges: Edges, rights: nat, n: nat, rival: map<nat, nat>)
    requires IsMatchingNumber(edges, rights, n) && IsMatching(edges, rights, rival)
    ensures |rival| <= n
    ensures n <= |edges| && n <= rights
    ensures exists m :: IsMatching(edges, rights, m) && |m| == n
    ensures forall k | IsMatchingNumber(edges, rights, k) :: k == n
  {
    var m: map<nat, nat> :| IsMaximum(edges, rights, |edges|, m) && |m| == n;
    forall l | l in rival ensures l < |edges| {
      assert IsEdge(edges, rights, l, rival[l]);
    }
    forall l | l in m ensures l < |edges| {
      assert IsEdge(edges, rights, l, m[l]);
    }
    BelowCount(m.Keys, |edges|);
    InjectionCount(m.Keys, m.Values, m);
    forall r | r in m.Values ensures r < rights {
      var l :| l in m && m[l] == r;
      assert IsEdge(edges, rights, l, m[l]);
    }
    BelowCount(m.Values, rights);
  }
}
