/** Resolving literal quotes to their places in prepared source blocks under shared work
    budgets. A verdict speaks about every occurrence in scope, although the search stops
    at the second; and a budget is reported exceeded exactly when the work does not fit,
    charge by charge in the order of the code. */
module LiteralSelectors {
  import opened Basics
  import opened Utf8

  const MAX_WORK: nat := 64_000_000
  const MAX_OUTPUT_ATOMS: nat := 65_536
  const MAX_SOURCE_BYTES: nat := 32 * 1024 * 1024

  type Atom = nat

  /** Source atoms of a range of output scalars. */
  datatype MapEntry = MapEntry(start: nat, end: nat, atoms: seq<Atom>)

  datatype Unmapped = Unmapped(scalar: nat, atoms: seq<Atom>)

  datatype Block = Block(id: nat, pages: seq<nat>, text: Text, unmapped: seq<Unmapped>, sourceMap: seq<MapEntry>)

  datatype View = LayoutRaw | PaintOrderRaw | OtherView

  datatype Source = Source(sha: nat, view: View, blocks: seq<Block>)

  datatype Side = Old | New

  datatype Unit = UnicodeScalar | Utf8Byte

  /** Identifier, side, page, block and range of the locator, quote, and the unit of the range. */
  datatype Selector = Selector(id: nat, side: Side, page: Option<nat>, block: Option<nat>, range: Option<Span>,
                               quote: Text, unit: Unit)

  datatype Status =
    | Unique
    | Missing
    | Ambiguous
    | InputHashMismatch
    | SourceViewMismatch
    | UnmappedSource
    | MissingSource
    | BudgetExceeded

  datatype Occurrence = Occurrence(block: nat, pages: seq<nat>, scalar: Span, byte: Span)

  datatype ScalarSource = ScalarSource(scalar: nat, byte: nat, value: Scalar, atoms: seq<Atom>)

  datatype Resolution = Resolution(id: nat, status: Status, occurrences: seq<Occurrence>, sources: seq<ScalarSource>)

  // ---------- what the verdicts are about ----------

  predicate InScope(s: Selector, b: Block) {
    (s.block.Some? ==> s.block.value == b.id) && (s.page.Some? ==> s.page.value in b.pages)
  }

  /** The half-open scalar and byte offsets of a quote found at scalar k. */
  function ScalarOffsets(s: Selector, k: nat): Span {
    Span(k, k + |s.quote|)
  }

  function ByteOffsets(s: Selector, t: Text, k: nat): Span
    requires k <= |t|
  {
    Span(|Bytes(t[..k])|, |Bytes(t[..k])| + |Bytes(s.quote)|)
  }

  /** The quote stands at scalar k of the text, at the range the selector asks for, if it asks. */
  predicate HitAt(s: Selector, t: Text, k: nat) {
    && k < |t| && s.quote <= t[k..]
    && (s.range.Some? ==>
          s.range.value == match s.unit
            case UnicodeScalar => ScalarOffsets(s, k)
            case Utf8Byte => ByteOffsets(s, t, k))
  }

  datatype Place = Place(block: nat, at: nat)

  /** An occurrence in scope. */
  ghost predicate Hit(s: Selector, blocks: seq<Block>, p: Place) {
    p.block < |blocks| && InScope(s, blocks[p.block]) && HitAt(s, blocks[p.block].text, p.at)
  }

  function OccurrenceAt(s: Selector, b: Block, k: nat): Occurrence
    requires k <= |b.text|
  {
    Occurrence(b.id, b.pages, ScalarOffsets(s, k), ByteOffsets(s, b.text, k))
  }

  /** Places visited before block i, scalar k. */
  ghost predicate Before(p: Place, i: nat, k: nat) {
    p.block < i || (p.block == i && p.at < k)
  }

  /** The listed places are the hits so far in reading order, and the occurrences describe them. */
  ghost predicate Listed(s: Selector, blocks: seq<Block>, i: nat, k: nat, places: seq<Place>,
                         occurrences: seq<Occurrence>) {
    && |occurrences| == |places|
    && (forall p :: p in places <==> Hit(s, blocks, p) && Before(p, i, k))
    && (forall x, y | 0 <= x < y < |places| :: Before(places[x], places[y].block, places[y].at))
    && (forall x | 0 <= x < |places| ::
          places[x].block < |blocks| && places[x].at <= |blocks[places[x].block].text|
          && occurrences[x] == OccurrenceAt(s, blocks[places[x].block], places[x].at))
  }

  // ---------- budgets ----------

  /** A charge either fits and is taken, or empties the budget. */
  function Charge(remaining: nat, amount: nat): (r: (nat, bool)) {
    if amount <= remaining then (remaining - amount, true) else (0, false)
  }

  /** What the search of the first i blocks is charged. */
  ghost function ScanCost(s: Selector, blocks: seq<Block>, i: nat): nat
    requires i <= |blocks|
  {
    if i == 0 then 0
    else
      ScanCost(s, blocks, i - 1) + 1
      + if InScope(s, blocks[i - 1]) then |blocks[i - 1].text| * |Bytes(s.quote)| else 0
  }

  ghost function SourceBytes(blocks: seq<Block>, i: nat): nat
    requires i <= |blocks|
  {
    if i == 0 then 0 else SourceBytes(blocks, i - 1) + |Bytes(blocks[i - 1].text)|
  }

  lemma {:induction false} CostsGrow(s: Selector, blocks: seq<Block>, i: nat, n: nat)
    requires i <= n <= |blocks|
    ensures ScanCost(s, blocks, i) <= ScanCost(s, blocks, n) && SourceBytes(blocks, i) <= SourceBytes(blocks, n)
  {
    if i < n {
      CostsGrow(s, blocks, i, n - 1);
    }
  }

  /** The search of all blocks does not fit. */
  ghost predicate SearchTooDear(s: Selector, blocks: seq<Block>, work: nat) {
    ScanCost(s, blocks, |blocks|) > work || SourceBytes(blocks, |blocks|) > MAX_SOURCE_BYTES
  }

  /** What is charged up to looking at a place: the blocks before it, its own block's fee,
      and every scalar up to it. */
  ghost function Reach(s: Selector, blocks: seq<Block>, p: Place): nat
    requires p.block < |blocks|
  {
    ScanCost(s, blocks, p.block) + 1 + (p.at + 1) * |Bytes(s.quote)|
  }

  ghost predicate Reachable(s: Selector, blocks: seq<Block>, p: Place, work: nat) {
    p.block < |blocks| && Reach(s, blocks, p) <= work && SourceBytes(blocks, p.block + 1) <= MAX_SOURCE_BYTES
  }

  ghost predicate LaterHit(s: Selector, blocks: seq<Block>, p: Place, q: Place) {
    Hit(s, blocks, p) && Hit(s, blocks, q) && Before(p, q.block, q.at)
  }

  /** The budgets reach neither the end nor a second hit. */
  ghost predicate SearchExceeds(s: Selector, blocks: seq<Block>, work: nat) {
    SearchTooDear(s, blocks, work) && forall p, q | LaterHit(s, blocks, p, q) :: !Reachable(s, blocks, q, work)
  }

  /** A later hit than the first has not been passed while at most one is listed. */
  lemma LaterIsAhead(s: Selector, blocks: seq<Block>, i: nat, k: nat, places: seq<Place>, occurrences: seq<Occurrence>,
                     p: Place, q: Place)
    requires Listed(s, blocks, i, k, places, occurrences) && |places| <= 1 && LaterHit(s, blocks, p, q)
    ensures q.block > i || (q.block == i && q.at >= k)
  {
    hide Hit;
    if p in places && q in places {
      OneAtMost(places, p, q);
    }
  }

  lemma OneAtMost(places: seq<Place>, p: Place, q: Place)
    requires |places| <= 1 && p in places && q in places
    ensures p == q
  {}

  /** A block that cannot be paid for ends the search for good. */
  lemma BlockOutOfReach(s: Selector, blocks: seq<Block>, i: nat, places: seq<Place>, occurrences: seq<Occurrence>,
                        work: nat)
    requires i < |blocks| && Listed(s, blocks, i, 0, places, occurrences) && |places| <= 1
    requires ScanCost(s, blocks, i) + 1 > work || SourceBytes(blocks, i + 1) > MAX_SOURCE_BYTES
    ensures SearchExceeds(s, blocks, work)
  {
    hide Listed, Reachable, ScanCost, SourceBytes, LaterHit;
    TooDearFrom(s, blocks, i, work);
    forall p, q | LaterHit(s, blocks, p, q) ensures !Reachable(s, blocks, q, work) {
      LaterIsAhead(s, blocks, i, 0, places, occurrences, p, q);
      AheadIsDearer(s, blocks, i, q, work);
    }
  }

  lemma TooDearFrom(s: Selector, blocks: seq<Block>, i: nat, work: nat)
    requires i < |blocks|
    requires ScanCost(s, blocks, i) + 1 > work || SourceBytes(blocks, i + 1) > MAX_SOURCE_BYTES
    ensures SearchTooDear(s, blocks, work)
  {
    hide Bytes, InScope;
    CostsGrow(s, blocks, i + 1, |blocks|);
    FeeAtLeast(s, blocks, i);
  }

  lemma FeeAtLeast(s: Selector, blocks: seq<Block>, i: nat)
    requires i < |blocks|
    ensures ScanCost(s, blocks, i) + 1 <= ScanCost(s, blocks, i + 1)
  {
    PriceUpTo(0, |blocks[i].text|, |Bytes(s.quote)|);
  }

  lemma AheadIsDearer(s: Selector, blocks: seq<Block>, i: nat, q: Place, work: nat)
    requires i <= q.block && i < |blocks|
    requires ScanCost(s, blocks, i) + 1 > work || SourceBytes(blocks, i + 1) > MAX_SOURCE_BYTES
    ensures !Reachable(s, blocks, q, work)
  {
    hide Bytes, InScope, ScanCost, SourceBytes;
    PriceUpTo(0, q.at + 1, |Bytes(s.quote)|);
    if q.block < |blocks| {
      CostsGrow(s, blocks, i, q.block);
      CostsGrow(s, blocks, i + 1, q.block + 1);
    }
  }

  lemma PlaceOutOfReach(s: Selector, blocks: seq<Block>, i: nat, k: nat, places: seq<Place>,
                        occurrences: seq<Occurrence>, work: nat)
    requires i < |blocks| && InScope(s, blocks[i]) && k < |blocks[i].text|
    requires Listed(s, blocks, i, k, places, occurrences) && |places| <= 1
    requires Reach(s, blocks, Place(i, k)) > work
    ensures SearchExceeds(s, blocks, work)
  {
    hide Listed, Reachable, Reach, LaterHit, ScanCost, SourceBytes, InScope;
    BlockEndIsDearer(s, blocks, i, k);
    CostsGrow(s, blocks, i + 1, |blocks|);
    forall p, q | LaterHit(s, blocks, p, q) ensures !Reachable(s, blocks, q, work) {
      LaterIsAhead(s, blocks, i, k, places, occurrences, p, q);
      PlaceAheadIsDearer(s, blocks, Place(i, k), q, work);
    }
  }

  lemma BlockEndIsDearer(s: Selector, blocks: seq<Block>, i: nat, k: nat)
    requires i < |blocks| && InScope(s, blocks[i]) && k < |blocks[i].text|
    ensures Reach(s, blocks, Place(i, k)) <= ScanCost(s, blocks, i + 1)
  {
    PriceUpTo(k + 1, |blocks[i].text|, |Bytes(s.quote)|);
  }

  lemma PlaceAheadIsDearer(s: Selector, blocks: seq<Block>, p: Place, q: Place, work: nat)
    requires p.block < |blocks| && InScope(s, blocks[p.block]) && p.at < |blocks[p.block].text|
    requires q.block > p.block || (q.block == p.block && q.at >= p.at)
    requires Reach(s, blocks, p) > work
    ensures !Reachable(s, blocks, q, work)
  {
    hide Bytes, InScope, ScanCost, SourceBytes;
    if q.block == p.block {
      PriceUpTo(p.at + 1, q.at + 1, |Bytes(s.quote)|);
    } else if q.block < |blocks| {
      BlockEndIsDearer(s, blocks, p.block, p.at);
      CostsGrow(s, blocks, p.block + 1, q.block);
      PriceUpTo(0, q.at + 1, |Bytes(s.quote)|);
    }
  }

  lemma PriceUpTo(m: nat, n: nat, price: nat)
    requires m <= n
    ensures m * price <= n * price
  {}

  // ---------- the search ----------

  datatype Search = Searched | Exhausted | Doubled

  /** What is known between two scalars: at most one hit so far, in the remembered block. */
  ghost predicate Searching(s: Selector, blocks: seq<Block>, i: nat, k: nat, places: seq<Place>,
                            occurrences: seq<Occurrence>, matched: Option<nat>) {
    && Listed(s, blocks, i, k, places, occurrences) && |places| <= 1
    && matched == if places == [] then None else Some(places[0].block)
  }

  lemma SkipPlace(s: Selector, blocks: seq<Block>, i: nat, k: nat, places: seq<Place>, occurrences: seq<Occurrence>)
    requires Listed(s, blocks, i, k, places, occurrences) && !Hit(s, blocks, Place(i, k))
    ensures Listed(s, blocks, i, k + 1, places, occurrences)
  {
    forall p ensures Hit(s, blocks, p) && Before(p, i, k + 1) <==> Hit(s, blocks, p) && Before(p, i, k) {
      assert Before(p, i, k + 1) && !Before(p, i, k) ==> p == Place(i, k);
    }
  }

  lemma TakePlace(s: Selector, blocks: seq<Block>, i: nat, k: nat, places: seq<Place>, occurrences: seq<Occurrence>)
    requires Listed(s, blocks, i, k, places, occurrences) && Hit(s, blocks, Place(i, k))
    ensures Listed(s, blocks, i, k + 1, places + [Place(i, k)], occurrences + [OccurrenceAt(s, blocks[i], k)])
  {
    var here := Place(i, k);
    var more := places + [here];
    forall x | 0 <= x < |places| ensures Before(places[x], i, k) {
      assert places[x] in places;
    }
    forall p ensures p in more <==> Hit(s, blocks, p) && Before(p, i, k + 1) {
      assert p in more <==> p in places || p == here;
      assert Before(p, i, k + 1) <==> Before(p, i, k) || p == here;
    }
  }

  /** A block out of scope holds no hit, and one scanned to its end no further hit. */
  lemma NextBlock(s: Selector, blocks: seq<Block>, i: nat, k: nat, places: seq<Place>, occurrences: seq<Occurrence>)
    requires i < |blocks| && Listed(s, blocks, i, k, places, occurrences)
    requires !InScope(s, blocks[i]) || k >= |blocks[i].text|
    ensures Listed(s, blocks, i + 1, 0, places, occurrences)
  {
    forall p ensures Hit(s, blocks, p) && Before(p, i + 1, 0) <==> Hit(s, blocks, p) && Before(p, i, k) {}
  }

  /** The comparison the code makes, on bytes from a character boundary. */
  lemma FoundByBytes(t: Text, k: nat, quote: Text)
    requires k <= |t|
    ensures |Bytes(t[..k])| <= |Bytes(t)|
    ensures Bytes(quote) <= Bytes(t)[|Bytes(t[..k])|..] <==> quote <= t[k..]
  {
    BytesFrom(t, k);
    PrefixByBytes(quote, t[k..]);
  }

  lemma NextBoundary(t: Text, k: nat)
    requires k < |t|
    ensures |Bytes(t[..k + 1])| == |Bytes(t[..k])| + |Encode(t[k])|
  {
    BytesJoin(t[..k], [t[k]]);
    assert t[..k + 1] == t[..k] + [t[k]];
    assert Bytes([t[k]]) == Encode(t[k]);
  }

  lemma FirstBoundary(t: Text)
    ensures |Bytes(t[..0])| == 0
  {}

  /** One position of one block. */
  method TryHere(s: Selector, t: Text, bytes: seq<nat>, k: nat, byte: nat) returns (hit: bool)
    requires bytes == Bytes(t) && k < |t| && byte == |Bytes(t[..k])|
    ensures hit <==> HitAt(s, t, k)
  {
    FoundByBytes(t, k, s.quote);
    if !(Bytes(s.quote) <= bytes[byte..]) {
      return false;
    }
    var offsets := match s.unit
      case UnicodeScalar => Span(k, k + |s.quote|)
      case Utf8Byte => Span(byte, byte + |Bytes(s.quote)|);
    hit := s.range.None? || s.range.value == offsets;
  }

  lemma PriceSoFar(k: nat, price: nat)
    ensures (k + 1) * price == k * price + price
  {}

  /** The scan of one block in scope, which stops at the second hit or at the first scalar it cannot pay for. */
  method ScanBlock(s: Selector, blocks: seq<Block>, i: nat, work0: nat, occurrences0: seq<Occurrence>,
                   matched0: Option<nat>, ghost places0: seq<Place>)
    returns (outcome: Search, work: nat, occurrences: seq<Occurrence>, matched: Option<nat>,
             ghost places: seq<Place>, ghost stop: nat)
    requires i < |blocks| && InScope(s, blocks[i])
    requires Searching(s, blocks, i, 0, places0, occurrences0, matched0)
    ensures outcome == Searched ==>
      && Searching(s, blocks, i + 1, 0, places, occurrences, matched)
      && work0 == work + |blocks[i].text| * |Bytes(s.quote)|
    ensures outcome == Doubled ==>
      && |places| == 2 && Listed(s, blocks, i, stop + 1, places, occurrences) && places[1] == Place(i, stop)
      && work0 == work + (stop + 1) * |Bytes(s.quote)|
    ensures outcome == Exhausted ==>
      && stop < |blocks[i].text| && |places| <= 1 && Listed(s, blocks, i, stop, places, occurrences)
      && work == 0 && work0 < (stop + 1) * |Bytes(s.quote)|
  {
    hide Encode, Bytes, Listed;
    work, occurrences, matched, places := work0, occurrences0, matched0, places0;
    var t := blocks[i].text;
    var bytes := Bytes(t);
    var byte := 0;
    var price := |Bytes(s.quote)|;
    stop := |t|;
    FirstBoundary(t);
    for k := 0 to |t|
      invariant work0 == work + k * price && byte == |Bytes(t[..k])|
      invariant Searching(s, blocks, i, k, places, occurrences, matched)
    {
      PriceSoFar(k, price);
      var (left, paid) := Charge(work, price);
      work := left;
      if !paid {
        return Exhausted, work, occurrences, matched, places, k;
      }
      var hit := TryHere(s, t, bytes, k, byte);
      ListedEven(s, blocks, i, k, places, occurrences);
      if hit {
        TakePlace(s, blocks, i, k, places, occurrences);
        occurrences := occurrences + [OccurrenceAt(s, blocks[i], k)];
        places := places + [Place(i, k)];
        matched := Some(i);
        if |occurrences| == 2 {
          return Doubled, work, occurrences, matched, places, k;
        }
      } else {
        SkipPlace(s, blocks, i, k, places, occurrences);
      }
      NextBoundary(t, k);
      byte := byte + |Encode(t[k])|;
    }
    NextBlock(s, blocks, i, |t|, places, occurrences);
    outcome := Searched;
  }

  lemma ListedEven(s: Selector, blocks: seq<Block>, i: nat, k: nat, places: seq<Place>, occurrences: seq<Occurrence>)
    requires Listed(s, blocks, i, k, places, occurrences)
    ensures |places| == |occurrences|
  {}

  /** What is paid for the first i blocks. */
  ghost predicate Paid(s: Selector, blocks: seq<Block>, i: nat, work0: nat, work: nat, sourceBytes: nat) {
    && i <= |blocks|
    && work0 == work + ScanCost(s, blocks, i) && sourceBytes + SourceBytes(blocks, i) == MAX_SOURCE_BYTES
  }

  /** How many blocks fit the bound on source bytes, counting on from block i. */
  ghost function ReadableBlocks(blocks: seq<Block>, i: nat): nat
    requires i <= |blocks|
    decreases |blocks| - i
  {
    if i == |blocks| || SourceBytes(blocks, i + 1) > MAX_SOURCE_BYTES then i else ReadableBlocks(blocks, i + 1)
  }

  /** What is left when the search runs out: nothing after a charge for work, but all that
      is unspent when a block's bytes do not fit. */
  ghost function ExhaustedWork(s: Selector, blocks: seq<Block>, work: nat): nat {
    var i := ReadableBlocks(blocks, 0);
    if i < |blocks| && ScanCost(s, blocks, i) + 1 <= work then work - ScanCost(s, blocks, i) - 1 else 0
  }

  lemma {:induction false} ReadableFrom(s: Selector, blocks: seq<Block>, i: nat, n: nat)
    requires i <= n <= |blocks| && SourceBytes(blocks, n) <= MAX_SOURCE_BYTES
    ensures n <= ReadableBlocks(blocks, i) == ReadableBlocks(blocks, n) <= |blocks|
    decreases |blocks| - i
  {
    if i < n {
      CostsGrow(s, blocks, i + 1, n);
      ReadableFrom(s, blocks, i + 1, n);
    } else if i < |blocks| && SourceBytes(blocks, i + 1) <= MAX_SOURCE_BYTES {
      ReadableFrom(s, blocks, i + 1, i + 1);
    }
  }

  /** A charge for work that fails leaves nothing. */
  lemma NothingLeft(s: Selector, blocks: seq<Block>, n: nat, work: nat)
    requires n <= |blocks| && SourceBytes(blocks, n) <= MAX_SOURCE_BYTES && work <= ScanCost(s, blocks, n)
    ensures ExhaustedWork(s, blocks, work) == 0
  {
    hide ScanCost, SourceBytes;
    ReadableFrom(s, blocks, 0, n);
    CostsGrow(s, blocks, n, ReadableBlocks(blocks, 0));
  }

  lemma BytesLeave(s: Selector, blocks: seq<Block>, n: nat, work: nat)
    requires n < |blocks| && SourceBytes(blocks, n) <= MAX_SOURCE_BYTES < SourceBytes(blocks, n + 1)
    requires ScanCost(s, blocks, n) + 1 <= work
    ensures ExhaustedWork(s, blocks, work) == work - ScanCost(s, blocks, n) - 1
  {
    hide ScanCost, SourceBytes;
    ReadableFrom(s, blocks, 0, n);
  }

  lemma ScanLeavesNothing(s: Selector, blocks: seq<Block>, i: nat, k: nat, work: nat)
    requires i < |blocks| && InScope(s, blocks[i]) && k < |blocks[i].text|
    requires SourceBytes(blocks, i + 1) <= MAX_SOURCE_BYTES && work < Reach(s, blocks, Place(i, k))
    ensures ExhaustedWork(s, blocks, work) == 0
  {
    hide ScanCost, SourceBytes, Reach;
    BlockEndIsDearer(s, blocks, i, k);
    NothingLeft(s, blocks, i + 1, work);
  }

  /** The search over all blocks, paying one unit and the block's bytes for each. It runs out
      exactly when the budgets reach neither the end nor a second hit. */
  method FindOccurrences(s: Selector, blocks: seq<Block>, work0: nat)
    returns (outcome: Search, work: nat, occurrences: seq<Occurrence>, matched: Option<nat>, ghost places: seq<Place>)
    ensures work <= work0
    ensures outcome == Searched ==>
      && Searching(s, blocks, |blocks|, 0, places, occurrences, matched)
      && !SearchTooDear(s, blocks, work0) && work == work0 - ScanCost(s, blocks, |blocks|)
    ensures outcome == Doubled ==>
      && |places| == 2 && (exists i, k :: Listed(s, blocks, i, k, places, occurrences))
      && Reachable(s, blocks, places[1], work0) && work == work0 - Reach(s, blocks, places[1])
    ensures outcome == Exhausted ==> |occurrences| <= 1 && work == ExhaustedWork(s, blocks, work0)
    ensures outcome == Exhausted <==> SearchExceeds(s, blocks, work0)
  {
    hide Encode, Bytes, Listed, SearchExceeds, ExhaustedWork;
    work, occurrences, matched, places := work0, [], None, [];
    var sourceBytes: nat := MAX_SOURCE_BYTES;
    NothingListed(s, blocks);
    for i := 0 to |blocks|
      invariant work <= work0
      invariant Paid(s, blocks, i, work0, work, sourceBytes)
      invariant Searching(s, blocks, i, 0, places, occurrences, matched)
    {
      ListedEven(s, blocks, i, 0, places, occurrences);
      var (left, paid) := Charge(work, 1);
      work := left;
      if !paid {
        BlockOutOfReach(s, blocks, i, places, occurrences, work0);
        NothingLeft(s, blocks, i, work0);
        return Exhausted, work, occurrences, matched, places;
      }
      var (bytesLeft, bytesPaid) := Charge(sourceBytes, |Bytes(blocks[i].text)|);
      sourceBytes := bytesLeft;
      if !bytesPaid {
        BlockOutOfReach(s, blocks, i, places, occurrences, work0);
        BytesLeave(s, blocks, i, work0);
        return Exhausted, work, occurrences, matched, places;
      }
      if InScope(s, blocks[i]) {
        ghost var stop;
        outcome, work, occurrences, matched, places, stop :=
          ScanBlock(s, blocks, i, work, occurrences, matched, places);
        if outcome == Exhausted {
          ListedEven(s, blocks, i, stop, places, occurrences);
          PlaceOutOfReach(s, blocks, i, stop, places, occurrences, work0);
          ScanLeavesNothing(s, blocks, i, stop, work0);
          return;
        }
        if outcome == Doubled {
          SecondInReach(s, blocks, i, stop + 1, places, occurrences, work0);
          return;
        }
      } else {
        NextBlock(s, blocks, i, 0, places, occurrences);
      }
    }
    WholeInReach(s, blocks, work0);
    outcome := Searched;
  }

  lemma NothingListed(s: Selector, blocks: seq<Block>)
    ensures Listed(s, blocks, 0, 0, [], [])
  {}

  lemma WholeInReach(s: Selector, blocks: seq<Block>, work: nat)
    requires !SearchTooDear(s, blocks, work)
    ensures !SearchExceeds(s, blocks, work)
  {}

  lemma SecondInReach(s: Selector, blocks: seq<Block>, i: nat, k: nat, places: seq<Place>, occurrences: seq<Occurrence>,
                      work: nat)
    requires |places| == 2 && Listed(s, blocks, i, k, places, occurrences) && Reachable(s, blocks, places[1], work)
    ensures !SearchExceeds(s, blocks, work)
  {
    assert places[0] in places && places[1] in places;
    assert LaterHit(s, blocks, places[0], places[1]);
  }

  // ---------- sources ----------

  /** All atoms the map gives an output scalar, with repetitions. */
  function Covering(entries: seq<MapEntry>, scalar: nat): seq<Atom> {
    if entries == [] then []
    else (if entries[0].start <= scalar < entries[0].end then entries[0].atoms else []) + Covering(entries[1..], scalar)
  }

  function UnmappedAtoms(unmapped: seq<Unmapped>, scalar: nat): seq<Atom> {
    if unmapped == [] then []
    else (if unmapped[0].scalar == scalar then unmapped[0].atoms else []) + UnmappedAtoms(unmapped[1..], scalar)
  }

  /** Each value once, at its first place. */
  function Distinct(atoms: seq<Atom>): (r: seq<Atom>)
    ensures |r| <= |atoms| && (r == [] <==> atoms == [])
  {
    if atoms == [] then []
    else
      var before := Distinct(atoms[..|atoms| - 1]);
      var last := atoms[|atoms| - 1];
      if last in before then before else before + [last]
  }

  /** The distinct atoms of one output scalar. */
  function ProjectAtoms(b: Block, scalar: nat): seq<Atom> {
    Distinct(Covering(b.sourceMap, scalar) + UnmappedAtoms(b.unmapped, scalar))
  }

  /** No unknown glyph at, inside or at the end of the quoted range. */
  ghost predicate FullyMapped(b: Block, range: Span) {
    forall u | u in b.unmapped :: !(range.start <= u.scalar <= range.end)
  }

  lemma {:induction false} NothingUnmapped(unmapped: seq<Unmapped>, scalar: nat)
    requires forall u | u in unmapped :: u.scalar != scalar
    ensures UnmappedAtoms(unmapped, scalar) == []
  {
    if unmapped != [] {
      assert unmapped[0] in unmapped;
      NothingUnmapped(unmapped[1..], scalar);
    }
  }

  /** What Unique reports for the j-th scalar of the quote found at k. */
  function SourceAt(s: Selector, b: Block, k: nat, j: nat): ScalarSource
    requires k <= |b.text| && j < |s.quote|
  {
    ScalarSource(k + j, |Bytes(b.text[..k])| + |Bytes(s.quote[..j])|, s.quote[j], ProjectAtoms(b, k + j))
  }

  ghost predicate SourcesRight(s: Selector, b: Block, k: nat, sources: seq<ScalarSource>)
    requires k <= |b.text|
  {
    && |sources| <= |s.quote|
    && forall j | 0 <= j < |sources| :: sources[j] == SourceAt(s, b, k, j) && sources[j].atoms != []
  }

  /** The distinct atoms of the first n quoted scalars, as they are charged. */
  ghost function Spent(b: Block, k: nat, n: nat): nat {
    if n == 0 then 0 else Spent(b, k, n - 1) + |ProjectAtoms(b, k + n - 1)|
  }

  /** The first n quoted scalars all have a source atom. */
  ghost predicate Sourced(b: Block, k: nat, n: nat) {
    forall scalar | k <= scalar < k + n :: ProjectAtoms(b, scalar) != []
  }

  /** The atoms of the j-th scalar, counted with repetitions, do not fit what is left then. */
  ghost predicate AtomsExceed(b: Block, k: nat, j: nat, output: nat) {
    Spent(b, k, j) + |Covering(b.sourceMap, k + j)| > output
  }

  /** Some scalar's atoms do not fit, and no earlier scalar lacks them. */
  ghost predicate AtomsTooDear(b: Block, k: nat, n: nat, output: nat) {
    exists j | 0 <= j < n :: Sourced(b, k, j) && AtomsExceed(b, k, j, output)
  }

  /** The scalar the attaching stops at, from the j-th on: one without atoms or whose atoms
      do not fit, or the end of the quote. */
  ghost function AttachStop(b: Block, k: nat, n: nat, j: nat, output: nat): nat
    requires j <= n
    decreases n - j
  {
    if j == n || AtomsExceed(b, k, j, output) || ProjectAtoms(b, k + j) == [] then j
    else AttachStop(b, k, n, j + 1, output)
  }

  /** Some scalar of the quote has no source atom. */
  ghost predicate Unsourced(s: Selector, b: Block, k: nat)
    requires k <= |b.text|
  {
    exists j: nat | j < |s.quote| :: SourceAt(s, b, k, j).atoms == []
  }

  lemma MappedAtoms(b: Block, range: Span, scalar: nat)
    requires FullyMapped(b, range) && range.start <= scalar <= range.end
    ensures |ProjectAtoms(b, scalar)| <= |Covering(b.sourceMap, scalar)|
  {
    NothingUnmapped(b.unmapped, scalar);
    assert Covering(b.sourceMap, scalar) + [] == Covering(b.sourceMap, scalar);
  }

  /** The source of one quoted scalar. The charge for its atoms never fails, because
      they were already counted, with repetitions, against the budget. */
  method AttachScalar(s: Selector, b: Block, k: nat, j: nat, start: nat, byte: nat, output0: nat)
    returns (status: Status, source: ScalarSource, output: nat)
    requires k <= |b.text| && j < |s.quote| && output0 < USIZE && FullyMapped(b, ScalarOffsets(s, k))
    requires start == |Bytes(b.text[..k])| && byte == |Bytes(s.quote[..j])|
    ensures output == if status == Unique then output0 - |ProjectAtoms(b, k + j)| else output0
    ensures source == SourceAt(s, b, k, j)
    ensures status == if |Covering(b.sourceMap, k + j)| > output0 then BudgetExceeded
                      else if source.atoms == [] then MissingSource else Unique
  {
    hide Encode, Bytes;
    output := output0;
    MappedAtoms(b, ScalarOffsets(s, k), k + j);
    var upper := |Covering(b.sourceMap, k + j)|;
    var atoms := ProjectAtoms(b, k + j);
    source := ScalarSource(k + j, start + byte, s.quote[j], atoms);
    if upper >= USIZE || upper > output {
      return BudgetExceeded, source, output;
    }
    if atoms == [] {
      return MissingSource, source, output;
    }
    var (left, paid) := Charge(output, |atoms|);
    assert paid;
    output := left;
    status := Unique;
  }

  /** Sources for every scalar of the quote, or none. */
  method AttachSources(s: Selector, b: Block, k: nat, output0: nat)
    returns (status: Status, sources: seq<ScalarSource>, output: nat)
    requires k <= |b.text| && output0 < USIZE && FullyMapped(b, ScalarOffsets(s, k))
    ensures output <= output0
    ensures status == Unique ==>
      |sources| == |s.quote| && SourcesRight(s, b, k, sources) && output == output0 - Spent(b, k, |s.quote|)
    ensures status != Unique ==> sources == []
    ensures status == MissingSource ==> Unsourced(s, b, k)
    ensures status == BudgetExceeded <==> AtomsTooDear(b, k, |s.quote|, output0)
    ensures status in {Unique, MissingSource, BudgetExceeded}
    ensures output0 == output + Spent(b, k, AttachStop(b, k, |s.quote|, 0, output0))
  {
    hide Encode, Bytes, ProjectAtoms, Covering;
    sources, output := [], output0;
    var start := |Bytes(b.text[..k])|;
    var byte: nat := 0;
    AttachedNone(s, b, k);
    for j := 0 to |s.quote|
      invariant |sources| == j && Attached(s, b, k, sources, byte)
      invariant output0 == output + Spent(b, k, j) && Sourced(b, k, j)
      invariant forall i | 0 <= i < j :: !AtomsExceed(b, k, i, output0)
      invariant AttachStop(b, k, |s.quote|, 0, output0) == AttachStop(b, k, |s.quote|, j, output0)
    {
      var source;
      status, source, output := AttachScalar(s, b, k, j, start, byte, output);
      if status != Unique {
        assert status == MissingSource ==> source.atoms == ProjectAtoms(b, k + j);
        return status, [], output;
      }
      AttachedMore(s, b, k, sources, byte);
      sources := sources + [source];
      byte := byte + |Encode(s.quote[j])|;
    }
    status := Unique;
  }

  /** Sources so far, and the byte offset of the next scalar in the quote. */
  ghost predicate Attached(s: Selector, b: Block, k: nat, sources: seq<ScalarSource>, byte: nat)
    requires k <= |b.text|
  {
    SourcesRight(s, b, k, sources) && byte == |Bytes(s.quote[..|sources|])|
  }

  lemma AttachedNone(s: Selector, b: Block, k: nat)
    requires k <= |b.text|
    ensures Attached(s, b, k, [], 0)
  {
    assert s.quote[..0] == [];
  }

  lemma AttachedMore(s: Selector, b: Block, k: nat, sources: seq<ScalarSource>, byte: nat)
    requires k <= |b.text| && |sources| < |s.quote| && Attached(s, b, k, sources, byte)
    requires SourceAt(s, b, k, |sources|).atoms != []
    ensures Attached(s, b, k, sources + [SourceAt(s, b, k, |sources|)], byte + |Encode(s.quote[|sources|])|)
  {
    hide Encode;
    NextBoundary(s.quote, |sources|);
  }

  function ProjectionCost(entries: seq<MapEntry>): nat {
    if entries == [] then 0 else ProjectionCost(entries[..|entries| - 1]) + |entries[|entries| - 1].atoms| + 1
  }

  // ---------- one selector ----------

  ghost predicate OnlyHit(s: Selector, blocks: seq<Block>, p: Place, occurrences: seq<Occurrence>) {
    && Only(s, blocks, p)
    && occurrences == [OccurrenceAt(s, blocks[p.block], p.at)]
  }

  /** Two hits, the first two in reading order. */
  ghost predicate FirstTwo(s: Selector, blocks: seq<Block>, p: Place, q: Place, occurrences: seq<Occurrence>) {
    && Hit(s, blocks, p) && Hit(s, blocks, q) && Before(p, q.block, q.at)
    && (forall x | Hit(s, blocks, x) :: x == p || x == q || Before(q, x.block, x.at))
    && occurrences == [OccurrenceAt(s, blocks[p.block], p.at), OccurrenceAt(s, blocks[q.block], q.at)]
  }

  lemma NoneListed(s: Selector, blocks: seq<Block>, p: Place, occurrences: seq<Occurrence>)
    requires Listed(s, blocks, |blocks|, 0, [], occurrences)
    ensures occurrences == [] && !Hit(s, blocks, p)
  {
    assert p !in [];
  }

  lemma TwoListed(s: Selector, blocks: seq<Block>, i: nat, k: nat, places: seq<Place>, occurrences: seq<Occurrence>)
    requires |places| == 2 && Listed(s, blocks, i, k, places, occurrences)
    ensures FirstTwo(s, blocks, places[0], places[1], occurrences)
  {
    var p, q := places[0], places[1];
    assert p in places && q in places;
    forall x | Hit(s, blocks, x) ensures x == p || x == q || Before(q, x.block, x.at) {
      assert x in places ==> x == p || x == q;
      assert Before(q, i, k);
    }
  }

  /** What the verdict on an only hit at scalar k of block b means. */
  ghost predicate HitVerdict(s: Selector, b: Block, k: nat, status: Status, sources: seq<ScalarSource>)
    requires k <= |b.text|
  {
    && (status == UnmappedSource <==> !FullyMapped(b, ScalarOffsets(s, k)))
    && (status == Unique ==> |sources| == |s.quote| && SourcesRight(s, b, k, sources))
    && (status == MissingSource ==> Unsourced(s, b, k))
  }

  ghost predicate Settled(s: Selector, blocks: seq<Block>, p: Place, r: Resolution) {
    OnlyHit(s, blocks, p, r.occurrences) && HitVerdict(s, blocks[p.block], p.at, r.status, r.sources)
  }

  /** Each verdict's meaning. */
  ghost predicate Justified(s: Selector, source: Source, hash: nat, view: View, r: Resolution) {
    && r.id == s.id && (r.status != Unique ==> r.sources == [])
    && (r.status == InputHashMismatch <==> source.sha != hash)
    && (r.status == SourceViewMismatch <==> source.sha == hash && source.view != view)
    && (r.status in {InputHashMismatch, SourceViewMismatch, Missing} ==> r.occurrences == [])
    && (r.status == BudgetExceeded ==> |r.occurrences| <= 1)
    && (r.status == Missing ==> forall p :: !Hit(s, source.blocks, p))
    && (r.status == Ambiguous ==> exists p, q :: FirstTwo(s, source.blocks, p, q, r.occurrences))
    && (r.status in {Unique, UnmappedSource, MissingSource} ==> exists p :: Settled(s, source.blocks, p, r))
  }

  /** What projecting the sources of the hit is charged. */
  function HitCost(s: Selector, b: Block): nat {
    ProjectionCost(b.sourceMap) * |s.quote| * 2
  }

  /** The checked sum and products of that charge overflow. */
  predicate CostOverflows(s: Selector, b: Block) {
    ProjectionCost(b.sourceMap) >= USIZE || ProjectionCost(b.sourceMap) * |s.quote| >= USIZE || HitCost(s, b) >= USIZE
  }

  /** The verdict on an only hit costs more than is left: first its unmapped glyphs are
      looked through, then its sources are projected, then their atoms are charged. */
  ghost predicate HitTooDear(s: Selector, b: Block, k: nat, work: nat, output: nat) {
    || |b.unmapped| > work
    || (FullyMapped(b, ScalarOffsets(s, k))
        && (CostOverflows(s, b) || |b.unmapped| + HitCost(s, b) > work || AtomsTooDear(b, k, |s.quote|, output)))
  }

  ghost predicate Only(s: Selector, blocks: seq<Block>, p: Place) {
    Hit(s, blocks, p) && forall q | Hit(s, blocks, q) :: q == p
  }

  /** When a selector reports an exceeded budget. */
  ghost predicate Strained(s: Selector, blocks: seq<Block>, work: nat, output: nat) {
    || SearchExceeds(s, blocks, work)
    || (!SearchTooDear(s, blocks, work)
        && exists p :: Only(s, blocks, p)
             && HitTooDear(s, blocks[p.block], p.at, work - ScanCost(s, blocks, |blocks|), output))
  }

  /** The atoms a resolution reports. */
  function AtomsIn(sources: seq<ScalarSource>): nat {
    if sources == [] then 0 else AtomsIn(sources[..|sources| - 1]) + |sources[|sources| - 1].atoms|
  }

  lemma {:induction false} AtomsAreSpent(s: Selector, b: Block, k: nat, sources: seq<ScalarSource>)
    requires k <= |b.text| && SourcesRight(s, b, k, sources)
    ensures AtomsIn(sources) == Spent(b, k, |sources|)
  {
    hide Bytes, ProjectAtoms;
    if sources != [] {
      AtomsAreSpent(s, b, k, sources[..|sources| - 1]);
    }
  }

  datatype Budgets = Budgets(work: nat, output: nat)

  /** What the verdict on an only hit leaves: an unpaid charge leaves no work, and atoms
      attached before a scalar that has none, or too many, stay charged. */
  ghost function HitLeaves(s: Selector, b: Block, k: nat, before: Budgets): Budgets {
    if |b.unmapped| > before.work then Budgets(0, before.output)
    else
      var work := before.work - |b.unmapped|;
      if !FullyMapped(b, ScalarOffsets(s, k)) || CostOverflows(s, b) then Budgets(work, before.output)
      else if HitCost(s, b) > work then Budgets(0, before.output)
      else
        var attached := AttachStop(b, k, |s.quote|, 0, before.output);
        Budgets(work - HitCost(s, b), SatSub(before.output, Spent(b, k, attached)))
  }

  /** The verdict on the only hit. */
  method ResolveHit(s: Selector, b: Block, k: nat, work0: nat, output0: nat)
    returns (status: Status, sources: seq<ScalarSource>, work: nat, output: nat)
    requires k <= |b.text| && output0 < USIZE
    ensures work <= work0 && output + AtomsIn(sources) <= output0
    ensures status in {Unique, UnmappedSource, MissingSource, BudgetExceeded}
    ensures status == BudgetExceeded <==> HitTooDear(s, b, k, work0, output0)
    ensures status != BudgetExceeded ==> HitVerdict(s, b, k, status, sources)
    ensures status == Unique ==>
      work == work0 - |b.unmapped| - HitCost(s, b) && output == output0 - AtomsIn(sources)
    ensures status != Unique ==> sources == []
    ensures Budgets(work, output) == HitLeaves(s, b, k, Budgets(work0, output0))
  {
    hide Bytes, SourcesRight, AtomsTooDear, Unsourced, AttachStop;
    work, output, sources := work0, output0, [];
    var (left, paid) := Charge(work, |b.unmapped|);
    work := left;
    if !paid {
      return BudgetExceeded, [], work, output;
    }
    var unknown := exists u :: u in b.unmapped && k <= u.scalar <= k + |s.quote|;
    if unknown {
      return UnmappedSource, [], work, output;
    }
    if CostOverflows(s, b) {
      return BudgetExceeded, [], work, output;
    }
    var cost := ProjectionCost(b.sourceMap) * |s.quote| * 2;
    var (rest, affordable) := Charge(work, cost);
    work := rest;
    if !affordable {
      return BudgetExceeded, [], work, output;
    }
    status, sources, output := AttachSources(s, b, k, output);
    if status == Unique {
      AtomsAreSpent(s, b, k, sources);
    }
  }

  /** The second hit in reading order. */
  ghost predicate IsSecond(s: Selector, blocks: seq<Block>, q: Place) {
    exists p :: LaterHit(s, blocks, p, q)
      && forall x | Hit(s, blocks, x) :: x == p || x == q || Before(q, x.block, x.at)
  }

  /** What one selector leaves of the budgets, verdict by verdict. */
  ghost predicate Leaves(s: Selector, blocks: seq<Block>, before: Budgets, after: Budgets) {
    if SearchExceeds(s, blocks, before.work) then after == Budgets(ExhaustedWork(s, blocks, before.work), before.output)
    else
      || (exists q :: IsSecond(s, blocks, q) && before == after.(work := after.work + Reach(s, blocks, q)))
      || (!SearchTooDear(s, blocks, before.work)
          && var rest := before.(work := before.work - ScanCost(s, blocks, |blocks|));
          || (exists p :: Only(s, blocks, p) && after == HitLeaves(s, blocks[p.block], p.at, rest))
          || (after == rest && forall p :: !Hit(s, blocks, p)))
  }

  /** A selector leaves one thing only. */
  lemma LeavesOne(s: Selector, blocks: seq<Block>, before: Budgets, a: Budgets, b: Budgets)
    requires Leaves(s, blocks, before, a) && Leaves(s, blocks, before, b)
    ensures a == b
  {
    hide HitLeaves, SearchExceeds, SearchTooDear, ExhaustedWork, Reach, ScanCost, Hit, IsSecond;
    forall p, q | IsSecond(s, blocks, p) && IsSecond(s, blocks, q) ensures p == q {
      SecondIsOne(s, blocks, p, q);
    }
    forall p, q | IsSecond(s, blocks, q) ensures Hit(s, blocks, q) && !Only(s, blocks, p) {
      SecondIsNotOnly(s, blocks, p, q);
    }
  }

  lemma SecondIsOne(s: Selector, blocks: seq<Block>, p: Place, q: Place)
    requires IsSecond(s, blocks, p) && IsSecond(s, blocks, q)
    ensures p == q
  {
    hide Hit;
  }

  lemma SecondIsNotOnly(s: Selector, blocks: seq<Block>, p: Place, q: Place)
    requires IsSecond(s, blocks, q)
    ensures Hit(s, blocks, q) && !Only(s, blocks, p)
  {
    hide Hit;
  }

  /** The verdict means what it says, reports the budget exceeded exactly when it is, and
      leaves what it has to. */
  ghost predicate Judged(s: Selector, source: Source, hash: nat, view: View, r: Resolution,
                         before: Budgets, after: Budgets)
  {
    && Justified(s, source, hash, view, r)
    && if source.sha == hash && source.view == view
       then (r.status == BudgetExceeded <==> Strained(s, source.blocks, before.work, before.output))
            && Leaves(s, source.blocks, before, after)
       else after == before
  }

  method ResolveSelector(s: Selector, source: Source, hash: nat, view: View, work0: nat, output0: nat)
    returns (r: Resolution, work: nat, output: nat)
    requires output0 < USIZE
    ensures Judged(s, source, hash, view, r, Budgets(work0, output0), Budgets(work, output))
    ensures work <= work0 && output + AtomsIn(r.sources) <= output0
  {
    hide Judged, SearchExceeds, SearchTooDear, ExhaustedWork, HitLeaves, HitTooDear, HitVerdict, ScanCost, Bytes;
    work, output := work0, output0;
    ghost var before := Budgets(work, output);
    if source.sha != hash {
      r := Resolution(s.id, InputHashMismatch, [], []);
      MismatchJudged(s, source, hash, view, r, before);
      return;
    }
    if source.view != view {
      r := Resolution(s.id, SourceViewMismatch, [], []);
      MismatchJudged(s, source, hash, view, r, before);
      return;
    }
    var outcome, occurrences, matched;
    ghost var places;
    outcome, work, occurrences, matched, places := FindOccurrences(s, source.blocks, work);
    match outcome {
      case Exhausted =>
        r := Resolution(s.id, BudgetExceeded, occurrences, []);
        ExhaustedJudged(s, source, hash, view, r, before);
      case Doubled =>
        r := Resolution(s.id, Ambiguous, occurrences, []);
        ghost var i, k :| Listed(s, source.blocks, i, k, places, occurrences);
        TwoListed(s, source.blocks, i, k, places, occurrences);
        SecondJudged(s, source, hash, view, r, places[0], places[1], before, Budgets(work, output));
      case Searched =>
        if matched == None {
          r := Resolution(s.id, Missing, occurrences, []);
          NoneJudged(s, source, hash, view, r, before);
          return;
        }
        assert places == [places[0]];
        OneListed(s, source.blocks, places[0], occurrences);
        var b := source.blocks[matched.value];
        var status, sources;
        status, sources, work, output := ResolveHit(s, b, occurrences[0].scalar.start, work, output);
        r := Resolution(s.id, status, occurrences, sources);
        OnlyJudged(s, source, hash, view, r, places[0], before, Budgets(work, output));
    }
  }

  lemma MismatchJudged(s: Selector, source: Source, hash: nat, view: View, r: Resolution, before: Budgets)
    requires source.sha != hash || source.view != view
    requires r == Resolution(s.id, if source.sha != hash then InputHashMismatch else SourceViewMismatch, [], [])
    ensures Judged(s, source, hash, view, r, before, before)
  {}

  lemma ExhaustedJudged(s: Selector, source: Source, hash: nat, view: View, r: Resolution, before: Budgets)
    requires source.sha == hash && source.view == view && SearchExceeds(s, source.blocks, before.work)
    requires r == Resolution(s.id, BudgetExceeded, r.occurrences, []) && |r.occurrences| <= 1
    ensures var left := ExhaustedWork(s, source.blocks, before.work);
      Judged(s, source, hash, view, r, before, Budgets(left, before.output))
  {
    hide SearchExceeds, ExhaustedWork, HitLeaves, HitTooDear, ScanCost;
  }

  lemma SecondJudged(s: Selector, source: Source, hash: nat, view: View, r: Resolution, p: Place, q: Place,
                     before: Budgets, after: Budgets)
    requires source.sha == hash && source.view == view && !SearchExceeds(s, source.blocks, before.work)
    requires FirstTwo(s, source.blocks, p, q, r.occurrences) && r == Resolution(s.id, Ambiguous, r.occurrences, [])
    requires before == after.(work := after.work + Reach(s, source.blocks, q))
    ensures Judged(s, source, hash, view, r, before, after)
  {
    hide SearchExceeds, ExhaustedWork, HitLeaves, HitTooDear, HitVerdict, ScanCost;
    assert LaterHit(s, source.blocks, p, q) && IsSecond(s, source.blocks, q);
  }

  lemma NoneJudged(s: Selector, source: Source, hash: nat, view: View, r: Resolution, before: Budgets)
    requires source.sha == hash && source.view == view
    requires !SearchExceeds(s, source.blocks, before.work) && !SearchTooDear(s, source.blocks, before.work)
    requires Listed(s, source.blocks, |source.blocks|, 0, [], r.occurrences)
    requires r == Resolution(s.id, Missing, r.occurrences, [])
    ensures var rest := before.(work := before.work - ScanCost(s, source.blocks, |source.blocks|));
      Judged(s, source, hash, view, r, before, rest)
  {
    hide SearchExceeds, SearchTooDear, HitLeaves, HitTooDear, HitVerdict, Listed, ScanCost, Hit;
    NoneListed(s, source.blocks, Place(0, 0), r.occurrences);
    forall p ensures !Hit(s, source.blocks, p) {
      NoneListed(s, source.blocks, p, r.occurrences);
    }
  }

  lemma OnlyJudged(s: Selector, source: Source, hash: nat, view: View, r: Resolution, p: Place, before: Budgets,
                   after: Budgets)
    requires source.sha == hash && source.view == view
    requires !SearchExceeds(s, source.blocks, before.work) && !SearchTooDear(s, source.blocks, before.work)
    requires OnlyHit(s, source.blocks, p, r.occurrences) && r.id == s.id
    requires var b := source.blocks[p.block];
      var rest := before.(work := before.work - ScanCost(s, source.blocks, |source.blocks|));
      && r.status in {Unique, UnmappedSource, MissingSource, BudgetExceeded}
      && (r.status == BudgetExceeded <==> HitTooDear(s, b, p.at, rest.work, rest.output))
      && (r.status != BudgetExceeded ==> HitVerdict(s, b, p.at, r.status, r.sources))
      && (r.status != Unique ==> r.sources == [])
      && after == HitLeaves(s, b, p.at, rest)
    ensures Judged(s, source, hash, view, r, before, after)
  {
    hide SearchExceeds, SearchTooDear, ExhaustedWork, HitLeaves, HitTooDear, HitVerdict, ScanCost;
    assert r.status != BudgetExceeded ==> Settled(s, source.blocks, p, r);
  }

  lemma OneListed(s: Selector, blocks: seq<Block>, p: Place, occurrences: seq<Occurrence>)
    requires Listed(s, blocks, |blocks|, 0, [p], occurrences)
    ensures Only(s, blocks, p) && OnlyHit(s, blocks, p, occurrences)
  {
    assert p in [p];
    forall q | Hit(s, blocks, q) ensures q == p {
      assert q in [p];
    }
  }

  /** The byte and scalar offsets of an occurrence both cut out exactly the quote. */
  lemma OccurrenceSlices(s: Selector, b: Block, k: nat)
    requires HitAt(s, b.text, k)
    ensures var o := OccurrenceAt(s, b, k);
      && o.block == b.id && o.pages == b.pages && o.scalar.start == k
      && o.scalar.end <= |b.text| && b.text[o.scalar.start..o.scalar.end] == s.quote
      && o.byte.end <= |Bytes(b.text)| && Bytes(b.text)[o.byte.start..o.byte.end] == Bytes(s.quote)
      && o.byte.start == |Bytes(b.text[..o.scalar.start])| && o.byte.end == |Bytes(b.text[..o.scalar.end])|
  {
    var before, after := b.text[..k], b.text[k + |s.quote|..];
    assert b.text[k..][..|s.quote|] == s.quote;
    assert b.text == before + s.quote + after;
    BytesJoin(before + s.quote, after);
    BytesJoin(before, s.quote);
    assert b.text[..k + |s.quote|] == before + s.quote;
  }

  // ---------- all selectors ----------

  lemma NoAtoms()
    ensures AtomsIn([]) == 0
  {}

  function TotalAtoms(rs: seq<Resolution>): nat {
    if rs == [] then 0 else TotalAtoms(rs[..|rs| - 1]) + AtomsIn(rs[|rs| - 1].sources)
  }

  /** A mismatched hash on either side is every selector's verdict, free of charge; otherwise
      each has its own, judged by what its predecessors left of the budgets. */
  ghost predicate Answers(view: View, oldSha: nat, newSha: nat, oldSource: Source, newSource: Source,
                          s: Selector, r: Resolution, before: Budgets, after: Budgets)
  {
    if oldSource.sha != oldSha || newSource.sha != newSha
    then r == Resolution(s.id, InputHashMismatch, [], []) && after == before
    else if s.side == Old then Judged(s, oldSource, oldSha, view, r, before, after)
    else Judged(s, newSource, newSha, view, r, before, after)
  }

  /** Every selector against its side's source, sharing both budgets; both hashes must match first. */
  method Resolve(view: View, oldSha: nat, newSha: nat, selectors: seq<Selector>, oldSource: Source, newSource: Source)
    returns (rs: seq<Resolution>, work: nat, output: nat, ghost trace: seq<Budgets>)
    ensures |rs| == |selectors| && work <= MAX_WORK && output + TotalAtoms(rs) <= MAX_OUTPUT_ATOMS
    ensures |trace| == |rs| + 1 && trace[0] == Budgets(MAX_WORK, MAX_OUTPUT_ATOMS)
    ensures forall i | 0 <= i < |rs| ::
      Answers(view, oldSha, newSha, oldSource, newSource, selectors[i], rs[i], trace[i], trace[i + 1])
  {
    hide Judged, AtomsIn;
    rs, work, output := [], MAX_WORK, MAX_OUTPUT_ATOMS;
    trace := [Budgets(work, output)];
    for i := 0 to |selectors|
      invariant |rs| == i && work <= MAX_WORK && output + TotalAtoms(rs) <= MAX_OUTPUT_ATOMS
      invariant |trace| == i + 1 && trace[0] == Budgets(MAX_WORK, MAX_OUTPUT_ATOMS) && trace[i] == Budgets(work, output)
      invariant forall x | 0 <= x < i ::
        Answers(view, oldSha, newSha, oldSource, newSource, selectors[x], rs[x], trace[x], trace[x + 1])
    {
      var r: Resolution;
      if oldSource.sha != oldSha || newSource.sha != newSha {
        r := Resolution(selectors[i].id, InputHashMismatch, [], []);
        NoAtoms();
      } else {
        var (source, hash) := if selectors[i].side == Old then (oldSource, oldSha) else (newSource, newSha);
        r, work, output := ResolveSelector(selectors[i], source, hash, view, work, output);
      }
      assert (rs + [r])[..i] == rs;
      rs := rs + [r];
      trace := trace + [Budgets(work, output)];
    }
  }
}
