/** Scores in several classes, compared class by class from the first, each class a 128-bit
    integer. Sums and differences are checked. For proofs a score is read as one number whose
    digits are the classes, in a base so large that the order of the numbers is the order of
    the scores and no digit carries into the next. */
module Scores {
  import opened Basics

  const CLASSES: nat := 6

  const I128_BOUND: nat := 0x8000_0000_0000_0000_0000_0000_0000_0000

  /** Components are unbounded here; the checked operations keep them 128 bits wide. */
  type Score = s: seq<int> | |s| == CLASSES witness [0, 0, 0, 0, 0, 0]

  function Zero(): Score { [0, 0, 0, 0, 0, 0] }

  predicate Storable(s: Score) {
    forall i | 0 <= i < CLASSES :: 0 - I128_BOUND <= s[i] < I128_BOUND
  }

  function Plus(a: Score, b: Score): Score {
    seq(CLASSES, i requires 0 <= i < CLASSES => a[i] + b[i])
  }

  function Minus(a: Score, b: Score): Score {
    seq(CLASSES, i requires 0 <= i < CLASSES => a[i] - b[i])
  }

  function Add(a: Score, b: Score): Option<Score> {
    if Storable(Plus(a, b)) then Some(Plus(a, b)) else None
  }

  function Sub(a: Score, b: Score): Option<Score> {
    if Storable(Minus(a, b)) then Some(Minus(a, b)) else None
  }

  const I128_MAX: int := 0x7FFF_FFFF_FFFF_FFFF_FFFF_FFFF_FFFF_FFFF

  ghost predicate Is128(x: int) { 0 - I128_MAX - 1 <= x <= I128_MAX }

  /** A checked sum fails exactly when some class of it is not a 128-bit integer, and so does a difference. */
  lemma CheckedMeans(a: Score, b: Score)
    ensures match Add(a, b)
      case Some(c) => forall i | 0 <= i < CLASSES :: c[i] == a[i] + b[i] && Is128(c[i])
      case None => exists i | 0 <= i < CLASSES :: !Is128(a[i] + b[i])
    ensures match Sub(a, b)
      case Some(c) => forall i | 0 <= i < CLASSES :: c[i] == a[i] - b[i] && Is128(c[i])
      case None => exists i | 0 <= i < CLASSES :: !Is128(a[i] - b[i])
  {
    if Add(a, b).None? {
      var i :| 0 <= i < CLASSES && !(0 - I128_BOUND <= Plus(a, b)[i] < I128_BOUND);
      assert !Is128(a[i] + b[i]);
    }
    if Sub(a, b).None? {
      var i :| 0 <= i < CLASSES && !(0 - I128_BOUND <= Minus(a, b)[i] < I128_BOUND);
      assert !Is128(a[i] - b[i]);
    }
  }

  /** The first class in which the scores differ decides. */
  predicate Lexical(a: seq<int>, b: seq<int>)
    requires |a| == |b|
  {
    exists i | 0 <= i < |a| :: a[..i] == b[..i] && a[i] < b[i]
  }

  predicate Less(a: Score, b: Score) { Lexical(a, b) }

  // ---------- scores as single numbers ----------

  /** All classes as the digits of one number. */
  ghost function Value(s: seq<int>, base: nat): int {
    if s == [] then 0 else Value(s[..|s| - 1], base) * base + s[|s| - 1]
  }

  lemma {:induction false} ValueAdds(a: seq<int>, b: seq<int>, c: seq<int>, base: nat)
    requires |a| == |b| == |c| && forall i | 0 <= i < |a| :: c[i] == a[i] + b[i]
    ensures Value(c, base) == Value(a, base) + Value(b, base)
  {
    if a != [] {
      var n := |a| - 1;
      ValueAdds(a[..n], b[..n], c[..n], base);
      Spread(Value(a[..n], base), Value(b[..n], base), base);
    }
  }

  lemma Spread(x: int, y: int, base: nat)
    ensures (x + y) * base == x * base + y * base
  {}

  lemma PlusValue(a: Score, b: Score, base: nat)
    ensures Value(Plus(a, b), base) == Value(a, base) + Value(b, base)
  {
    ValueAdds(a, b, Plus(a, b), base);
  }

  lemma MinusValue(a: Score, b: Score, base: nat)
    ensures Value(Minus(a, b), base) == Value(a, base) - Value(b, base)
  {
    ValueAdds(Minus(a, b), b, a, base);
  }

  lemma ZeroValue(base: nat)
    ensures Value(Zero(), base) == 0
  {
    ValueAdds(Zero(), Zero(), Zero(), base);
  }

  ghost predicate Within(s: seq<int>, bound: nat) {
    forall i | 0 <= i < |s| :: 0 - bound <= s[i] <= bound
  }

  /** With a base over the range of the digits, the order of the numbers is the order of the scores. */
  lemma {:induction false} ValueOrders(a: seq<int>, b: seq<int>, bound: nat, base: nat)
    requires |a| == |b| && Within(a, bound) && Within(b, bound) && base > 2 * bound
    ensures Lexical(a, b) <==> Value(a, base) < Value(b, base)
    ensures a == b <==> Value(a, base) == Value(b, base)
  {
    hide Lexical;
    NoneLexical();
    if a != [] {
      var n := |a| - 1;
      var x, y := a[..n], b[..n];
      assert Within(x, bound) && Within(y, bound) && Within([a[n], b[n]], bound);
      ValueOrders(x, y, bound, base);
      LexicalFront(a, b);
      DigitDecides(Value(x, base), Value(y, base), a[n], b[n], bound, base);
      assert a == x + [a[n]] && b == y + [b[n]];
    }
  }

  lemma NoneLexical()
    ensures !Lexical([], [])
  {}

  lemma LexicalFront(a: seq<int>, b: seq<int>)
    requires |a| == |b| > 0
    ensures var n := |a| - 1;
      Lexical(a, b) <==> Lexical(a[..n], b[..n]) || (a[..n] == b[..n] && a[n] < b[n])
  {
    var n := |a| - 1;
    var x, y := a[..n], b[..n];
    if i :| 0 <= i < |a| && a[..i] == b[..i] && a[i] < b[i] {
      assert i < n ==> x[..i] == a[..i] && y[..i] == b[..i];
    }
    if i :| 0 <= i < n && x[..i] == y[..i] && x[i] < y[i] {
      assert a[..i] == x[..i] && b[..i] == y[..i];
    }
  }

  lemma DigitDecides(x: int, y: int, d: int, e: int, bound: nat, base: nat)
    requires Within([d, e], bound) && base > 2 * bound
    ensures x * base + d < y * base + e <==> x < y || (x == y && d < e)
    ensures x * base + d == y * base + e <==> x == y && d == e
  {
    assert [d, e][0] == d && [d, e][1] == e;
    if x < y {
      Carry(x, y, base);
    } else if y < x {
      Carry(y, x, base);
    }
  }

  lemma Carry(x: int, y: int, base: nat)
    requires x < y
    ensures x * base + base <= y * base
  {
    var more: nat := y - x - 1;
    Spread(x + 1, more, base);
    Spread(x, 1, base);
    assert more * base >= 0;
  }

  lemma LessByValue(a: Score, b: Score, bound: nat, base: nat)
    requires Within(a, bound) && Within(b, bound) && base > 2 * bound
    ensures Less(a, b) <==> Value(a, base) < Value(b, base)
    ensures a == b <==> Value(a, base) == Value(b, base)
  {
    ValueOrders(a, b, bound, base);
  }
}
