/** What several modules share: optional values, 64-bit saturating arithmetic,
    ASCII case folding and the size of a subset. */
module Basics {

  datatype Option<+T> = None | Some(value: T)

  datatype Result<+T, +E> = Ok(value: T) | Err(error: E)

  /** A half-open range. */
  datatype Span = Span(start: nat, end: nat)

  const USIZE: nat := 0x1_0000_0000_0000_0000
  const USIZE_MAX: nat := 0xFFFF_FFFF_FFFF_FFFF

  function Max(x: nat, y: nat): nat { if x < y then y else x }

  function Min(x: nat, y: nat): nat { if x < y then x else y }

  function SatAdd(x: nat, y: nat): nat { if x + y > USIZE_MAX then USIZE_MAX else x + y }

  function SatSub(x: nat, y: nat): nat { if x < y then 0 else x - y }

  function SatMul(x: nat, y: nat): nat { if x * y > USIZE_MAX then USIZE_MAX else x * y }

  function AsciiLower(c: char): char {
    if 'A' <= c <= 'Z' then (c as int + 32) as char else c
  }

  const CAPITALS: string := "ABCDEFGHIJKLMNOPQRSTUVWXYZ"

  const SMALL: string := "abcdefghijklmnopqrstuvwxyz"

  /** The capital and the small form of one letter, in either order. */
  ghost predicate TwoCases(c: char, d: char) {
    exists k | 0 <= k < 26 :: {c, d} == {CAPITALS[k], SMALL[k]}
  }

  /** Folding identifies the two cases of each of the 26 letters, and nothing else. */
  lemma FoldMeans(c: char, d: char)
    ensures AsciiLower(c) == AsciiLower(d) <==> c == d || TwoCases(c, d)
  {
    LettersAre();
    if AsciiLower(c) == AsciiLower(d) && c != d {
      var k := AsciiLower(c) as int - 'a' as int;
      assert {c, d} == {CAPITALS[k], SMALL[k]};
    }
  }

  lemma LettersAre()
    ensures forall k | 0 <= k < 26 :: CAPITALS[k] == (65 + k) as char && SMALL[k] == (97 + k) as char
  {}

  lemma {:induction false} SubsetSize(a: set<nat>, b: set<nat>)
    requires a <= b
    ensures |a| <= |b|
  {
    if a != {} {
      var x :| x in a;
      SubsetSize(a - {x}, b - {x});
    }
  }
}
