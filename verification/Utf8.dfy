/** UTF-8 as sections 3 and 4 of RFC 3629 define it: the bytes of one scalar never begin those
    of another, so a sequence of bytes splits into characters in one way only, and
    comparing the bytes of two texts from a character boundary compares their characters.
    Malformed bytes do not occur. */
module Utf8 {

  predicate IsScalar(c: nat) { c < 0xD800 || 0xE000 <= c < 0x11_0000 }

  type Scalar = c: nat | IsScalar(c)

  type Text = seq<Scalar>

  const SPACE: Scalar := 0x20

  function Encode(c: Scalar): (r: seq<nat>)
    ensures 1 <= |r| <= 4
  {
    if c < 0x80 then [c]
    else if c < 0x800 then [0xC0 + c / 64, 0x80 + c % 64]
    else if c < 0x1_0000 then [0xE0 + c / 4096, 0x80 + c / 64 % 64, 0x80 + c % 64]
    else [0xF0 + c / 262144, 0x80 + c / 4096 % 64, 0x80 + c / 64 % 64, 0x80 + c % 64]
  }

  function Bytes(t: Text): seq<nat> {
    if t == [] then [] else Encode(t[0]) + Bytes(t[1..])
  }

  // ---------- the octets of the standard ----------

  predicate IsTail(b: nat) { 0x80 <= b <= 0xBF }

  /** The syntax of one character's octets in section 4 of RFC 3629. */
  predicate IsOctets(b: seq<nat>) {
    match |b|
    case 1 => b[0] <= 0x7F
    case 2 => 0xC2 <= b[0] <= 0xDF && IsTail(b[1])
    case 3 =>
      && (0xE0 <= b[0] <= 0xEF && IsTail(b[1]) && IsTail(b[2]))
      && (b[0] == 0xE0 ==> b[1] >= 0xA0) && (b[0] == 0xED ==> b[1] <= 0x9F)
    case 4 =>
      && (0xF0 <= b[0] <= 0xF4 && IsTail(b[1]) && IsTail(b[2]) && IsTail(b[3]))
      && (b[0] == 0xF0 ==> b[1] >= 0x90) && (b[0] == 0xF4 ==> b[1] <= 0x8F)
    case _ => false
  }

  /** The number that the free bits of the octets make, from the table in its section 3. */
  ghost function ValueOf(b: seq<nat>): int
    requires IsOctets(b)
  {
    match |b|
    case 1 => b[0]
    case 2 => (b[0] - 0xC0) * 64 + (b[1] - 0x80)
    case 3 => ((b[0] - 0xE0) * 64 + (b[1] - 0x80)) * 64 + (b[2] - 0x80)
    case 4 => (((b[0] - 0xF0) * 64 + (b[1] - 0x80)) * 64 + (b[2] - 0x80)) * 64 + (b[3] - 0x80)
  }

  lemma ThreeOctets(c: nat, p: nat, q: nat, r: nat)
    requires IsScalar(c) && 0x800 <= c < 0x1_0000 && c == 4096 * p + 64 * q + r && q < 64 && r < 64
    ensures var b := [0xE0 + p, 0x80 + q, 0x80 + r]; IsOctets(b) && ValueOf(b) == c
  {}

  lemma FourOctets(c: nat, o: nat, p: nat, q: nat, r: nat)
    requires 0x1_0000 <= c < 0x11_0000 && c == 262144 * o + 4096 * p + 64 * q + r && p < 64 && q < 64 && r < 64
    ensures var b := [0xF0 + o, 0x80 + p, 0x80 + q, 0x80 + r]; IsOctets(b) && ValueOf(b) == c
  {}

  lemma OctetsOf(c: Scalar)
    ensures IsOctets(Encode(c)) && ValueOf(Encode(c)) == c
  {
    hide IsOctets, ValueOf;
    Split64(c);
    assert IsScalar(c);
    if c < 0x800 {
      FewOctets(c);
    } else if c < 0x1_0000 {
      ThreeOctets(c, c / 4096, c / 64 % 64, c % 64);
    } else {
      FourOctets(c, c / 262144, c / 4096 % 64, c / 64 % 64, c % 64);
    }
  }

  lemma FewOctets(c: nat)
    requires c < 0x800
    ensures IsOctets(Encode(c)) && ValueOf(Encode(c)) == c
  {}

  /** The number fixes the count of the octets. */
  lemma CountOf(b: seq<nat>)
    requires IsOctets(b)
    ensures |b| == 1 <==> ValueOf(b) < 0x80
    ensures |b| == 2 <==> 0x80 <= ValueOf(b) < 0x800
    ensures |b| == 3 <==> 0x800 <= ValueOf(b) < 0x1_0000
    ensures 1 <= |b| <= 4
  {}

  lemma SameDigits(o: nat, p: nat, q: nat, r: nat, o': nat, p': nat, q': nat, r': nat)
    requires p < 64 && q < 64 && r < 64 && p' < 64 && q' < 64 && r' < 64
    requires ((o * 64 + p) * 64 + q) * 64 + r == ((o' * 64 + p') * 64 + q') * 64 + r'
    ensures o == o' && p == p' && q == q' && r == r'
  {
    assert r == r';
    assert q == q';
  }

  /** And with it the octets. */
  lemma OctetsFixed(a: seq<nat>, b: seq<nat>)
    requires IsOctets(a) && IsOctets(b) && ValueOf(a) == ValueOf(b)
    ensures a == b
  {
    CountOf(a);
    CountOf(b);
    match |a|
    case 1 =>
    case 2 => SameDigits(0, 0, a[0] - 0xC0, a[1] - 0x80, 0, 0, b[0] - 0xC0, b[1] - 0x80);
    case 3 => SameDigits(0, a[0] - 0xE0, a[1] - 0x80, a[2] - 0x80, 0, b[0] - 0xE0, b[1] - 0x80, b[2] - 0x80);
    case _ => SameDigits(a[0] - 0xF0, a[1] - 0x80, a[2] - 0x80, a[3] - 0x80,
                         b[0] - 0xF0, b[1] - 0x80, b[2] - 0x80, b[3] - 0x80);
  }

  /** A character's bytes are exactly the octets the standard gives its number. */
  lemma EncodeMeans(c: Scalar, b: seq<nat>)
    ensures Encode(c) == b <==> IsOctets(b) && ValueOf(b) == c
  {
    hide Encode;
    OctetsOf(c);
    if IsOctets(b) && ValueOf(b) == c {
      OctetsFixed(Encode(c), b);
    }
  }

  /** Every octet sequence of the syntax is some character's. */
  lemma OctetsAreOfScalars(b: seq<nat>)
    requires IsOctets(b)
    ensures ValueOf(b) >= 0 && IsScalar(ValueOf(b)) && Encode(ValueOf(b)) == b
  {
    hide Encode;
    EncodeMeans(ValueOf(b), b);
  }

  /** The width, from the first byte alone. */
  function Width(first: nat): nat {
    if first < 0x80 then 1 else if first < 0xE0 then 2 else if first < 0xF0 then 3 else 4
  }

  lemma WidthOf(c: Scalar)
    ensures Width(Encode(c)[0]) == |Encode(c)|
  {}

  lemma Split64(c: nat)
    ensures c == 64 * (c / 64) + c % 64
    ensures c / 64 == 64 * (c / 4096) + c / 64 % 64
    ensures c / 4096 == 64 * (c / 262144) + c / 4096 % 64
  {
    assert c / 64 / 64 == c / 4096;
    assert c / 4096 / 64 == c / 262144;
  }

  /** No scalar's bytes begin another's: reading from the left is unambiguous. */
  lemma EncodeSame(c: Scalar, d: Scalar, x: seq<nat>, y: seq<nat>)
    requires Encode(c) + x == Encode(d) + y
    ensures c == d && x == y
  {
    var e, f := Encode(c), Encode(d);
    assert e[0] == (e + x)[0] == (f + y)[0] == f[0];
    WidthOf(c);
    WidthOf(d);
    var n := |e|;
    assert e == (e + x)[..n] && f == (f + y)[..n];
    assert x == (e + x)[n..] && y == (f + y)[n..];
    Split64(c);
    Split64(d);
    assert forall i | 0 <= i < n :: e[i] == f[i];
  }

  lemma {:induction false} BytesJoin(a: Text, b: Text)
    ensures Bytes(a + b) == Bytes(a) + Bytes(b)
  {
    hide Encode;
    if a == [] {
      assert a + b == b;
    } else {
      BytesJoin(a[1..], b);
      assert (a + b)[1..] == a[1..] + b;
      assert Encode(a[0]) + Bytes(a[1..]) + Bytes(b) == Encode(a[0]) + (Bytes(a[1..]) + Bytes(b));
    }
  }

  lemma {:induction false} PrefixFromBytes(a: Text, b: Text, rest: seq<nat>)
    requires Bytes(b) == Bytes(a) + rest
    ensures a <= b
  {
    if a != [] {
      assert b != [];
      Associates(Encode(a[0]), Bytes(a[1..]), rest);
      EncodeSame(a[0], b[0], Bytes(a[1..]) + rest, Bytes(b[1..]));
      PrefixFromBytes(a[1..], b[1..], rest);
      HeadAndTail(a, b);
    }
  }

  lemma Associates(x: seq<nat>, y: seq<nat>, z: seq<nat>)
    ensures x + y + z == x + (y + z)
  {}

  lemma HeadAndTail(a: Text, b: Text)
    requires a != [] && b != [] && a[0] == b[0] && a[1..] <= b[1..]
    ensures a <= b
  {
    assert a == [a[0]] + a[1..] && b == [b[0]] + b[1..];
  }

  /** A text begins another exactly when its bytes begin the other's bytes. */
  lemma PrefixByBytes(a: Text, b: Text)
    ensures Bytes(a) <= Bytes(b) <==> a <= b
  {
    if a <= b {
      BytesJoin(a, b[|a|..]);
      assert b == a + b[|a|..];
    } else if Bytes(a) <= Bytes(b) {
      PrefixFromBytes(a, b, Bytes(b)[|Bytes(a)|..]);
      assert false;
    }
  }

  /** The character boundaries are the byte lengths of the prefixes. */
  lemma BytesFrom(t: Text, k: nat)
    requires k <= |t|
    ensures |Bytes(t[..k])| <= |Bytes(t)| && Bytes(t)[|Bytes(t[..k])|..] == Bytes(t[k..])
  {
    BytesJoin(t[..k], t[k..]);
    assert t == t[..k] + t[k..];
  }

  /** Byte lengths grow strictly with the characters, so a byte cursor fixes the scalar cursor. */
  lemma {:induction false} LengthGrows(t: Text)
    ensures |Bytes(t)| >= |t| && (|Bytes(t)| == 0 ==> t == [])
  {
    if t != [] {
      LengthGrows(t[1..]);
    }
  }

  lemma CursorUnique(t: Text, k: nat)
    requires k <= |t| && |Bytes(t[..k])| == |Bytes(t)|
    ensures k == |t|
  {
    BytesFrom(t, k);
    LengthGrows(t[k..]);
  }
}
