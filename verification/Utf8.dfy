/** pb_validate_utf8 against the definition of UTF-8 by code points. */
module Utf8 {
  import opened Varint

  // ----- UTF-8 by code points -----

  /** The scalar values of Unicode, without the two the validator refuses on top. */
  predicate Allowed(c: nat) {
    c <= 0x10FFFF && !(0xD800 <= c <= 0xDFFF) && c != 0xFFFE && c != 0xFFFF
  }

  /** The encoding of section 3 of RFC 3629. */
  function EncodePoint(c: nat): (s: seq<byte>)
    requires Allowed(c)
    ensures 1 <= |s| <= 4
  {
    if c < 0x80 then [c]
    else if c < 0x800 then [0xC0 + c / 64, 0x80 + c % 64]
    else if c < 0x1_0000 then [0xE0 + c / 4096, 0x80 + c / 64 % 64, 0x80 + c % 64]
    else [0xF0 + c / 0x4_0000, 0x80 + c / 4096 % 64, 0x80 + c / 64 % 64, 0x80 + c % 64]
  }

  function EncodePoints(cs: seq<nat>): seq<byte>
    requires forall i :: 0 <= i < |cs| ==> Allowed(cs[i])
  {
    if cs == [] then [] else EncodePoint(cs[0]) + EncodePoints(cs[1..])
  }

  predicate Spells(cs: seq<nat>, s: seq<byte>) {
    (forall i :: 0 <= i < |cs| ==> Allowed(cs[i])) && s == EncodePoints(cs)
  }

  /** The bytes are the encoding of some allowed code points. */
  ghost predicate WellFormed(s: seq<byte>) {
    exists cs :: Spells(cs, s)
  }

  // ----- UTF-8 by byte ranges -----

  predicate Tail(b: byte) {
    0x80 <= b <= 0xBF
  }

  /** The productions UTF8-1 to UTF8-4 of section 4 of RFC 3629, less U+FFFE and U+FFFF. */
  predicate Starts(t: seq<byte>, n: nat) {
    n <= |t| &&
    match n
    case 1 => t[0] <= 0x7F
    case 2 => 0xC2 <= t[0] <= 0xDF && Tail(t[1])
    case 3 =>
      Tail(t[2]) &&
      ((t[0] == 0xE0 && 0xA0 <= t[1] <= 0xBF) || (0xE1 <= t[0] <= 0xEC && Tail(t[1])) ||
       (t[0] == 0xED && 0x80 <= t[1] <= 0x9F) || (0xEE <= t[0] <= 0xEF && Tail(t[1]))) &&
      !(t[0] == 0xEF && t[1] == 0xBF && t[2] >= 0xBE)
    case 4 =>
      Tail(t[2]) && Tail(t[3]) &&
      ((t[0] == 0xF0 && 0x90 <= t[1] <= 0xBF) || (0xF1 <= t[0] <= 0xF3 && Tail(t[1])) ||
       (t[0] == 0xF4 && 0x80 <= t[1] <= 0x8F))
    case _ => false
  }

  function PointOf(t: seq<byte>, n: nat): nat
    requires Starts(t, n)
  {
    match n
    case 1 => t[0]
    case 2 => Groups(0, 0, t[0] - 0xC0, t[1] - 0x80)
    case 3 => Groups(0, t[0] - 0xE0, t[1] - 0x80, t[2] - 0x80)
    case _ => Groups(t[0] - 0xF0, t[1] - 0x80, t[2] - 0x80, t[3] - 0x80)
  }

  /** Four groups of six bits. */
  function Groups(a: nat, b: nat, c: nat, d: nat): nat {
    64 * (64 * (64 * a + b) + c) + d
  }

  lemma GroupsOf(a: nat, b: nat, c: nat, d: nat)
    requires b < 64 && c < 64 && d < 64
    ensures var x := Groups(a, b, c, d);
            x % 64 == d && x / 64 % 64 == c && x / 4096 % 64 == b && x / 0x4_0000 == a && x / 4096 == 64 * a + b &&
            x / 64 == 4096 * a + 64 * b + c
  {
    var x := Groups(a, b, c, d);
    Divide(x, 64, 64 * (64 * a + b) + c, d);
    Divide(x / 64, 64, 64 * a + b, c);
    Divide(x, 4096, 64 * a + b, 64 * c + d);
    Divide(x / 4096, 64, a, b);
    Divide(x, 0x4_0000, a, 4096 * b + 64 * c + d);
  }

  lemma IntoGroups(x: nat)
    ensures x == Groups(x / 0x4_0000, x / 4096 % 64, x / 64 % 64, x % 64)
    ensures x / 4096 < 64 ==> x / 0x4_0000 == 0
  {
    var q := x / 64;
    var p := q / 64;
    Divide(x, 4096, p, 64 * (q % 64) + x % 64);
    Divide(x, 0x4_0000, p / 64, 4096 * (p % 64) + 64 * (q % 64) + x % 64);
  }

  lemma OneByte(a: byte)
    requires Starts([a], 1)
    ensures var c := PointOf([a], 1); Allowed(c) && EncodePoint(c) == [a]
  {
  }

  lemma TwoBytes(a: byte, b: byte)
    requires Starts([a, b], 2)
    ensures var c := PointOf([a, b], 2); Allowed(c) && EncodePoint(c) == [a, b]
  {
    GroupsOf(0, 0, a - 0xC0, b - 0x80);
  }

  lemma ThreeBytes(a: byte, b: byte, c: byte)
    requires Starts([a, b, c], 3)
    ensures var p := PointOf([a, b, c], 3); Allowed(p) && EncodePoint(p) == [a, b, c]
  {
    GroupsOf(0, a - 0xE0, b - 0x80, c - 0x80);
  }

  lemma FourBytes(a: byte, b: byte, c: byte, d: byte)
    requires Starts([a, b, c, d], 4)
    ensures var p := PointOf([a, b, c, d], 4); Allowed(p) && EncodePoint(p) == [a, b, c, d]
  {
    GroupsOf(a - 0xF0, b - 0x80, c - 0x80, d - 0x80);
    var p := PointOf([a, b, c, d], 4);
    assert p == Groups(a - 0xF0, b - 0x80, c - 0x80, d - 0x80) && 16 <= p / 4096 <= 0x10F;
    hide Starts, PointOf, Groups;
    assert 0x1_0000 <= p < 0x11_0000;
  }

  /** A production spells one allowed code point. */
  lemma StartsIsPoint(t: seq<byte>, n: nat)
    requires Starts(t, n)
    ensures Allowed(PointOf(t, n)) && EncodePoint(PointOf(t, n)) == t[..n]
  {
    var u := t[..n];
    SamePoint(t, u, n);
    hide Starts, PointOf, EncodePoint, Allowed;
    match n
    case 1 =>
      OneByte(t[0]);
      assert u == [t[0]];
    case 2 =>
      assert u == [t[0], t[1]];
      TwoBytes(t[0], t[1]);
    case 3 =>
      assert u == [t[0], t[1], t[2]];
      ThreeBytes(t[0], t[1], t[2]);
    case 4 =>
      assert u == [t[0], t[1], t[2], t[3]];
      FourBytes(t[0], t[1], t[2], t[3]);
    case _ =>
      assert false;
  }

  /** Only the first n bytes matter. */
  lemma SamePoint(t: seq<byte>, u: seq<byte>, n: nat)
    requires n <= |t| && n <= |u| && t[..n] == u[..n]
    ensures Starts(t, n) <==> Starts(u, n)
    ensures Starts(t, n) ==> 1 <= n <= 4 && PointOf(t, n) == PointOf(u, n)
  {
    assert forall i :: 0 <= i < n ==> t[i] == t[..n][i] && u[i] == u[..n][i];
  }

  /** Every allowed code point is spelled by a production of its own length, and read back from it. */
  predicate Inverts(c: nat)
    requires Allowed(c)
  {
    var e := EncodePoint(c);
    Starts(e, |e|) && PointOf(e, |e|) == c
  }

  lemma ShortInverts(c: nat)
    requires Allowed(c) && c < 0x800
    ensures Inverts(c)
  {
    IntoGroups(c);
  }

  lemma ThreeInverts(c: nat)
    requires Allowed(c) && 0x800 <= c < 0x1_0000
    ensures Inverts(c)
  {
    IntoGroups(c);
    hide Groups;
  }

  lemma FourInverts(c: nat)
    requires Allowed(c) && 0x1_0000 <= c
    ensures Inverts(c)
  {
    IntoGroups(c);
  }

  /** And an allowed code point is spelled by a production, of the length that its first byte fixes. */
  lemma PointStarts(c: nat, rest: seq<byte>)
    requires Allowed(c)
    ensures Starts(EncodePoint(c) + rest, |EncodePoint(c)|)
    ensures PointOf(EncodePoint(c) + rest, |EncodePoint(c)|) == c
  {
    var e := EncodePoint(c);
    if c < 0x800 {
      ShortInverts(c);
    } else if c < 0x1_0000 {
      ThreeInverts(c);
    } else {
      FourInverts(c);
    }
    hide Starts, PointOf, EncodePoint;
    Dropping(e, rest);
    assert e[..|e|] == e;
    SamePoint(e, e + rest, |e|);
  }

  lemma OneLength(t: seq<byte>, m: nat, n: nat)
    requires Starts(t, m) && Starts(t, n)
    ensures m == n
  {
  }

  lemma Dropping<T>(a: seq<T>, b: seq<T>)
    ensures (a + b)[|a|..] == b && (a + b)[..|a|] == a
  {
  }

  /** The first code point of a non-empty string. */
  lemma FirstPoint(cs: seq<nat>, s: seq<byte>) returns (n: nat)
    requires Spells(cs, s) && s != []
    ensures Starts(s, n) && Spells(cs[1..], s[n..])
  {
    n := |EncodePoint(cs[0])|;
    PointStarts(cs[0], EncodePoints(cs[1..]));
    Dropping(EncodePoint(cs[0]), EncodePoints(cs[1..]));
  }

  lemma BeforePoint(s: seq<byte>, n: nat, cs: seq<nat>)
    requires Starts(s, n) && Spells(cs, s[n..])
    ensures WellFormed(s)
  {
    assert 0 < n <= |s|;
    StartsIsPoint(s, n);
    var c := PointOf(s, n);
    hide Starts, PointOf, EncodePoint, Allowed;
    var all := [c] + cs;
    assert all[1..] == cs && s == s[..n] + s[n..];
    assert Spells(all, s);
  }

  lemma AfterPoint(s: seq<byte>, n: nat)
    requires Starts(s, n)
    ensures WellFormed(s) <==> WellFormed(s[n..])
  {
    assert 0 < n <= |s|;
    hide Starts, EncodePoints;
    if WellFormed(s) {
      var cs :| Spells(cs, s);
      var k := FirstPoint(cs, s);
      OneLength(s, k, n);
    }
    if WellFormed(s[n..]) {
      var cs :| Spells(cs, s[n..]);
      BeforePoint(s, n, cs);
    }
  }

  lemma NoPoint(s: seq<byte>)
    requires s != [] && !Starts(s, 1) && !Starts(s, 2) && !Starts(s, 3) && !Starts(s, 4)
    ensures !WellFormed(s)
  {
    if WellFormed(s) {
      var cs :| Spells(cs, s);
      var n := FirstPoint(cs, s);
    }
  }

  // ----- the validator -----

  /** b & ~(bits - 1), for a power of two. */
  function Mask(b: byte, bits: nat): nat
    requires bits > 0
  {
    b - b % bits
  }

  lemma MaskIs(b: byte, bits: nat, v: nat)
    requires bits > 0 && v % bits == 0
    ensures Mask(b, bits) == v <==> v <= b < v + bits
  {
    if v <= b < v + bits {
      Divide(b, bits, v / bits, b - v);
    }
  }

  lemma Masks(b: byte)
    ensures Mask(b, 2) == 0xC0 <==> 0xC0 <= b <= 0xC1
    ensures Mask(b, 2) == 0xBE <==> 0xBE <= b <= 0xBF
    ensures Mask(b, 8) == 0xF0 <==> 0xF0 <= b <= 0xF7
    ensures Mask(b, 16) == 0xE0 <==> 0xE0 <= b <= 0xEF
    ensures Mask(b, 16) == 0x80 <==> 0x80 <= b <= 0x8F
    ensures Mask(b, 32) == 0xC0 <==> 0xC0 <= b <= 0xDF
    ensures Mask(b, 32) == 0x80 <==> 0x80 <= b <= 0x9F
    ensures Mask(b, 32) == 0xA0 <==> 0xA0 <= b <= 0xBF
    ensures Mask(b, 64) == 0x80 <==> Tail(b)
  {
    MaskIs(b, 2, 0xC0);
    MaskIs(b, 2, 0xBE);
    MaskIs(b, 8, 0xF0);
    MaskIs(b, 16, 0xE0);
    MaskIs(b, 16, 0x80);
    MaskIs(b, 32, 0xC0);
    MaskIs(b, 32, 0x80);
    MaskIs(b, 32, 0xA0);
    MaskIs(b, 64, 0x80);
  }

  /** A C string: its only NUL is the last byte, so that a read past it is out of range. */
  predicate Terminated(str: seq<byte>) {
    str != [] && str[|str| - 1] == 0 && forall i :: 0 <= i < |str| - 1 ==> str[i] != 0
  }

  /** A pointer that moves n bytes has passed one production; one that stays has found none. */
  predicate Scanned(t: seq<byte>, n: nat) {
    if n > 0 then Starts(t, n) else !Starts(t, 1) && !Starts(t, 2) && !Starts(t, 3) && !Starts(t, 4)
  }

  /** Two, three and four bytes, after the first byte has told which. */
  method ScanTwo(t: seq<byte>) returns (n: nat)
    requires Terminated(t) && Mask(t[0], 32) == 0xC0
    ensures n < |t| && Scanned(t, n)
  {
    Masks(t[0]);
    Masks(t[1]);
    n := if Mask(t[1], 64) != 0x80 || Mask(t[0], 2) == 0xC0 then 0 else 2;
  }

  method ScanThree(t: seq<byte>) returns (n: nat)
    requires Terminated(t) && Mask(t[0], 16) == 0xE0
    ensures n < |t| && Scanned(t, n)
  {
    Masks(t[0]);
    Masks(t[1]);
    if Mask(t[1], 64) != 0x80 {
      return 0;
    }
    Masks(t[2]);
    n := if Mask(t[2], 64) != 0x80 || (t[0] == 0xE0 && Mask(t[1], 32) == 0x80) ||
            (t[0] == 0xED && Mask(t[1], 32) == 0xA0) ||
            (t[0] == 0xEF && t[1] == 0xBF && Mask(t[2], 2) == 0xBE) then 0 else 3;
  }

  method ScanFour(t: seq<byte>) returns (n: nat)
    requires Terminated(t) && Mask(t[0], 8) == 0xF0
    ensures n < |t| && Scanned(t, n)
  {
    Masks(t[0]);
    Masks(t[1]);
    if Mask(t[1], 64) != 0x80 {
      return 0;
    }
    Masks(t[2]);
    if Mask(t[2], 64) != 0x80 {
      return 0;
    }
    Masks(t[3]);
    n := if Mask(t[3], 64) != 0x80 || (t[0] == 0xF0 && Mask(t[1], 16) == 0x80) ||
            (t[0] == 0xF4 && t[1] > 0x8F) || t[0] > 0xF4 then 0 else 4;
  }

  /** The body of the loop: how far the pointer moves, 0 for `return false`. */
  method Scan(t: seq<byte>) returns (n: nat)
    requires Terminated(t) && t[0] != 0
    ensures n < |t| && Scanned(t, n)
  {
    Masks(t[0]);
    if t[0] < 0x80 {
      n := 1;
    } else if Mask(t[0], 32) == 0xC0 {
      n := ScanTwo(t);
    } else if Mask(t[0], 16) == 0xE0 {
      n := ScanThree(t);
    } else if Mask(t[0], 8) == 0xF0 {
      n := ScanFour(t);
    } else {
      n := 0;
    }
  }

  /** The terminator is not part of any production but the first. */
  lemma BeforeNul(t: seq<byte>, n: nat)
    requires Terminated(t) && |t| > 1
    ensures Scanned(t, n) <==> Scanned(t[..|t| - 1], n)
  {
    var u := t[..|t| - 1];
    assert t == u + [0];
  }

  lemma AdvancePointer(s: seq<byte>, n: nat)
    requires n < |s|
    ensures s[..|s| - 1][n..] == s[n..][..|s| - n - 1]
  {
  }

  /** pb_validate_utf8. Every read is within the string and its terminator. */
  method Validate(str: seq<byte>) returns (ok: bool)
    requires Terminated(str)
    ensures ok <==> WellFormed(str[..|str| - 1])
  {
    ghost var text := str[..|str| - 1];
    var s := str;
    while s[0] != 0
      invariant Terminated(s)
      invariant WellFormed(text) <==> WellFormed(s[..|s| - 1])
      decreases |s|
    {
      ghost var t := s[..|s| - 1];
      var n := Scan(s);
      BeforeNul(s, n);
      if n == 0 {
        NoPoint(t);
        return false;
      }
      AfterPoint(t, n);
      AdvancePointer(s, n);
      s := s[n..];
    }
    assert Spells([], s[..|s| - 1]);
    ok := true;
  }
}
