/** Base-128 varints as the CDAP wire codec reads and writes them.

    `Encode` is the reference encoding (the shortest one); `Decode64` and `Decode32` say what the
    two varint readers of pb_decode.c accept, how many bytes they consume and what they return.
    The stream classes are proved against these functions. */
module Varint {

  type byte = x: int | 0 <= x < 256

  const TWO_31: int := 0x8000_0000
  const TWO_32: int := 0x1_0000_0000
  const TWO_63: int := 0x8000_0000_0000_0000
  const TWO_64: int := 0x1_0000_0000_0000_0000

  /** The outcome of reading a value from the front of a byte string. */
  datatype Parse<+T> = Fail | Got(value: T, used: nat)

  /** A reader started on `all` stopped with this outcome, leaving `rest` to be read: what the parse
      says, and nothing is promised about the rest after a failure. */
  predicate Agrees<T(==)>(r: Parse<T>, all: seq<byte>, ok: bool, v: T, rest: seq<byte>) {
    match r
    case Fail => !ok
    case Got(x, n) => ok && v == x && n <= |all| && rest == all[n..]
  }

  lemma SmallMultiple(m: nat, d: int)
    requires -1 * m < m * d < m
    ensures d == 0
  {
  }

  /** Division with remainder has one answer. */
  lemma Divide(x: int, m: nat, q: int, r: nat)
    requires x == m * q + r && r < m
    ensures x / m == q && x % m == r
  {
    assert x == m * (x / m) + x % m;
    assert m * (q - x / m) == x % m - r;
    SmallMultiple(m, q - x / m);
  }

  function Pow128(k: nat): (p: nat)
    ensures p > 0
  {
    if k == 0 then 1 else 128 * Pow128(k - 1)
  }

  /** The shortest base-128 form of a number, low group first. */
  function Encode(v: nat): (s: seq<byte>)
    ensures |s| > 0
  {
    if v < 128 then [v] else [v % 128 + 128] + Encode(v / 128)
  }

  /** The number of leading bytes that announce another byte. */
  function Run(s: seq<byte>): (n: nat)
    ensures n <= |s|
    ensures n < |s| ==> s[n] < 128
    ensures forall i :: 0 <= i < n ==> s[i] >= 128
  {
    if s == [] || s[0] < 128 then 0 else 1 + Run(s[1..])
  }

  /** The number spelled by the low seven bits of the bytes, low group first. */
  function Value(s: seq<byte>): nat {
    if s == [] then 0 else s[0] % 128 + 128 * Value(s[1..])
  }

  /** pb_decode_varint: at most ten bytes, bits above the 64th are dropped. */
  function Decode64(s: seq<byte>): (r: Parse<nat>)
    ensures r.Got? ==> 0 < r.used <= |s| && r.value < TWO_64
  {
    var n := Run(s);
    if n < |s| && n < 10 then Got(Value(s[..n + 1]) % TWO_64, n + 1) else Fail
  }

  /** What a byte after the fifth must be: padding, or sign extension of a negative 32-bit value. */
  predicate Extends(b: byte, i: nat, low: nat) {
    b % 128 == 0 || (low >= TWO_31 && b == if 7 * i < 63 then 0xFF else 0x01)
  }

  /** Whether a whole varint of at most ten bytes passes the 32-bit reader's overflow tests. */
  predicate Narrow(s: seq<byte>) {
    (|s| == 5 ==> s[4] % 128 / 16 == 0) &&
    forall i :: 5 <= i < |s| ==> Extends(s[i], i, Value(s[..5]) % TWO_32)
  }

  /** pb_decode_varint32: the same shape, but the value must fit 32 bits. */
  function Decode32(s: seq<byte>): (r: Parse<nat>)
    ensures r.Got? ==> 0 < r.used <= |s| && r.value < TWO_32
  {
    var n := Run(s);
    if n < |s| && n < 10 && Narrow(s[..n + 1])
    then Got(Value(if n < 5 then s[..n + 1] else s[..5]) % TWO_32, n + 1)
    else Fail
  }

  // ----- the reference encoding -----

  lemma Pow128Values()
    ensures Pow128(1) == 128 && Pow128(4) == 0x1000_0000 && Pow128(5) == 0x8_0000_0000
    ensures Pow128(9) == TWO_63 && Pow128(10) == 128 * TWO_63
  {
    assert Pow128(1) == 128 * Pow128(0);
    assert Pow128(2) == 128 * Pow128(1);
    assert Pow128(3) == 128 * Pow128(2);
    assert Pow128(4) == 128 * Pow128(3);
    assert Pow128(5) == 128 * Pow128(4);
    assert Pow128(6) == 128 * Pow128(5);
    assert Pow128(7) == 128 * Pow128(6);
    assert Pow128(8) == 128 * Pow128(7);
    assert Pow128(9) == 128 * Pow128(8);
  }

  lemma Times128(p: nat, x: nat)
    ensures 128 * (p * x) == 128 * p * x
  {
  }

  lemma {:induction false} ValueAppend(s: seq<byte>, t: seq<byte>)
    ensures Value(s + t) == Value(s) + Pow128(|s|) * Value(t)
  {
    if s == [] {
      assert s + t == t;
    } else {
      ValueAppend(s[1..], t);
      Times128(Pow128(|s| - 1), Value(t));
      ValueFirst(s, t);
    }
  }

  lemma ValueFirst(s: seq<byte>, t: seq<byte>)
    requires s != []
    ensures Value(s + t) == s[0] % 128 + 128 * Value(s[1..] + t)
  {
    assert (s + t)[0] == s[0] && (s + t)[1..] == s[1..] + t;
  }

  lemma {:induction false} ValueBound(s: seq<byte>)
    ensures Value(s) < Pow128(|s|)
  {
    if s != [] {
      ValueBound(s[1..]);
    }
  }

  lemma {:induction false} EncodeRun(v: nat, rest: seq<byte>)
    ensures Run(Encode(v) + rest) == |Encode(v)| - 1
  {
    var e := Encode(v);
    if v >= 128 {
      EncodeRun(v / 128, rest);
      assert (e + rest)[0] == e[0] && (e + rest)[1..] == Encode(v / 128) + rest;
    } else {
      assert (e + rest)[0] == v;
    }
  }

  lemma {:induction false} EncodeValue(v: nat)
    ensures Value(Encode(v)) == v
  {
    if v >= 128 {
      EncodeValue(v / 128);
      assert Encode(v)[1..] == Encode(v / 128);
    } else {
      assert Encode(v)[1..] == [];
    }
  }

  lemma {:induction false} EncodeLast(v: nat)
    ensures Encode(v)[|Encode(v)| - 1] < 128
    ensures |Encode(v)| > 1 ==> Encode(v)[|Encode(v)| - 1] != 0
  {
    if v >= 128 {
      EncodeLast(v / 128);
    }
  }

  /** The reference encoding is a varint of its own: it ends with its only byte below 128, its
      value is the number it encodes, and what follows it does not matter. */
  lemma EncodeShape(v: nat, rest: seq<byte>)
    ensures Run(Encode(v) + rest) == |Encode(v)| - 1
    ensures Value(Encode(v)) == v
    ensures Encode(v)[|Encode(v)| - 1] < 128
    ensures |Encode(v)| > 1 ==> Encode(v)[|Encode(v)| - 1] != 0
  {
    hide Run, Value, Encode;
    EncodeRun(v, rest);
    EncodeValue(v);
    EncodeLast(v);
  }

  /** Exactly the numbers below 128^k have an encoding of at most k bytes. */
  lemma {:induction false} EncodeLength(v: nat, k: nat)
    requires k > 0
    ensures |Encode(v)| <= k <==> v < Pow128(k)
  {
    if v < 128 {
      PowAtLeast(k);
    } else if k > 1 {
      EncodeLength(v / 128, k - 1);
    }
  }

  lemma {:induction false} PowAtLeast(k: nat)
    requires k > 0
    ensures Pow128(k) >= 128
  {
    if k > 1 {
      PowAtLeast(k - 1);
    }
  }

  /** No byte string spelling the same number is shorter than the reference encoding. */
  lemma EncodeIsShortest(s: seq<byte>)
    requires s != []
    ensures |Encode(Value(s))| <= |s|
  {
    ValueBound(s);
    EncodeLength(Value(s), |s|);
  }

  /** The 64-bit reader inverts the encoding of every 64-bit number, whatever bytes follow. */
  lemma Decode64Inverts(v: nat, rest: seq<byte>)
    requires v < TWO_64
    ensures Decode64(Encode(v) + rest) == Got(v, |Encode(v)|)
    ensures |Encode(v)| <= 10
  {
    hide Encode, Value, Run;
    EncodeShape(v, rest);
    Pow128Values();
    EncodeLength(v, 10);
    assert (Encode(v) + rest)[..|Encode(v)|] == Encode(v);
  }

  // ----- the two readers against each other -----

  /** A varint the 32-bit reader accepts is accepted by the 64-bit reader, which consumes the same
      bytes and returns a number with the same low 32 bits. */
  lemma ReadersAgree(s: seq<byte>)
    requires Decode32(s).Got?
    ensures Decode64(s).Got?
    ensures Decode64(s).used == Decode32(s).used
    ensures Decode64(s).value % TWO_32 == Decode32(s).value
  {
    var n := Run(s) + 1;
    var w := s[..n];
    ModuloTwice(Value(w));
    if n > 5 {
      assert w == w[..5] + w[5..] && w[..5] == s[..5];
      ValueAppend(w[..5], w[5..]);
      Pow128Values();
      assert Value(w) == Value(w[..5]) + TWO_32 * (8 * Value(w[5..]));
      ModuloMultiple(Value(w[..5]), 8 * Value(w[5..]));
    } else if n == 5 {
      assert s[..5] == w;
    }
  }

  lemma ModuloTwice(x: nat)
    ensures x % TWO_64 % TWO_32 == x % TWO_32
  {
  }

  lemma ModuloMultiple(x: nat, k: nat)
    ensures (x + TWO_32 * k) % TWO_32 == x % TWO_32
  {
  }

  lemma Decode32Small(v: nat, rest: seq<byte>)
    requires v < TWO_32
    ensures Decode32(Encode(v) + rest) == Got(v, |Encode(v)|)
  {
    hide Encode, Value;
    var e := Encode(v);
    EncodeShape(v, rest);
    Pow128Values();
    EncodeLength(v, 5);
    assert (e + rest)[..|e|] == e;
    if |e| == 5 {
      FifthByte(e);
    }
  }

  lemma Decode32Large(v: nat, rest: seq<byte>)
    requires TWO_32 <= v < TWO_63
    ensures Decode32(Encode(v) + rest) == Fail
  {
    hide Encode, Value;
    var e := Encode(v);
    EncodeShape(v, rest);
    Pow128Values();
    EncodeLength(v, 4);
    EncodeLength(v, 9);
    assert (e + rest)[..|e|] == e;
    if |e| == 5 {
      FifthByte(e);
    } else {
      assert !Extends(e[|e| - 1], |e| - 1, Value(e[..5]) % TWO_32);
    }
  }

  /** On reference encodings the 32-bit reader returns every number below 2^32 exactly and rejects
      every number from 2^32 up to 2^63 - 1. */
  lemma Decode32Canonical(v: nat, rest: seq<byte>)
    ensures v < TWO_32 ==> Decode32(Encode(v) + rest) == Got(v, |Encode(v)|)
    ensures TWO_32 <= v < TWO_63 ==> Decode32(Encode(v) + rest) == Fail
  {
    if v < TWO_32 {
      Decode32Small(v, rest);
    } else if v < TWO_63 {
      Decode32Large(v, rest);
    }
  }

  // ----- the 32-bit reader on numbers that do not fit -----

  /** The i-th group of seven bits. */
  function Group(v: nat, i: nat): nat {
    v / Pow128(i) % 128
  }

  lemma DivideTwice(v: nat, p: nat)
    requires p > 0
    ensures v / 128 / p == v / (128 * p)
  {
    var a := v / 128;
    var q, r := a / p, a % p;
    assert a == p * q + r;
    assert v == 128 * a + v % 128;
    assert 128 * (p * q) == 128 * p * q;
    Divide(v, 128 * p, q, 128 * r + v % 128);
  }

  /** The bytes of the reference encoding are the groups of the number. */
  lemma {:induction false} EncodeGroups(v: nat, i: nat)
    requires i < |Encode(v)|
    ensures Encode(v)[i] % 128 == Group(v, i)
    ensures Encode(v)[i] >= 128 <==> i < |Encode(v)| - 1
  {
    if v >= 128 && i > 0 {
      EncodeGroups(v / 128, i - 1);
      DivideTwice(v, Pow128(i - 1));
    }
  }

  /** Bits 35 to 62 are, group by group, all zero or all one, and bit 31 is set. */
  predicate LooksExtended(v: nat) {
    v / TWO_31 % 2 == 1 && forall i :: 5 <= i <= 8 ==> Group(v, i) == 0 || Group(v, i) == 127
  }

  lemma LowHalf(e: seq<byte>)
    requires |e| >= 5
    ensures Value(e[..5]) % TWO_32 == Value(e) % TWO_32
  {
    hide Value;
    assert e == e[..5] + e[5..];
    ValueAppend(e[..5], e[5..]);
    Pow128Values();
    assert Value(e) == Value(e[..5]) + TWO_32 * (8 * Value(e[5..]));
    ModuloMultiple(Value(e[..5]), 8 * Value(e[5..]));
  }

  lemma SignBit(v: nat)
    ensures v % TWO_32 >= TWO_31 <==> v / TWO_31 % 2 == 1
  {
    var q, r := v / TWO_31, v % TWO_31;
    var h, b := q / 2, q % 2;
    Divide(v, TWO_32, h, b * TWO_31 + r);
  }

  /** Ten bytes: what the tests on the last five come to. */
  lemma TenBytes(v: nat)
    requires |Encode(v)| == 10
    ensures Narrow(Encode(v)) <==> v < TWO_64 && LooksExtended(v)
  {
    hide Encode, Value, Group;
    var e := Encode(v);
    LowHalf(e);
    EncodeValue(v);
    EncodeLast(v);
    SignBit(v);
    LastGroup(v);
    forall i | 5 <= i <= 8
      ensures Extends(e[i], i, v % TWO_32) <==> Group(v, i) == 0 || (v % TWO_32 >= TWO_31 && Group(v, i) == 127)
    {
      EncodeGroups(v, i);
    }
    EncodeGroups(v, 9);
    assert Extends(e[9], 9, v % TWO_32) <==> v % TWO_32 >= TWO_31 && Group(v, 9) == 1;
    assert Narrow(e) <==> forall i :: 5 <= i < 10 ==> Extends(e[i], i, v % TWO_32);
    assert Narrow(e) <==> Extends(e[5], 5, v % TWO_32) && Extends(e[6], 6, v % TWO_32) && Extends(e[7], 7, v % TWO_32) &&
                          Extends(e[8], 8, v % TWO_32) && Extends(e[9], 9, v % TWO_32);
  }

  lemma LastGroup(v: nat)
    requires |Encode(v)| == 10
    ensures TWO_63 <= v && (Group(v, 9) == 1 <==> v < TWO_64)
  {
    Pow128Values();
    EncodeLength(v, 9);
    EncodeLength(v, 10);
    var q := v / TWO_63;
    assert Group(v, 9) == q % 128;
    assert 1 <= q < 128;
  }

  /** On reference encodings the 32-bit reader accepts exactly the numbers that fit 32 bits, and those with
      bit 63 and bit 31 set whose groups between look like sign extension; bits 32 to 34 it never looks
      at. What it returns are the low 32 bits. */
  lemma Decode32Exactly(v: nat, rest: seq<byte>)
    ensures Decode32(Encode(v) + rest).Got? <==> v < TWO_32 || (TWO_63 <= v < TWO_64 && LooksExtended(v))
    ensures Decode32(Encode(v) + rest).Got? ==> Decode32(Encode(v) + rest) == Got(v % TWO_32, |Encode(v)|)
  {
    hide Encode, Decode32, LooksExtended;
    if v < TWO_63 {
      Decode32Canonical(v, rest);
    } else {
      Decode32Top(v, rest);
    }
  }

  lemma Decode32Top(v: nat, rest: seq<byte>)
    requires v >= TWO_63
    ensures Decode32(Encode(v) + rest).Got? <==> v < TWO_64 && LooksExtended(v)
    ensures Decode32(Encode(v) + rest).Got? ==> Decode32(Encode(v) + rest) == Got(v % TWO_32, |Encode(v)|)
  {
    hide Encode, Value, LooksExtended, Narrow, Run;
    var e := Encode(v);
    var s := e + rest;
    EncodeShape(v, rest);
    Pow128Values();
    EncodeLength(v, 9);
    EncodeLength(v, 10);
    assert s[..|e|] == e;
    if |e| == 10 {
      TenBytes(v);
      LowHalf(e);
      assert s[..5] == e[..5];
    }
  }

  /** Not only sign extensions pass: here bits 32 to 62 are all zero. */
  lemma PassesWithoutExtension(rest: seq<byte>)
    ensures Decode32(Encode(TWO_63 + TWO_31) + rest) == Got(TWO_31, |Encode(TWO_63 + TWO_31)|)
  {
    var v := TWO_63 + TWO_31;
    Decode32Exactly(v, rest);
    Pow128Values();
    MiddleGroups(v, 0);
  }

  /** The groups above the fifth of a number whose bits 35 to 62 are h, 0 or 2^28 - 1. */
  lemma MiddleGroups(v: nat, h: nat)
    requires TWO_63 <= v < TWO_64 && (h == 0 || h == 0xFFF_FFFF)
    requires v / Pow128(5) == 0x1000_0000 + h
    ensures forall i :: 5 <= i <= 8 ==> Group(v, i) == if h == 0 then 0 else 127
  {
    var w := v / Pow128(5);
    forall i | 5 <= i <= 8
      ensures Group(v, i) == if h == 0 then 0 else 127
    {
      QuotientOfQuotient(v, 5, i - 5);
      SmallPowers();
    }
  }

  lemma SmallPowers()
    ensures Pow128(0) == 1 && Pow128(1) == 128 && Pow128(2) == 0x4000 && Pow128(3) == 0x20_0000
  {
    assert Pow128(2) == 128 * Pow128(1) && Pow128(3) == 128 * Pow128(2);
  }

  lemma {:induction false} QuotientOfQuotient(v: nat, a: nat, b: nat)
    ensures v / Pow128(a + b) == v / Pow128(a) / Pow128(b)
    decreases a
  {
    if a > 0 {
      DivideTwice(v, Pow128(a + b - 1));
      DivideTwice(v, Pow128(a - 1));
      QuotientOfQuotient(v / 128, a - 1, b);
    }
  }

  /** Every negative 32-bit number, sign-extended to 64 bits, is read as its 32-bit pattern. */
  lemma SignExtensionPasses(x: int, rest: seq<byte>)
    requires -TWO_31 <= x < 0
    ensures Decode32(Encode(ToUnsigned(x)) + rest) == Got(x + TWO_32, |Encode(ToUnsigned(x))|)
  {
    var v := ToUnsigned(x);
    Decode32Exactly(v, rest);
    Pow128Values();
    Divide(v, TWO_31, 0x1_FFFF_FFFF, x + TWO_31);
    Divide(v, TWO_32, 0xFFFF_FFFF, x + TWO_32);
    Divide(v, Pow128(5), 0x1FFF_FFFF, x + 0x8_0000_0000);
    MiddleGroups(v, 0xFFF_FFFF);
  }

  /** The top three bits of a fifth byte are the ones that do not fit 32 bits. */
  lemma FifthByte(e: seq<byte>)
    requires |e| == 5
    ensures e[4] % 128 / 16 == 0 <==> Value(e) < TWO_32
  {
    assert e == e[..4] + [e[4]];
    ValueAppend(e[..4], [e[4]]);
    ValueBound(e[..4]);
    assert Value([e[4]]) == e[4] % 128 by {
      assert [e[4]][1..] == [];
    }
    Pow128Values();
  }

  // ----- signed integers -----

  /** The 64-bit pattern of a signed number. */
  function ToUnsigned(x: int): nat
    requires -TWO_63 <= x < TWO_63
  {
    if x < 0 then x + TWO_64 else x
  }

  /** A number read as two's complement of the given modulus. */
  function ToSigned(x: nat, modulus: nat): int
    requires modulus > 0
  {
    var low := x % modulus;
    if low >= modulus / 2 then low - modulus else low
  }

  /** pb_encode_svarint and pb_decode_svarint without the stream. */
  function ZigZag(x: int): nat {
    if x < 0 then -2 * x - 1 else 2 * x
  }

  function UnZigZag(z: nat): int {
    if z % 2 == 1 then -1 - z / 2 else z / 2
  }

  lemma ZigZagInverts(x: int)
    ensures UnZigZag(ZigZag(x)) == x
    ensures -TWO_63 <= x < TWO_63 <==> ZigZag(x) < TWO_64
  {
  }

  lemma TwosComplementInverts(x: int)
    requires -TWO_63 <= x < TWO_63
    ensures ToUnsigned(x) < TWO_64
    ensures ToSigned(ToUnsigned(x), TWO_64) == x
    ensures -TWO_31 <= x < TWO_31 ==> ToSigned(ToUnsigned(x), TWO_32) == x
  {
  }

  // ----- little-endian fixed-width integers -----

  function FixedEncode(v: nat, width: nat): (s: seq<byte>)
    ensures |s| == width
  {
    if width == 0 then [] else [v % 256] + FixedEncode(v / 256, width - 1)
  }

  function FixedDecode(s: seq<byte>): nat {
    if s == [] then 0 else s[0] + 256 * FixedDecode(s[1..])
  }

  function Pow256(k: nat): (p: nat)
    ensures p > 0
  {
    if k == 0 then 1 else 256 * Pow256(k - 1)
  }

  lemma {:induction false} FixedInverts(v: nat, width: nat)
    requires v < Pow256(width)
    ensures FixedDecode(FixedEncode(v, width)) == v
  {
    if width > 0 {
      FixedInverts(v / 256, width - 1);
    }
  }

  lemma {:induction false} FixedDecodeBound(s: seq<byte>)
    ensures FixedDecode(s) < Pow256(|s|)
  {
    if s != [] {
      FixedDecodeBound(s[1..]);
    }
  }

  lemma Pow256Values()
    ensures Pow256(1) == 256 && Pow256(2) == 65536 && Pow256(4) == TWO_32 && Pow256(8) == TWO_64
  {
    assert Pow256(1) == 256 * Pow256(0);
    assert Pow256(2) == 256 * Pow256(1);
    assert Pow256(3) == 256 * Pow256(2);
    assert Pow256(4) == 256 * Pow256(3);
    assert Pow256(5) == 256 * Pow256(4);
    assert Pow256(6) == 256 * Pow256(5);
    assert Pow256(7) == 256 * Pow256(6);
    assert Pow256(8) == 256 * Pow256(7);
  }
}
