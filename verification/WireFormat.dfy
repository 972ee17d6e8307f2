/** The wire format as a grammar in plain numbers: which bytes are the encoding of a message. It is
    written down without the encoder, and the encoder is proved to write exactly these bytes. */
module WireFormat {
  import opened Varint
  import opened Schema
  import opened Codec

  /** The bytes are the base-128 spelling of v in as few bytes as possible: seven bits in each, low bits first,
      the top bit set in all but the last. */
  predicate Spells(s: seq<byte>, v: nat) {
    s != [] && v < Pow128(|s|) && (|s| > 1 ==> Pow128(|s| - 1) <= v) &&
    forall i :: 0 <= i < |s| ==> s[i] == v / Pow128(i) % 128 + if i < |s| - 1 then 128 else 0
  }

  /** The bytes are v in little-endian order. */
  predicate LittleEndian(s: seq<byte>, v: nat) {
    forall i :: 0 <= i < |s| ==> s[i] == v / Pow256(i) % 256
  }

  /** The number of the wire type of each C type. */
  function Kind(t: LType): nat {
    match t
    case Bool | Signed | Unsigned | ZigZagged => 0
    case Fixed64 => 1
    case Bytes | String | Submessage | FixedBytes => 2
    case Fixed32 => 5
  }

  /** The bytes are the payload of a value. */
  ghost predicate Carries(f: Field, v: Value, p: seq<byte>)
    decreases f, 0
  {
    match f.ltype
    case Bool => v.Flag? && p == [if v.b then 1 else 0]
    case Unsigned => v.Number? && v.i >= 0 && Spells(p, v.i)
    case Signed =>
      v.Number? && v.i + 0x1_0000_0000_0000_0000 >= 0 && Spells(p, if v.i < 0 then v.i + 0x1_0000_0000_0000_0000 else v.i)
    case ZigZagged => v.Number? && Spells(p, if v.i < 0 then -2 * v.i - 1 else 2 * v.i)
    case Fixed32 => v.Number? && v.i >= 0 && |p| == 4 && LittleEndian(p, v.i)
    case Fixed64 => v.Number? && v.i >= 0 && |p| == 8 && LittleEndian(p, v.i)
    case Bytes | String | FixedBytes => v.Text? && exists n :: Spells(n, |v.bytes|) && p == n + v.bytes
    case Submessage => v.Struct? && exists n, e :: p == n + e && Spells(n, |e|) && Message(f.sub, v.slots, e)
  }

  /** The bytes are the record of a value: eight times the tag plus the number of the wire type, and the payload. */
  ghost predicate Item(f: Field, v: Value, s: seq<byte>)
    decreases f, 1
  {
    exists key, p :: s == key + p && Spells(key, 8 * f.tag + Kind(f.ltype)) && Carries(f, v, p)
  }

  /** One record for each value. */
  ghost predicate Items(f: Field, vs: seq<Value>, s: seq<byte>)
    decreases f, 2, |vs|
  {
    if vs == [] then s == [] else exists a, b :: s == a + b && Item(f, vs[0], a) && Items(f, vs[1..], b)
  }

  /** The payloads of the values, one after the other. */
  ghost predicate Payloads(f: Field, vs: seq<Value>, s: seq<byte>)
    decreases f, 2, |vs|
  {
    if vs == [] then s == [] else exists a, b :: s == a + b && Carries(f, vs[0], a) && Payloads(f, vs[1..], b)
  }

  /** One record of wire type 2 with all the payloads. */
  ghost predicate Packed(f: Field, vs: seq<Value>, s: seq<byte>)
    decreases f, 3
  {
    exists key, n, e :: s == key + n + e && Spells(key, 8 * f.tag + 2) && Spells(n, |e|) && Payloads(f, vs, e)
  }

  /** The bytes are what a field's slot comes to: nothing if it is absent or empty, a packed record for several
      numbers, and a record for each other value. */
  ghost predicate Part(f: Field, slot: Slot, s: seq<byte>)
    decreases f, 4
  {
    match slot
    case One(v) => Item(f, v, s)
    case Maybe(has, v) => if has then Item(f, v, s) else s == []
    case Many(vs) => if vs == [] then s == [] else if Kind(f.ltype) == 2 then Items(f, vs, s) else Packed(f, vs, s)
  }

  /** The parts of all fields, in the order of the descriptor. */
  ghost predicate Message(d: seq<Field>, m: seq<Slot>, s: seq<byte>)
    decreases d
  {
    |m| == |d| &&
    if d == [] then s == [] else exists a, b :: s == a + b && Part(d[0], m[0], a) && Message(d[1..], m[1..], b)
  }

  // ----- each number has one spelling, and the encoder finds it -----

  lemma SpellsEncode(v: nat)
    ensures Spells(Encode(v), v)
  {
    hide Encode, Pow128;
    var e := Encode(v);
    EncodeLength(v, |e|);
    if |e| > 1 {
      EncodeLength(v, |e| - 1);
    }
    forall i | 0 <= i < |e|
      ensures e[i] == v / Pow128(i) % 128 + if i < |e| - 1 then 128 else 0
    {
      EncodeGroups(v, i);
    }
  }

  lemma SpellsOnly(s: seq<byte>, v: nat)
    ensures Spells(s, v) <==> s == Encode(v)
  {
    hide Encode, Pow128;
    var e := Encode(v);
    SpellsEncode(v);
    if Spells(s, v) {
      EncodeLength(v, |s|);
      if |s| > 1 {
        EncodeLength(v, |s| - 1);
      }
      assert |s| == |e|;
      assert forall i :: 0 <= i < |s| ==> s[i] == e[i];
    }
  }

  lemma {:induction false} FixedAt(v: nat, width: nat, i: nat)
    requires i < width
    ensures FixedEncode(v, width)[i] == v / Pow256(i) % 256
  {
    if i > 0 {
      FixedAt(v / 256, width - 1, i - 1);
      DivideTwice256(v, Pow256(i - 1));
    }
  }

  lemma DivideTwice256(v: nat, p: nat)
    requires p > 0
    ensures v / 256 / p == v / (256 * p)
  {
    var a := v / 256;
    var q, r := a / p, a % p;
    assert a == p * q + r;
    assert 256 * (p * q) == 256 * p * q;
    Divide(v, 256 * p, q, 256 * r + v % 256);
  }

  lemma LittleEndianOnly(s: seq<byte>, v: nat)
    ensures LittleEndian(s, v) <==> s == FixedEncode(v, |s|)
  {
    hide FixedEncode, Pow256;
    var e := FixedEncode(v, |s|);
    forall i | 0 <= i < |s|
      ensures e[i] == v / Pow256(i) % 256
    {
      FixedAt(v, |s|, i);
    }
  }

  // ----- the encoder writes the grammar -----

  lemma KeyOnly(f: Field, s: seq<byte>)
    ensures Spells(s, 8 * f.tag + Kind(f.ltype)) <==> s == EncTag(f.tag, WireType(f.ltype))
    ensures Spells(s, 8 * f.tag + 2) <==> s == EncTag(f.tag, PB_WT_STRING)
  {
    SpellsOnly(s, 8 * f.tag + Kind(f.ltype));
    SpellsOnly(s, 8 * f.tag + 2);
  }

  lemma ScalarOnly(f: Field, v: Value, p: seq<byte>)
    requires GoodSize(f) && TypedValue(f, v) && !f.ltype.Submessage?
    ensures Carries(f, v, p) <==> p == EncScalar(f, v)
  {
    hide Spells, LittleEndian;
    match f.ltype
    case Bool =>
    case Unsigned => SpellsOnly(p, v.i);
    case Signed =>
      SignedWithin64(v.i, f.dataSize);
      SpellsOnly(p, ToUnsigned(v.i));
    case ZigZagged => SpellsOnly(p, ZigZag(v.i));
    case Fixed32 => LittleEndianOnly(p, v.i);
    case Fixed64 => LittleEndianOnly(p, v.i);
    case Bytes | String | FixedBytes =>
      SpellsOnly(Encode(|v.bytes|), |v.bytes|);
      if Carries(f, v, p) {
        var n :| Spells(n, |v.bytes|) && p == n + v.bytes;
        SpellsOnly(n, |v.bytes|);
      }
  }

  lemma {:induction false} PayloadsOnly(f: Field, vs: seq<Value>, s: seq<byte>)
    requires GoodField(f) && Packable(f.ltype) && forall i :: 0 <= i < |vs| ==> TypedValue(f, vs[i])
    ensures Payloads(f, vs, s) <==> s == EncPacked(f, vs)
    decreases |vs|
  {
    hide Carries;
    if vs != [] {
      var a, b := EncScalar(f, vs[0]), EncPacked(f, vs[1..]);
      ScalarOnly(f, vs[0], a);
      PayloadsOnly(f, vs[1..], b);
      if Payloads(f, vs, s) {
        var x, y :| s == x + y && Carries(f, vs[0], x) && Payloads(f, vs[1..], y);
        ScalarOnly(f, vs[0], x);
        PayloadsOnly(f, vs[1..], y);
      }
    }
  }

  lemma PackedOnly(f: Field, vs: seq<Value>, s: seq<byte>)
    requires GoodField(f) && Packable(f.ltype) && forall i :: 0 <= i < |vs| ==> TypedValue(f, vs[i])
    ensures var e := EncPacked(f, vs); Packed(f, vs, s) <==> s == EncTag(f.tag, PB_WT_STRING) + Encode(|e|) + e
  {
    hide Spells, Payloads, EncTag;
    var key, e := EncTag(f.tag, PB_WT_STRING), EncPacked(f, vs);
    KeyOnly(f, key);
    SpellsOnly(Encode(|e|), |e|);
    PayloadsOnly(f, vs, e);
    if Packed(f, vs, s) {
      var k, n, x :| s == k + n + x && Spells(k, 8 * f.tag + 2) && Spells(n, |x|) && Payloads(f, vs, x);
      KeyOnly(f, k);
      PayloadsOnly(f, vs, x);
      SpellsOnly(n, |x|);
    }
  }

  lemma {:induction false} CarriesOnly(f: Field, v: Value, p: seq<byte>)
    requires GoodField(f) && TypedValue(f, v)
    ensures Carries(f, v, p) <==> p == EncValue(f, v)
    decreases f, 0
  {
    hide Spells;
    if f.ltype.Submessage? {
      var e := EncMsg(f.sub, v.slots);
      SpellsOnly(Encode(|e|), |e|);
      EncoderWritesTheFormat(f.sub, v.slots, e);
      if Carries(f, v, p) {
        var n, x :| p == n + x && Spells(n, |x|) && Message(f.sub, v.slots, x);
        EncoderWritesTheFormat(f.sub, v.slots, x);
        SpellsOnly(n, |x|);
      }
    } else {
      ScalarOnly(f, v, p);
    }
  }

  lemma {:induction false} ItemOnly(f: Field, v: Value, s: seq<byte>)
    requires GoodField(f) && TypedValue(f, v)
    ensures Item(f, v, s) <==> s == EncTag(f.tag, WireType(f.ltype)) + EncValue(f, v)
    decreases f, 1
  {
    hide Spells, Carries, EncTag, EncValue, WireType, Kind;
    var key, p := EncTag(f.tag, WireType(f.ltype)), EncValue(f, v);
    KeyOnly(f, key);
    CarriesOnly(f, v, p);
    if Item(f, v, s) {
      var k, x :| s == k + x && Spells(k, 8 * f.tag + Kind(f.ltype)) && Carries(f, v, x);
      KeyOnly(f, k);
      CarriesOnly(f, v, x);
    }
  }

  lemma {:induction false} ItemsOnly(f: Field, vs: seq<Value>, s: seq<byte>)
    requires GoodField(f) && forall i :: 0 <= i < |vs| ==> TypedValue(f, vs[i])
    ensures Items(f, vs, s) <==> s == EncEach(f, vs)
    decreases f, 2, |vs|
  {
    hide Item, EncTag, EncValue, WireType;
    if vs != [] {
      var a, b := EncTag(f.tag, WireType(f.ltype)) + EncValue(f, vs[0]), EncEach(f, vs[1..]);
      ItemOnly(f, vs[0], a);
      ItemsOnly(f, vs[1..], b);
      if Items(f, vs, s) {
        var x, y :| s == x + y && Item(f, vs[0], x) && Items(f, vs[1..], y);
        ItemOnly(f, vs[0], x);
        ItemsOnly(f, vs[1..], y);
      }
    }
  }

  lemma {:induction false} PartOnly(f: Field, slot: Slot, s: seq<byte>)
    requires GoodField(f) && TypedSlot(f, slot)
    ensures Part(f, slot, s) <==> s == EncSlot(f, slot)
    decreases f, 3
  {
    hide Item, Items, Packed, EncTag, EncValue;
    match slot
    case One(v) => ItemOnly(f, v, s);
    case Maybe(has, v) => ItemOnly(f, v, s);
    case Many(vs) =>
      if Packable(f.ltype) {
        PackedOnly(f, vs, s);
      } else {
        ItemsOnly(f, vs, s);
      }
  }

  /** The encoding of a message is the one string that the format allows for it. */
  lemma {:induction false} EncoderWritesTheFormat(d: seq<Field>, m: seq<Slot>, s: seq<byte>)
    requires GoodDesc(d) && TypedMsg(d, m)
    ensures Message(d, m, s) <==> s == EncMsg(d, m)
    decreases d, 4
  {
    hide Part, EncSlot;
    if d != [] {
      assert GoodField(d[0]) && TypedSlot(d[0], m[0]);
      TailGood(d, m);
      var a, b := EncSlot(d[0], m[0]), EncMsg(d[1..], m[1..]);
      PartOnly(d[0], m[0], a);
      EncoderWritesTheFormat(d[1..], m[1..], b);
      if Message(d, m, s) {
        var x, y :| s == x + y && Part(d[0], m[0], x) && Message(d[1..], m[1..], y);
        PartOnly(d[0], m[0], x);
        EncoderWritesTheFormat(d[1..], m[1..], y);
      }
    }
  }

  lemma TailGood(d: seq<Field>, m: seq<Slot>)
    requires d != [] && GoodDesc(d) && TypedMsg(d, m)
    ensures GoodDesc(d[1..]) && TypedMsg(d[1..], m[1..])
  {
  }

  // ----- in bytes -----

  lemma OneByte(v: nat)
    requires v < 128
    ensures Encode(v) == [v]
  {
  }

  lemma TwoBytes(v: nat)
    requires 128 <= v < 0x4000
    ensures Encode(v) == [v % 128 + 128, v / 128]
  {
    OneByte(v / 128);
  }

  lemma ThreeBytes(v: nat)
    requires 0x4000 <= v < 0x20_0000
    ensures Encode(v) == [v % 128 + 128, v / 128 % 128 + 128, v / 128 / 128]
  {
    TwoBytes(v / 128);
  }

  lemma OnlyField(f: Field, s: Slot)
    requires GoodField(f) && TypedSlot(f, s)
    ensures GoodDesc([f]) && TypedMsg([f], [s]) && EncMsg([f], [s]) == EncSlot(f, s)
  {
    assert [f][1..] == [] && [s][1..] == [];
    assert EncMsg([], []) == [];
  }

  /** A tag below 16 and its wire type make one byte: 8 times the tag, plus 0, 1, 2 or 5. */
  lemma FirstByte(f: Field, v: Value)
    requires GoodField(f) && f.rule.Required? && f.tag < 16 && TypedValue(f, v)
    ensures EncSlot(f, One(v)) != []
    ensures var b := EncSlot(f, One(v))[0];
            match f.ltype
            case Bool | Signed | Unsigned | ZigZagged => b == 8 * f.tag
            case Fixed64 => b == 8 * f.tag + 1
            case Bytes | String | Submessage | FixedBytes => b == 8 * f.tag + 2
            case Fixed32 => b == 8 * f.tag + 5
  {
    ItemOnly(f, v, EncSlot(f, One(v)));
    OneByte(8 * f.tag + Kind(f.ltype));
    hide Encode, EncValue;
    KeyOnly(f, EncTag(f.tag, WireType(f.ltype)));
    SpellsOnly(EncTag(f.tag, WireType(f.ltype)), 8 * f.tag + Kind(f.ltype));
  }

  const PLACE: Layout := Layout(W1, 0, 0)

  /** The enrollment address 5 in field 1. */
  lemma FiveInField1()
    ensures var f := Field(1, Unsigned, Required, 8, 0, [], PLACE);
            GoodDesc([f]) && TypedMsg([f], [One(Number(5))]) && EncMsg([f], [One(Number(5))]) == [0x08, 0x05]
  {
    var f := Field(1, Unsigned, Required, 8, 0, [], PLACE);
    Pow256Values();
    OnlyField(f, One(Number(5)));
    OneByte(8);
    OneByte(5);
  }

  /** The published examples of the format: 150 in field 1, "testing" in field 2, and 3, 270 and 86942 packed in
      field 4. */
  lemma Number150()
    ensures var f := Field(1, Signed, Required, 4, 0, [], PLACE);
            GoodDesc([f]) && TypedMsg([f], [One(Number(150))]) && EncMsg([f], [One(Number(150))]) == [0x08, 0x96, 0x01]
  {
    var f := Field(1, Signed, Required, 4, 0, [], PLACE);
    Pow256Values();
    OnlyField(f, One(Number(150)));
    OneByte(8);
    TwoBytes(150);
  }

  lemma StringTesting()
    ensures var f := Field(2, String, Optional, 16, 0, [], PLACE);
            var m := [Maybe(true, Text([0x74, 0x65, 0x73, 0x74, 0x69, 0x6E, 0x67]))];
            GoodDesc([f]) && TypedMsg([f], m) &&
            EncMsg([f], m) == [0x12, 0x07, 0x74, 0x65, 0x73, 0x74, 0x69, 0x6E, 0x67]
  {
    var f := Field(2, String, Optional, 16, 0, [], PLACE);
    var text := [0x74, 0x65, 0x73, 0x74, 0x69, 0x6E, 0x67];
    OnlyField(f, Maybe(true, Text(text)));
    OneByte(0x12);
    OneByte(7);
    assert EncValue(f, Text(text)) == [7] + text;
  }

  lemma ThreePacked(f: Field, x: nat, y: nat, z: nat)
    requires GoodSize(f) && f.ltype.Unsigned? && UnsignedFits(x, f.dataSize) && UnsignedFits(y, f.dataSize) && UnsignedFits(z, f.dataSize)
    ensures EncPacked(f, [Number(x), Number(y), Number(z)]) == Encode(x) + (Encode(y) + (Encode(z) + []))
  {
    hide Encode;
    var a, b, c := Number(x), Number(y), Number(z);
    assert [c][1..] == [] && EncPacked(f, [c]) == Encode(z) + [];
    assert [b, c][1..] == [c] && EncPacked(f, [b, c]) == Encode(y) + (Encode(z) + []);
    assert [a, b, c][1..] == [b, c];
  }

  lemma PackedNumbers()
    ensures var f := Field(4, Unsigned, Repeated, 4, 3, [], PLACE);
            var m := [Many([Number(3), Number(270), Number(86942)])];
            GoodDesc([f]) && TypedMsg([f], m) && EncMsg([f], m) == [0x22, 0x06, 0x03, 0x8E, 0x02, 0x9E, 0xA7, 0x05]
  {
    var f := Field(4, Unsigned, Repeated, 4, 3, [], PLACE);
    Pow256Values();
    ThreePacked(f, 3, 270, 86942);
    OneByte(3);
    TwoBytes(270);
    ThreeBytes(86942);
    OneByte(0x22);
    OneByte(6);
    hide Encode, EncPacked, Pow256;
    var vs := [Number(3), Number(270), Number(86942)];
    assert EncPacked(f, vs) == [0x03, 0x8E, 0x02, 0x9E, 0xA7, 0x05];
    assert TypedSlot(f, Many(vs));
    OnlyField(f, Many(vs));
    assert EncSlot(f, Many(vs)) == [0x22] + [0x06] + [0x03, 0x8E, 0x02, 0x9E, 0xA7, 0x05];
  }
}
