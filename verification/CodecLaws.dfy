/** Laws of the decoder that hold for every byte string. */
module CodecLaws {
  import opened Varint
  import opened Schema
  import opened Codec

  // ----- what follows a record does not matter -----

  lemma TakePrefix<T>(a: seq<T>, b: seq<T>)
    ensures (a + b)[..|a|] == a && (a + b)[|a|..] == b
  {
  }

  lemma {:induction false} RunExtends(a: seq<byte>, b: seq<byte>)
    requires Run(a) < |a|
    ensures Run(a + b) == Run(a)
  {
    if a[0] >= 128 {
      assert (a + b)[1..] == a[1..] + b;
      RunExtends(a[1..], b);
    }
  }

  lemma Decode64Extends(a: seq<byte>, b: seq<byte>)
    requires Decode64(a).Got?
    ensures Decode64(a + b) == Decode64(a)
  {
    RunExtends(a, b);
    assert (a + b)[..Run(a) + 1] == a[..Run(a) + 1];
  }

  lemma Decode32Extends(a: seq<byte>, b: seq<byte>)
    requires Decode32(a).Got?
    ensures Decode32(a + b) == Decode32(a)
  {
    var n := Run(a);
    RunExtends(a, b);
    assert (a + b)[..n + 1] == a[..n + 1];
    if n >= 5 {
      assert (a + b)[..5] == a[..5];
    }
  }

  lemma DecStringExtends(a: seq<byte>, b: seq<byte>)
    requires DecString(a).Got?
    ensures DecString(a + b) == DecString(a)
  {
    Decode32Extends(a, b);
    var n := Decode32(a).used;
    var size := Decode32(a).value;
    assert (a + b)[n..n + size] == a[n..n + size];
  }

  lemma SkipExtends(wt: nat, a: seq<byte>, b: seq<byte>)
    requires Skip(wt, a).Got?
    ensures Skip(wt, a + b) == Skip(wt, a)
  {
    if wt == PB_WT_VARINT {
      RunExtends(a, b);
    } else if wt == PB_WT_STRING {
      DecStringExtends(a, b);
    }
  }

  lemma DecScalarExtends(f: Field, a: seq<byte>, b: seq<byte>)
    requires DecScalar(f, a).Got?
    ensures DecScalar(f, a + b) == DecScalar(f, a)
  {
    match f.ltype
    case Bool => Decode32Extends(a, b);
    case Signed | Unsigned | ZigZagged => Decode64Extends(a, b);
    case Fixed32 => assert (a + b)[..4] == a[..4];
    case Fixed64 => assert (a + b)[..8] == a[..8];
    case Bytes | String | FixedBytes => DecStringExtends(a, b);
  }

  lemma DecValueExtends(f: Field, cur: Value, a: seq<byte>, b: seq<byte>)
    requires DecValue(f, cur, a).Got?
    ensures DecValue(f, cur, a + b) == DecValue(f, cur, a)
  {
    if f.ltype.Submessage? {
      DecStringExtends(a, b);
    } else {
      DecScalarExtends(f, a, b);
    }
  }

  lemma DecSlotExtends(f: Field, wt: nat, slot: Slot, a: seq<byte>, b: seq<byte>)
    requires DecSlot(f, wt, slot, a).Got?
    ensures DecSlot(f, wt, slot, a + b) == DecSlot(f, wt, slot, a)
  {
    if f.rule.Repeated? && wt == PB_WT_STRING && Packable(f.ltype) {
      DecStringExtends(a, b);
    } else {
      match slot
      case One(cur) => DecValueExtends(f, cur, a, b);
      case Maybe(_, cur) => DecValueExtends(f, cur, a, b);
      case Many(_) => DecValueExtends(f, DefaultValue(f), a, b);
    }
  }

  lemma DecRecordExtends(d: seq<Field>, st: State, tag: nat, wt: nat, a: seq<byte>, b: seq<byte>)
    requires DecRecord(d, st, tag, wt, a).Got?
    ensures DecRecord(d, st, tag, wt, a + b) == DecRecord(d, st, tag, wt, a)
  {
    var k := Find(d, tag);
    if k < |d| {
      assert DecKnown(d, st, k, wt, a).Got?;
      DecSlotExtends(d[k], wt, st.m[k], a, b);
      assert DecKnown(d, st, k, wt, a + b) == DecKnown(d, st, k, wt, a);
    } else {
      SkipExtends(wt, a, b);
    }
  }

  lemma DecOneExtends(d: seq<Field>, st: State, a: seq<byte>, b: seq<byte>)
    requires DecOne(d, st, a).Got?
    ensures DecOne(d, st, a + b) == DecOne(d, st, a)
  {
    Decode32Extends(a, b);
    var Got((tag, wt), n) := DecTag(a);
    assert (a + b)[n..] == a[n..] + b;
    assert DecRecord(d, st, tag, wt, a[n..]).Got?;
    DecRecordExtends(d, st, tag, wt, a[n..], b);
  }

  // ----- concatenation -----

  /** Decoding a concatenation is decoding the parts one after the other. */
  lemma {:induction false} LoopConcat(d: seq<Field>, st: State, a: seq<byte>, b: seq<byte>)
    requires DecLoop(d, st, a).Some?
    ensures DecLoop(d, st, a + b) == DecLoop(d, DecLoop(d, st, a).value, b)
    decreases |a|
  {
    if a == [] {
      assert a + b == b;
    } else {
      DecOneExtends(d, st, a, b);
      var Got(st', n) := DecOne(d, st, a);
      assert (a + b)[n..] == a[n..] + b;
      LoopConcat(d, st', a[n..], b);
    }
  }

  /** What was seen before a record does not change what the record does. */
  lemma OneSeen(d: seq<Field>, st: State, extra: set<nat>, s: seq<byte>)
    ensures DecOne(d, st.(seen := st.seen + extra), s) ==
            match DecOne(d, st, s)
            case Fail => Fail
            case Got(st', n) => Got(st'.(seen := st'.seen + extra), n)
  {
    var wide := st.(seen := st.seen + extra);
    match DecTag(s) {
      case Fail =>
      case Got((tag, wt), n) =>
        var k := Find(d, tag);
        var r, r' := DecRecord(d, st, tag, wt, s[n..]), DecRecord(d, wide, tag, wt, s[n..]);
        if k < |d| {
          assert DecKnown(d, st, k, wt, s[n..]).Got? <==> DecKnown(d, wide, k, wt, s[n..]).Got?;
          assert Mark(d, k, wide.seen) == Mark(d, k, st.seen) + extra;
        }
    }
  }

  /** Required fields already seen only ever help. */
  lemma {:induction false} LoopSeen(d: seq<Field>, st: State, extra: set<nat>, s: seq<byte>)
    ensures DecLoop(d, st.(seen := st.seen + extra), s) ==
            match DecLoop(d, st, s)
            case None => None
            case Some(st') => Some(st'.(seen := st'.seen + extra))
    decreases |s|
  {
    if s != [] {
      OneSeen(d, st, extra, s);
      match DecOne(d, st, s) {
        case Fail =>
        case Got(st', n) => LoopSeen(d, st', extra, s[n..]);
      }
    }
  }

  /** The merge that pb_decode.h promises for PB_DECODE_NOINIT, for any byte strings: when the first
      string decodes and the second decodes on top of the result, the concatenation decodes, and to
      the same struct. */
  lemma DecodeConcat(d: seq<Field>, m: seq<Slot>, a: seq<byte>, b: seq<byte>)
    requires DecInner(d, m, a).Some?
    requires DecInner(d, DecInner(d, m, a).value, b).Some?
    ensures DecInner(d, m, a + b) == DecInner(d, DecInner(d, m, a).value, b)
  {
    LoopConcat(d, State(m, {}), a, b);
    var mid := DecLoop(d, State(m, {}), a).value;
    LoopSeen(d, State(mid.m, {}), mid.seen, b);
    assert State(mid.m, {}).(seen := {} + mid.seen) == mid;
  }

  /** Conversely, once the first string decodes, the concatenation fails exactly when the second has a
      record the decoder rejects: its own missing required fields are made up for by the first. */
  lemma DecodeConcatFails(d: seq<Field>, m: seq<Slot>, a: seq<byte>, b: seq<byte>)
    requires DecInner(d, m, a).Some?
    ensures DecInner(d, m, a + b).None? <==> DecLoop(d, State(DecInner(d, m, a).value, {}), b).None?
  {
    LoopConcat(d, State(m, {}), a, b);
    var mid := DecLoop(d, State(m, {}), a).value;
    LoopSeen(d, State(mid.m, {}), mid.seen, b);
    assert State(mid.m, {}).(seen := {} + mid.seen) == mid;
  }

  // ----- records, by their bytes alone -----

  /** Bytes that announce another, and one that does not. */
  predicate Terminated(p: seq<byte>) {
    p != [] && p[|p| - 1] < 128 && forall i :: 0 <= i < |p| - 1 ==> p[i] >= 128
  }

  /** A length and as many bytes. */
  predicate Delimited(p: seq<byte>) {
    Decode32(p).Got? && Decode32(p).used + Decode32(p).value == |p|
  }

  /** Exactly one payload of a wire type: a varint of any length, eight bytes, a length and as many bytes, or
      four bytes. */
  predicate Payload(wt: nat, p: seq<byte>) {
    match wt
    case 0 => Terminated(p)
    case 1 => |p| == 8
    case 2 => Delimited(p)
    case 5 => |p| == 4
    case _ => false
  }

  /** The tag, the wire type and the payload of a record; the tag is 0 if there is none. */
  function TagOf(u: seq<byte>): nat {
    match Decode32(u) case Fail => 0 case Got(v, _) => v / 8
  }

  function TypeOf(u: seq<byte>): nat {
    match Decode32(u) case Fail => 0 case Got(v, _) => v % 8
  }

  function BodyOf(u: seq<byte>): seq<byte> {
    match Decode32(u) case Fail => [] case Got(_, n) => u[n..]
  }

  /** A key, which holds a tag and a wire type, and one payload of that type. */
  predicate IsRecord(u: seq<byte>) {
    Decode32(u).Got? && Payload(TypeOf(u), BodyOf(u))
  }

  lemma {:induction false} RunIs(p: seq<byte>, n: nat, rest: seq<byte>)
    requires n < |p| && p[n] < 128 && forall i :: 0 <= i < n ==> p[i] >= 128
    ensures Run(p + rest) == n
  {
    assert (p + rest)[0] == p[0];
    if n > 0 {
      assert (p + rest)[1..] == p[1..] + rest;
      RunIs(p[1..], n - 1, rest);
    }
  }

  lemma RunPrefix(s: seq<byte>, n: nat)
    requires Run(s) < n <= |s|
    ensures Run(s[..n]) == Run(s)
  {
    RunIs(s[..n], Run(s), []);
    assert s[..n] + [] == s[..n];
  }

  lemma Decode32Prefix(s: seq<byte>, n: nat)
    requires Decode32(s).Got? && Decode32(s).used <= n <= |s|
    ensures Decode32(s[..n]) == Decode32(s)
  {
    var r := Run(s);
    RunPrefix(s, n);
    assert s[..n][..r + 1] == s[..r + 1];
    if r >= 5 {
      assert s[..n][..5] == s[..5];
    }
  }

  /** A number's bytes, whichever reader takes them, are one payload of wire type 0. */
  lemma VarintIsPayload(s: seq<byte>)
    requires Run(s) < |s|
    ensures Payload(0, s[..Run(s) + 1])
  {
    assert Terminated(s[..Run(s) + 1]);
  }

  lemma StringIsPayload(s: seq<byte>)
    requires DecString(s).Got?
    ensures Payload(2, s[..DecString(s).used])
  {
    Decode32Prefix(s, DecString(s).used);
    hide Decode32;
    assert Delimited(s[..DecString(s).used]);
  }

  lemma PayloadSkips(wt: nat, p: seq<byte>, rest: seq<byte>)
    requires Payload(wt, p)
    ensures Skip(wt, p + rest) == Got((), |p|)
  {
    if wt == 0 {
      RunIs(p, |p| - 1, rest);
    } else if wt == 2 {
      Decode32Extends(p, rest);
    }
  }

  lemma SkipIsPayload(wt: nat, s: seq<byte>)
    requires Skip(wt, s).Got?
    ensures Payload(wt, s[..Skip(wt, s).used])
  {
    if wt == 0 {
      VarintIsPayload(s);
    } else if wt == 2 {
      StringIsPayload(s);
    }
  }

  /** Skipping consumes n bytes exactly if the first n bytes are one payload of the wire type. */
  lemma SkipExactly(wt: nat, s: seq<byte>, n: nat)
    requires n <= |s|
    ensures Skip(wt, s) == Got((), n) <==> Payload(wt, s[..n])
  {
    if Payload(wt, s[..n]) {
      PayloadSkips(wt, s[..n], s[n..]);
      assert s[..n] + s[n..] == s;
    } else if Skip(wt, s) == Got((), n) {
      SkipIsPayload(wt, s);
    }
  }

  // ----- unknown fields -----

  /** One record, of whatever wire type, whose tag the descriptor does not have. */
  predicate Unknown(d: seq<Field>, u: seq<byte>) {
    IsRecord(u) && TagOf(u) != 0 && forall i :: 0 <= i < |d| ==> d[i].tag != TagOf(u)
  }

  /** A stretch of input: known records, or one unknown record inserted by a newer peer. */
  datatype Chunk = Known(bytes: seq<byte>) | Foreign(bytes: seq<byte>)

  function AllBytes(cs: seq<Chunk>): seq<byte> {
    if cs == [] then [] else cs[0].bytes + AllBytes(cs[1..])
  }

  function KnownBytes(cs: seq<Chunk>): seq<byte> {
    if cs == [] then []
    else if cs[0].Known? then cs[0].bytes + KnownBytes(cs[1..])
    else KnownBytes(cs[1..])
  }

  /** Cut points lie between records: each known stretch is decoded to its end. */
  predicate CutBetweenRecords(d: seq<Field>, st: State, cs: seq<Chunk>)
    decreases |cs|
  {
    cs == [] ||
    (match cs[0]
     case Known(s) => DecLoop(d, st, s).Some? && CutBetweenRecords(d, DecLoop(d, st, s).value, cs[1..])
     case Foreign(u) => Unknown(d, u) && CutBetweenRecords(d, st, cs[1..]))
  }

  lemma UnknownIsSkipped(d: seq<Field>, st: State, u: seq<byte>)
    requires Unknown(d, u)
    ensures DecLoop(d, st, u) == Some(st)
  {
    assert u[|u|..] == [];
    var Got((tag, wt), n) := DecTag(u);
    PayloadSkips(wt, u[n..], []);
    assert u[n..] + [] == u[n..];
    assert DecRecord(d, st, tag, wt, u[n..]) == Got(st, |u| - n);
    assert DecOne(d, st, u) == Got(st, |u|);
  }

  lemma {:induction false} UnknownChunks(d: seq<Field>, st: State, cs: seq<Chunk>)
    requires CutBetweenRecords(d, st, cs)
    ensures DecLoop(d, st, AllBytes(cs)) == DecLoop(d, st, KnownBytes(cs))
    decreases |cs|
  {
    if cs != [] {
      var rest := cs[1..];
      match cs[0]
      case Known(s) =>
        LoopConcat(d, st, s, AllBytes(rest));
        LoopConcat(d, st, s, KnownBytes(rest));
        UnknownChunks(d, DecLoop(d, st, s).value, rest);
      case Foreign(u) =>
        UnknownIsSkipped(d, st, u);
        LoopConcat(d, st, u, AllBytes(rest));
        UnknownChunks(d, st, rest);
    }
  }

  /** Unknown records between the records of a message change nothing. */
  lemma UnknownFieldsIgnored(d: seq<Field>, m: seq<Slot>, cs: seq<Chunk>)
    requires CutBetweenRecords(d, State(m, {}), cs)
    ensures DecInner(d, m, AllBytes(cs)) == DecInner(d, m, KnownBytes(cs))
  {
    UnknownChunks(d, State(m, {}), cs);
  }

  // ----- the decoder never leaves the storage of the struct -----

  lemma DecScalarFits(f: Field, s: seq<byte>)
    requires GoodField(f) && DecScalar(f, s).Got?
    ensures TypedValue(f, DecScalar(f, s).value)
    ensures StorableValue(f, DecScalar(f, s).value)
  {
    if f.ltype.Fixed32? {
      FixedDecodeBound(s[..4]);
    } else if f.ltype.Fixed64? {
      FixedDecodeBound(s[..8]);
    }
  }

  /** A value of its C type and, if strict, within its storage, at every depth. */
  predicate HeldValue(strict: bool, f: Field, v: Value)
    decreases f, 0
  {
    TypedValue(f, v) && (strict ==> StorableValue(f, v)) &&
    (f.ltype.Submessage? ==> v.Struct? && HeldMsg(strict, f.sub, v.slots))
  }

  predicate HeldAll(strict: bool, f: Field, vs: seq<Value>)
    decreases f, 1
  {
    |vs| <= PB_SIZE_MAX && (strict ==> |vs| <= f.arraySize) && forall i :: 0 <= i < |vs| ==> HeldValue(strict, f, vs[i])
  }

  predicate Held(strict: bool, f: Field, slot: Slot)
    decreases f, 2
  {
    match f.rule
    case Required => slot.One? && HeldValue(strict, f, slot.v)
    case Optional => slot.Maybe? && HeldValue(strict, f, slot.v)
    case Repeated => slot.Many? && HeldAll(strict, f, slot.vs)
  }

  predicate HeldMsg(strict: bool, d: seq<Field>, m: seq<Slot>)
    decreases d
  {
    |m| == |d| && forall i :: 0 <= i < |d| ==> Held(strict, d[i], m[i])
  }

  lemma HeldTyped(strict: bool, d: seq<Field>, m: seq<Slot>)
    requires HeldMsg(strict, d, m)
    ensures TypedMsg(d, m) && (strict ==> StorableMsg(d, m))
  {
    forall i | 0 <= i < |d|
      ensures TypedSlot(d[i], m[i]) && (strict ==> StorableSlot(d[i], m[i]))
    {
      assert Held(strict, d[i], m[i]);
      if d[i].rule.Repeated? {
        assert HeldAll(strict, d[i], m[i].vs);
        assert forall j :: 0 <= j < |m[i].vs| ==> HeldValue(strict, d[i], m[i].vs[j]);
      } else {
        assert HeldValue(strict, d[i], m[i].v);
      }
    }
  }

  lemma {:induction false} TypedHeld(d: seq<Field>, m: seq<Slot>)
    requires TypedMsg(d, m)
    ensures HeldMsg(false, d, m)
    decreases d
  {
    forall i | 0 <= i < |d|
      ensures Held(false, d[i], m[i])
    {
      var f, slot := d[i], m[i];
      assert TypedSlot(f, slot);
      if f.rule.Repeated? {
        forall j | 0 <= j < |slot.vs|
          ensures HeldValue(false, f, slot.vs[j])
        {
          TypedValueHeld(f, slot.vs[j]);
        }
      } else {
        TypedValueHeld(f, slot.v);
      }
    }
  }

  lemma {:induction false} TypedValueHeld(f: Field, v: Value)
    requires TypedValue(f, v)
    ensures HeldValue(false, f, v)
    decreases f
  {
    if f.ltype.Submessage? {
      TypedHeld(f.sub, v.slots);
    }
  }

  lemma {:induction false} DefaultHeld(d: seq<Field>)
    requires GoodDesc(d)
    ensures HeldMsg(true, d, Default(d))
    decreases d
  {
    forall k | 0 <= k < |d|
      ensures Held(true, d[k], Default(d)[k])
    {
      DefaultAt(d, k);
      DefaultValueHeld(true, d[k]);
    }
  }

  lemma {:induction false} DefaultValueHeld(strict: bool, f: Field)
    requires GoodField(f)
    ensures HeldValue(strict, f, DefaultValue(f))
    decreases f
  {
    DefaultValueTyped(f);
    if f.ltype.Submessage? {
      DefaultHeld(f.sub);
      HeldTyped(true, f.sub, Default(f.sub));
      TypedHeld(f.sub, Default(f.sub));
    }
  }

  lemma {:induction false} DecPackedHeld(strict: bool, f: Field, vs: seq<Value>, s: seq<byte>)
    requires GoodField(f) && Packable(f.ltype) && DecPacked(f, vs, s).Some? && HeldAll(strict, f, vs)
    ensures HeldAll(strict, f, DecPacked(f, vs, s).value)
    decreases |s|
  {
    if s != [] {
      DecScalarFits(f, s);
      var Got(v, n) := DecScalar(f, s);
      DecPackedHeld(strict, f, vs + [v], s[n..]);
    }
  }

  lemma {:induction false} DecValueHeld(strict: bool, f: Field, cur: Value, s: seq<byte>)
    requires GoodField(f) && HeldValue(strict, f, cur) && DecValue(f, cur, s).Got?
    ensures HeldValue(strict, f, DecValue(f, cur, s).value)
    decreases |s|, 0
  {
    if f.ltype.Submessage? {
      var t := DecString(s).value;
      DecInnerHeld(strict, f.sub, cur.slots, t);
      HeldTyped(strict, f.sub, DecInner(f.sub, cur.slots, t).value);
    } else {
      DecScalarFits(f, s);
    }
  }

  lemma {:induction false} DecSlotHeld(strict: bool, f: Field, wt: nat, slot: Slot, s: seq<byte>)
    requires GoodField(f) && Held(strict, f, slot) && DecSlot(f, wt, slot, s).Got?
    ensures Held(strict, f, DecSlot(f, wt, slot, s).value)
    decreases |s|, 1
  {
    if f.rule.Repeated? && wt == PB_WT_STRING && Packable(f.ltype) {
      DecPackedHeld(strict, f, slot.vs, DecString(s).value);
    } else {
      match slot
      case One(cur) => DecValueHeld(strict, f, cur, s);
      case Maybe(_, cur) => DecValueHeld(strict, f, cur, s);
      case Many(vs) =>
        DefaultValueHeld(strict, f);
        DecValueHeld(strict, f, DefaultValue(f), s);
    }
  }

  lemma {:induction false} DecOneHeld(strict: bool, d: seq<Field>, st: State, s: seq<byte>)
    requires GoodDesc(d) && HeldMsg(strict, d, st.m) && DecOne(d, st, s).Got?
    ensures HeldMsg(strict, d, DecOne(d, st, s).value.m)
    decreases |s|, 2
  {
    var Got((tag, wt), n) := DecTag(s);
    var k := Find(d, tag);
    assert DecRecord(d, st, tag, wt, s[n..]).Got?;
    if k < |d| {
      assert DecKnown(d, st, k, wt, s[n..]).Got?;
      DecSlotHeld(strict, d[k], wt, st.m[k], s[n..]);
    }
  }

  lemma {:induction false} DecLoopHeld(strict: bool, d: seq<Field>, st: State, s: seq<byte>)
    requires GoodDesc(d) && HeldMsg(strict, d, st.m) && DecLoop(d, st, s).Some?
    ensures HeldMsg(strict, d, DecLoop(d, st, s).value.m)
    decreases |s|, 3
  {
    if s != [] {
      DecOneHeld(strict, d, st, s);
      var Got(st', n) := DecOne(d, st, s);
      DecLoopHeld(strict, d, st', s[n..]);
    }
  }

  lemma {:induction false} DecInnerHeld(strict: bool, d: seq<Field>, m: seq<Slot>, s: seq<byte>)
    requires GoodDesc(d) && HeldMsg(strict, d, m) && DecInner(d, m, s).Some?
    ensures HeldMsg(strict, d, DecInner(d, m, s).value)
    decreases |s|, 4
  {
    DecLoopHeld(strict, d, State(m, {}), s);
  }

  /** Whatever bytes arrive, an accepted message is a struct of the right C types whose counts, byte
      arrays and strings stay within the storage the descriptor gives them, at every depth. */
  lemma DecodeStaysInBounds(d: seq<Field>, s: seq<byte>)
    requires GoodDesc(d) && Decode(d, s).Some?
    ensures TypedMsg(d, Decode(d, s).value) && StorableMsg(d, Decode(d, s).value)
  {
    DefaultHeld(d);
    DecInnerHeld(true, d, Default(d), s);
    HeldTyped(true, d, Decode(d, s).value);
  }

  lemma {:induction false} PackedCountIs(f: Field, vs: seq<Value>, s: seq<byte>)
    ensures |vs| <= PackedCount(f, |vs|, s) <= (if |vs| > f.arraySize then |vs| else f.arraySize)
    ensures DecPacked(f, vs, s).Some? ==> PackedCount(f, |vs|, s) == |DecPacked(f, vs, s).value|
    decreases |s|
  {
    if s != [] && |vs| < f.arraySize {
      match DecScalar(f, s) {
        case Fail =>
        case Got(v, n) => PackedCountIs(f, vs + [v], s[n..]);
      }
    }
  }

  /** What decode_static_field leaves in the count of a repeated field that was in bounds: the number of
      elements if it accepts; otherwise it is past the array exactly if a single element arrived for
      a full array. (The 16-bit count of a full array of 65535 wraps to zero instead.) */
  lemma CountAfter(f: Field, wt: nat, vs: seq<Value>, s: seq<byte>)
    requires f.rule.Repeated? && |vs| <= f.arraySize <= PB_SIZE_MAX
    ensures var n := CountLeft(f, wt, |vs|, s);
            (DecSlot(f, wt, Many(vs), s).Got? ==> n == |DecSlot(f, wt, Many(vs), s).value.vs| <= f.arraySize) &&
            n <= f.arraySize + 1 &&
            (n > f.arraySize <==>
              |vs| == f.arraySize < PB_SIZE_MAX && !(wt == PB_WT_STRING && Packable(f.ltype)))
  {
    if wt == PB_WT_STRING && Packable(f.ltype) && DecString(s).Got? {
      PackedCountIs(f, vs, DecString(s).value);
    }
  }

  // ----- the required fields that can have been seen -----

  /** Only required fields the descriptor has are marked. */
  predicate SeenBelow(d: seq<Field>, seen: set<nat>) {
    forall i :: i in seen ==> i < RequiredBefore(d, |d|) && i < PB_MAX_REQUIRED_FIELDS
  }

  lemma {:induction false} RequiredGrows(d: seq<Field>, j: nat, k: nat)
    requires j <= k <= |d|
    ensures RequiredBefore(d, j) <= RequiredBefore(d, k)
  {
    if j < k {
      RequiredGrows(d, j, k - 1);
    }
  }

  lemma DecOneSeenBelow(d: seq<Field>, st: State, s: seq<byte>)
    requires SeenBelow(d, st.seen) && DecOne(d, st, s).Got?
    ensures SeenBelow(d, DecOne(d, st, s).value.seen)
  {
    var Got((tag, wt), n) := DecTag(s);
    var k := Find(d, tag);
    if k < |d| {
      assert DecRecord(d, st, tag, wt, s[n..]) == DecKnown(d, st, k, wt, s[n..]);
      RequiredGrows(d, k + 1, |d|);
    }
  }

  /** One record keeps the struct within its C types even if its counts were out of range before. */
  lemma DecOneTyped(d: seq<Field>, st: State, s: seq<byte>)
    requires GoodDesc(d) && TypedMsg(d, st.m) && DecOne(d, st, s).Got?
    ensures TypedMsg(d, DecOne(d, st, s).value.m)
  {
    TypedHeld(d, st.m);
    DecOneHeld(false, d, st, s);
    HeldTyped(false, d, DecOne(d, st, s).value.m);
  }
}
