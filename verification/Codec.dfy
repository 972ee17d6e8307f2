/** The wire codec as functions on byte strings: what pb_encode writes and what pb_decode_inner does
    with any bytes it is given. The stream classes refine these functions. */
module Codec {
  import opened Varint
  import opened Schema

  const PB_WT_VARINT: nat := 0
  const PB_WT_64BIT: nat := 1
  const PB_WT_STRING: nat := 2
  const PB_WT_32BIT: nat := 5

  const PB_MAX_REQUIRED_FIELDS: nat := 64

  function WireType(t: LType): nat {
    match t
    case Bool | Signed | Unsigned | ZigZagged => PB_WT_VARINT
    case Fixed32 => PB_WT_32BIT
    case Fixed64 => PB_WT_64BIT
    case Bytes | String | Submessage | FixedBytes => PB_WT_STRING
  }

  predicate Packable(t: LType) {
    t.Bool? || t.Signed? || t.Unsigned? || t.ZigZagged? || t.Fixed32? || t.Fixed64?
  }

  // ----- encoding -----

  function EncTag(tag: nat, wt: nat): seq<byte> {
    Encode(tag * 8 + wt)
  }

  function EncScalar(f: Field, v: Value): seq<byte>
    requires TypedValue(f, v) && GoodSize(f) && !f.ltype.Submessage?
  {
    match f.ltype
    case Bool => Encode(if v.b then 1 else 0)
    case Signed => SignedWithin64(v.i, f.dataSize); Encode(ToUnsigned(v.i))
    case Unsigned => Encode(v.i)
    case ZigZagged => Encode(ZigZag(v.i))
    case Fixed32 => FixedEncode(v.i, 4)
    case Fixed64 => FixedEncode(v.i, 8)
    case Bytes | String | FixedBytes => Encode(|v.bytes|) + v.bytes
  }

  function EncValue(f: Field, v: Value): (s: seq<byte>)
    requires TypedValue(f, v) && GoodField(f)
    decreases f, 0
  {
    if f.ltype.Submessage? then
      var e := EncMsg(f.sub, v.slots);
      Encode(|e|) + e
    else EncScalar(f, v)
  }

  /** The payload of a packed array. */
  function EncPacked(f: Field, vs: seq<Value>): seq<byte>
    requires GoodSize(f) && Packable(f.ltype) && forall i :: 0 <= i < |vs| ==> TypedValue(f, vs[i])
  {
    if vs == [] then [] else EncScalar(f, vs[0]) + EncPacked(f, vs[1..])
  }

  /** One tagged record per element. */
  function EncEach(f: Field, vs: seq<Value>): seq<byte>
    requires GoodField(f) && forall i :: 0 <= i < |vs| ==> TypedValue(f, vs[i])
    decreases f, 1, |vs|
  {
    if vs == [] then [] else EncTag(f.tag, WireType(f.ltype)) + EncValue(f, vs[0]) + EncEach(f, vs[1..])
  }

  function EncSlot(f: Field, s: Slot): seq<byte>
    requires TypedSlot(f, s) && GoodField(f)
    decreases f, 2
  {
    match s
    case One(v) => EncTag(f.tag, WireType(f.ltype)) + EncValue(f, v)
    case Maybe(has, v) => if has then EncTag(f.tag, WireType(f.ltype)) + EncValue(f, v) else []
    case Many(vs) =>
      if vs == [] then []
      else if Packable(f.ltype) then
        var e := EncPacked(f, vs);
        EncTag(f.tag, PB_WT_STRING) + Encode(|e|) + e
      else EncEach(f, vs)
  }

  function EncMsg(d: seq<Field>, m: seq<Slot>): seq<byte>
    requires TypedMsg(d, m) && GoodDesc(d)
    decreases d
  {
    if d == [] then [] else EncSlot(d[0], m[0]) + EncMsg(d[1..], m[1..])
  }

  lemma SignedWithin64(i: int, width: nat)
    requires IntegerWidth(width) && SignedFits(i, width)
    ensures -TWO_63 <= i < TWO_63
  {
    Pow256Values();
  }

  // ----- decoding one field -----

  function DecTag(s: seq<byte>): (r: Parse<(nat, nat)>)
    ensures r.Got? ==> 0 < r.used <= |s|
  {
    match Decode32(s)
    case Fail => Fail
    case Got(v, n) => Got((v / 8, v % 8), n)
  }

  /** A length prefix and the bytes it announces. */
  function DecString(s: seq<byte>): (r: Parse<seq<byte>>)
    ensures r.Got? ==> 0 < r.used <= |s| && |r.value| < r.used
  {
    match Decode32(s)
    case Fail => Fail
    case Got(size, n) => if |s| - n < size then Fail else Got(s[n..n + size], n + size)
  }

  /** pb_skip_field. A skipped varint may have any length. */
  function Skip(wt: nat, s: seq<byte>): (r: Parse<()>)
    ensures r.Got? ==> 0 < r.used <= |s|
  {
    if wt == PB_WT_VARINT then (if Run(s) < |s| then Got((), Run(s) + 1) else Fail)
    else if wt == PB_WT_64BIT then (if |s| < 8 then Fail else Got((), 8))
    else if wt == PB_WT_STRING then
      match DecString(s) { case Fail => Fail case Got(_, n) => Got((), n) }
    else if wt == PB_WT_32BIT then (if |s| < 4 then Fail else Got((), 4))
    else Fail
  }

  /** The string a reader of the char array sees: everything before the first NUL. */
  function CString(s: seq<byte>): (t: seq<byte>)
    ensures |t| <= |s| && 0 !in t
  {
    if s == [] || s[0] == 0 then [] else [s[0]] + CString(s[1..])
  }

  /** The number that 64 bits stand for in a field: narrow signed fields read only the low half. */
  function Interpret(f: Field, x: nat): int {
    match f.ltype
    case Unsigned => x
    case Signed => ToSigned(x, if f.dataSize == 8 then TWO_64 else TWO_32)
    case _ => UnZigZag(x)
  }

  /** It fits the storage of the field. */
  predicate NumberFits(f: Field, i: int) {
    IntegerWidth(f.dataSize) &&
    if f.ltype.Unsigned? then UnsignedFits(i, f.dataSize) else SignedFits(i, f.dataSize)
  }

  /** pb_dec_varint. */
  function DecNumber(f: Field, s: seq<byte>): (r: Parse<Value>)
    ensures r.Got? ==> 0 < r.used <= |s|
  {
    match Decode64(s)
    case Fail => Fail
    case Got(x, n) =>
      var i := Interpret(f, x);
      if NumberFits(f, i) then Got(Number(i), n) else Fail
  }

  /** The tests that the decoders of bytes, strings and fixed-length bytes make on the size. */
  predicate SizeAllowed(f: Field, size: nat) {
    match f.ltype
    case Bytes => size <= PB_SIZE_MAX && size + BYTES_HEADER <= f.dataSize
    case String => size + 1 <= f.dataSize
    case _ => size <= PB_SIZE_MAX && size == f.dataSize
  }

  /** pb_dec_bytes, pb_dec_string and pb_dec_fixed_length_bytes, where empty means all zeros. */
  function DecText(f: Field, s: seq<byte>): (r: Parse<Value>)
    ensures r.Got? ==> 0 < r.used <= |s|
  {
    match DecString(s)
    case Fail => Fail
    case Got(t, n) =>
      if f.ltype.FixedBytes? && t == [] then Got(Text(Zeros(f.dataSize)), n)
      else if !SizeAllowed(f, |t|) then Fail
      else Got(Text(if f.ltype.String? then CString(t) else t), n)
  }

  function DecScalar(f: Field, s: seq<byte>): (r: Parse<Value>)
    ensures r.Got? ==> 0 < r.used <= |s|
  {
    match f.ltype
    case Bool => (match Decode32(s) case Fail => Fail case Got(x, n) => Got(Flag(x != 0), n))
    case Signed | Unsigned | ZigZagged => DecNumber(f, s)
    case Fixed32 => if |s| < 4 then Fail else Got(Number(FixedDecode(s[..4])), 4)
    case Fixed64 => if |s| < 8 then Fail else Got(Number(FixedDecode(s[..8])), 8)
    case Bytes | String | FixedBytes => DecText(f, s)
    case Submessage => Fail
  }

  /** A submessage is decoded on top of what the struct already holds. */
  function DecValue(f: Field, cur: Value, s: seq<byte>): (r: Parse<Value>)
    ensures r.Got? ==> 0 < r.used <= |s|
    decreases |s|, 0
  {
    if !f.ltype.Submessage? then DecScalar(f, s)
    else
      match DecString(s)
      case Fail => Fail
      case Got(t, n) =>
        if !cur.Struct? then Fail
        else match DecInner(f.sub, cur.slots, t)
             case None => Fail
             case Some(m) => Got(Struct(m), n)
  }

  function DecPacked(f: Field, vs: seq<Value>, s: seq<byte>): Option<seq<Value>>
    decreases |s|
  {
    if s == [] then Some(vs)
    else if |vs| >= f.arraySize then None
    else match DecScalar(f, s)
         case Fail => None
         case Got(v, n) => DecPacked(f, vs + [v], s[n..])
  }

  /** decode_static_field. */
  function DecSlot(f: Field, wt: nat, slot: Slot, s: seq<byte>): (r: Parse<Slot>)
    ensures r.Got? ==> 0 < r.used <= |s|
    decreases |s|, 1
  {
    if f.rule.Repeated? && wt == PB_WT_STRING && Packable(f.ltype) then
      match DecString(s)
      case Fail => Fail
      case Got(t, n) =>
        if !slot.Many? then Fail
        else match DecPacked(f, slot.vs, t)
             case None => Fail
             case Some(vs) => Got(Many(vs), n)
    else if wt != WireType(f.ltype) then Fail
    else
      match (f.rule, slot)
      case (Required, One(cur)) =>
        (match DecValue(f, cur, s) case Fail => Fail case Got(v, n) => Got(One(v), n))
      case (Optional, Maybe(_, cur)) =>
        (match DecValue(f, cur, s) case Fail => Fail case Got(v, n) => Got(Maybe(true, v), n))
      case (Repeated, Many(vs)) =>
        if |vs| >= f.arraySize then Fail
        else (match DecValue(f, DefaultValue(f), s) case Fail => Fail case Got(v, n) => Got(Many(vs + [v]), n))
      case _ => Fail
  }

  /** The count that the packed loop leaves, also when it fails. */
  function PackedCount(f: Field, n: nat, s: seq<byte>): nat
    decreases |s|
  {
    if s == [] || n >= f.arraySize then n
    else match DecScalar(f, s)
         case Fail => n
         case Got(_, u) => PackedCount(f, n + 1, s[u..])
  }

  /** The count that decode_static_field leaves in a repeated field, whether it accepts or not: outside
      the packed branch the 16-bit count goes up before it is tested, and before the wire type is. */
  function CountLeft(f: Field, wt: nat, n: nat, s: seq<byte>): nat {
    if wt == PB_WT_STRING && Packable(f.ltype) then
      match DecString(s)
      case Fail => n
      case Got(t, _) => PackedCount(f, n, t)
    else (n + 1) % (PB_SIZE_MAX + 1)
  }

  // ----- decoding a message -----

  /** The struct under construction and the indices of the required fields met so far. */
  datatype State = State(m: seq<Slot>, seen: set<nat>)

  function Mark(d: seq<Field>, k: nat, seen: set<nat>): set<nat>
    requires k < |d|
  {
    var r := RequiredBefore(d, k);
    if d[k].rule.Required? && r < PB_MAX_REQUIRED_FIELDS then seen + {r} else seen
  }

  /** The record of a known field, after its tag. */
  function DecKnown(d: seq<Field>, st: State, k: nat, wt: nat, s: seq<byte>): (r: Parse<State>)
    requires k < |d|
    ensures r.Got? ==> 0 < r.used <= |s|
    decreases |s|, 2
  {
    if k >= |st.m| then Fail
    else match DecSlot(d[k], wt, st.m[k], s)
         case Fail => Fail
         case Got(slot, u) => Got(State(st.m[k := slot], Mark(d, k, st.seen)), u)
  }

  function DecRecord(d: seq<Field>, st: State, tag: nat, wt: nat, s: seq<byte>): (r: Parse<State>)
    ensures r.Got? ==> 0 < r.used <= |s|
    decreases |s|, 3
  {
    var k := Find(d, tag);
    if tag == 0 then Fail
    else if k < |d| then DecKnown(d, st, k, wt, s)
    else match Skip(wt, s) { case Fail => Fail case Got(_, u) => Got(st, u) }
  }

  /** One pass of the loop in pb_decode_inner: one record, known or skipped. */
  function DecOne(d: seq<Field>, st: State, s: seq<byte>): (r: Parse<State>)
    ensures r.Got? ==> 0 < r.used <= |s|
    decreases |s|, 4
  {
    match DecTag(s)
    case Fail => Fail
    case Got((tag, wt), n) =>
      match DecRecord(d, st, tag, wt, s[n..])
      case Fail => Fail
      case Got(st', u) => Got(st', n + u)
  }

  function DecLoop(d: seq<Field>, st: State, s: seq<byte>): Option<State>
    decreases |s|, 5
  {
    if s == [] then Some(st)
    else match DecOne(d, st, s)
         case Fail => None
         case Got(st', n) => DecLoop(d, st', s[n..])
  }

  /** The bits the final test looks at: the first 64 required fields at most. */
  predicate Complete(d: seq<Field>, seen: set<nat>) {
    forall i :: 0 <= i < RequiredBefore(d, |d|) && i < PB_MAX_REQUIRED_FIELDS ==> i in seen
  }

  /** pb_decode_inner with PB_DECODE_NOINIT, on a stream that holds exactly these bytes. */
  function DecInner(d: seq<Field>, m: seq<Slot>, s: seq<byte>): Option<seq<Slot>>
    decreases |s|, 6
  {
    match DecLoop(d, State(m, {}), s)
    case None => None
    case Some(st) => if Complete(d, st.seen) then Some(st.m) else None
  }

  /** pb_decode. */
  function Decode(d: seq<Field>, s: seq<byte>): Option<seq<Slot>> {
    DecInner(d, Default(d), s)
  }
}
