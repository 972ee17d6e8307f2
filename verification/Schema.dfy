/** Message descriptors and message structs, the data the table-driven codec works on.

    A descriptor is the list of its fields; a struct is the list of their storage slots. Only
    statically allocated fields with the rules REQUIRED, OPTIONAL and REPEATED are covered. */
module Schema {
  import opened Varint

  datatype Option<+T> = None | Some(value: T)

  datatype LType =
    | Bool | Signed | Unsigned | ZigZagged | Fixed32 | Fixed64
    | Bytes | String | Submessage | FixedBytes

  datatype Rule = Required | Optional | Repeated

  /** How a field's row is packed, in one, two, four or eight words, and where in the struct its data and
      (backwards from there) its count or has-flag are. */
  datatype Width = W1 | W2 | W4 | W8

  datatype Layout = Layout(width: Width, dataOffset: nat, sizeOffset: nat)

  /** One row of a field list: `dataSize` is the storage of a single item, `arraySize` the number of
      items a repeated field has room for, `sub` the descriptor of a submessage. */
  datatype Field = Field(
    tag: nat, ltype: LType, rule: Rule, dataSize: nat, arraySize: nat, sub: seq<Field>, layout: Layout)

  datatype Value = Flag(b: bool) | Number(i: int) | Text(bytes: seq<byte>) | Struct(slots: seq<Slot>)

  /** Storage of one field. An absent optional field still has data behind its has-flag. */
  datatype Slot = One(v: Value) | Maybe(has: bool, v: Value) | Many(vs: seq<Value>)

  // ----- what the C types guarantee -----

  const PB_SIZE_MAX: int := 0xFFFF

  /** Offset of the data in a bytes array, after its 16-bit size. */
  const BYTES_HEADER: int := 2

  predicate IntegerWidth(n: nat) {
    n == 1 || n == 2 || n == 4 || n == 8
  }

  predicate SignedFits(i: int, width: nat) {
    var half := Pow256(width) / 2;
    -half <= i < half
  }

  predicate UnsignedFits(i: int, width: nat) {
    0 <= i < Pow256(width)
  }

  /** Storage sizes the generator gives to each type. */
  predicate GoodSize(f: Field) {
    match f.ltype
    case Bool => f.dataSize == 1
    case Signed | Unsigned | ZigZagged => IntegerWidth(f.dataSize)
    case Fixed32 => f.dataSize == 4
    case Fixed64 => f.dataSize == 8
    case Bytes => BYTES_HEADER <= f.dataSize
    case String => 0 < f.dataSize
    case Submessage => true
    case FixedBytes => true
  }

  /** A descriptor as the generator emits it: 16-bit limits, tags in strictly ascending order. */
  predicate GoodDesc(d: seq<Field>)
    decreases d
  {
    |d| < PB_SIZE_MAX &&
    (forall i {:trigger GoodField(d[i])} :: 0 <= i < |d| ==> GoodField(d[i])) &&
    (forall i, j :: 0 <= i < j < |d| ==> d[i].tag < d[j].tag)
  }

  predicate GoodField(f: Field)
    decreases f
  {
    0 < f.tag <= PB_SIZE_MAX && f.dataSize <= PB_SIZE_MAX && f.arraySize <= PB_SIZE_MAX &&
    GoodSize(f) && GoodDesc(f.sub)
  }

  /** A value of the C type the descriptor gives to the field. */
  predicate TypedValue(f: Field, v: Value)
    decreases f, 0
  {
    match f.ltype
    case Bool => v.Flag?
    case Signed | ZigZagged => v.Number? && SignedFits(v.i, f.dataSize)
    case Unsigned => v.Number? && UnsignedFits(v.i, f.dataSize)
    case Fixed32 => v.Number? && UnsignedFits(v.i, 4)
    case Fixed64 => v.Number? && UnsignedFits(v.i, 8)
    case Bytes => v.Text? && |v.bytes| <= PB_SIZE_MAX
    case String => v.Text? && 0 !in v.bytes
    case Submessage => v.Struct? && TypedMsg(f.sub, v.slots)
    case FixedBytes => v.Text? && |v.bytes| == f.dataSize
  }

  predicate TypedSlot(f: Field, s: Slot)
    decreases f, 1
  {
    match f.rule
    case Required => s.One? && TypedValue(f, s.v)
    case Optional => s.Maybe? && TypedValue(f, s.v)
    case Repeated => s.Many? && |s.vs| <= PB_SIZE_MAX && forall i :: 0 <= i < |s.vs| ==> TypedValue(f, s.vs[i])
  }

  predicate TypedMsg(d: seq<Field>, m: seq<Slot>)
    decreases d
  {
    |m| == |d| && forall i {:trigger TypedSlot(d[i], m[i])} :: 0 <= i < |d| ==> TypedSlot(d[i], m[i])
  }

  // ----- what the encoder checks at run time -----

  predicate StorableValue(f: Field, v: Value)
    decreases f, 0
  {
    match f.ltype
    case Bytes => v.Text? ==> |v.bytes| + BYTES_HEADER <= f.dataSize
    case String => v.Text? ==> |v.bytes| + 1 <= f.dataSize
    case Submessage => v.Struct? ==> StorableMsg(f.sub, v.slots)
    case _ => true
  }

  predicate StorableSlot(f: Field, s: Slot)
    decreases f, 1
  {
    match s
    case One(v) => StorableValue(f, v)
    case Maybe(has, v) => has ==> StorableValue(f, v)
    case Many(vs) => |vs| <= f.arraySize && forall i :: 0 <= i < |vs| ==> StorableValue(f, vs[i])
  }

  /** Counts within the array, bytes and strings within their buffers, for everything present. */
  predicate StorableMsg(d: seq<Field>, m: seq<Slot>)
    decreases d
  {
    |m| == |d| && forall i {:trigger StorableSlot(d[i], m[i])} :: 0 <= i < |d| ==> StorableSlot(d[i], m[i])
  }

  // ----- the struct that pb_message_set_to_defaults leaves -----

  function Zeros(n: nat): (s: seq<byte>)
    ensures |s| == n
  {
    if n == 0 then [] else [0] + Zeros(n - 1)
  }

  function DefaultValue(f: Field): Value
    decreases f, 0
  {
    match f.ltype
    case Bool => Flag(false)
    case Signed | Unsigned | ZigZagged | Fixed32 | Fixed64 => Number(0)
    case Bytes | String => Text([])
    case Submessage => Struct(Default(f.sub))
    case FixedBytes => Text(Zeros(f.dataSize))
  }

  function DefaultSlot(f: Field): Slot
    decreases f, 1
  {
    match f.rule
    case Required => One(DefaultValue(f))
    case Optional => Maybe(false, DefaultValue(f))
    case Repeated => Many([])
  }

  function Default(d: seq<Field>): (m: seq<Slot>)
    ensures |m| == |d|
    decreases d
  {
    if d == [] then [] else [DefaultSlot(d[0])] + Default(d[1..])
  }

  lemma {:induction false} DefaultAt(d: seq<Field>, k: nat)
    requires k < |d|
    ensures Default(d)[k] == DefaultSlot(d[k])
  {
    if k > 0 {
      DefaultAt(d[1..], k - 1);
    }
  }

  lemma {:induction false} DefaultTyped(d: seq<Field>)
    requires GoodDesc(d)
    ensures TypedMsg(d, Default(d))
    decreases d
  {
    forall k | 0 <= k < |d|
      ensures TypedSlot(d[k], Default(d)[k])
    {
      DefaultAt(d, k);
      DefaultValueTyped(d[k]);
    }
  }

  lemma {:induction false} DefaultValueTyped(f: Field)
    requires GoodField(f)
    ensures TypedValue(f, DefaultValue(f))
    decreases f
  {
    Pow256Values();
    if f.ltype.Submessage? {
      DefaultTyped(f.sub);
    }
  }

  // ----- lookup by tag -----

  /** Index of the field with this tag, or the number of fields if there is none. */
  function Find(d: seq<Field>, tag: nat): (k: nat)
    ensures k <= |d|
    ensures k < |d| ==> d[k].tag == tag
    ensures forall i :: 0 <= i < k ==> d[i].tag != tag
  {
    if d == [] || d[0].tag == tag then 0 else 1 + Find(d[1..], tag)
  }

  lemma FindAscending(d: seq<Field>, k: nat)
    requires GoodDesc(d) && k < |d|
    ensures Find(d, d[k].tag) == k
  {
  }

  /** How many of the first k fields are required: the index that names a required field. */
  function RequiredBefore(d: seq<Field>, k: nat): nat
    requires k <= |d|
  {
    if k == 0 then 0 else RequiredBefore(d, k - 1) + if d[k - 1].rule.Required? then 1 else 0
  }
}
