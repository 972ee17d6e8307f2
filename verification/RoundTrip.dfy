/** Decoding what the encoder wrote: the merge law, and the round trip as its instance. */
module RoundTrip {
  import opened Varint
  import opened Schema
  import opened Codec
  import opened CodecLaws

  // ----- merging structs, without bytes -----

  /** A value with the data behind absent optional fields reset, as a fresh decode leaves it. */
  function CleanValue(f: Field, v: Value): Value
    requires TypedValue(f, v)
    decreases f, 0
  {
    if f.ltype.Submessage? then Struct(CleanMsg(f.sub, v.slots)) else v
  }

  function CleanAll(f: Field, vs: seq<Value>): (r: seq<Value>)
    requires forall i :: 0 <= i < |vs| ==> TypedValue(f, vs[i])
    ensures |r| == |vs|
    decreases f, 1, |vs|
  {
    if vs == [] then [] else [CleanValue(f, vs[0])] + CleanAll(f, vs[1..])
  }

  function CleanSlot(f: Field, s: Slot): Slot
    requires TypedSlot(f, s)
    decreases f, 2
  {
    match s
    case One(v) => One(CleanValue(f, v))
    case Maybe(has, v) => if has then Maybe(true, CleanValue(f, v)) else Maybe(false, DefaultValue(f))
    case Many(vs) => Many(CleanAll(f, vs))
  }

  function CleanMsg(d: seq<Field>, m: seq<Slot>): (r: seq<Slot>)
    requires TypedMsg(d, m)
    ensures |r| == |d|
    decreases d
  {
    if d == [] then [] else [CleanSlot(d[0], m[0])] + CleanMsg(d[1..], m[1..])
  }

  /** The later value wins; submessages merge field by field. */
  function MergeValue(f: Field, base: Value, v: Value): Value
    requires TypedValue(f, base) && TypedValue(f, v)
    decreases f, 0
  {
    if f.ltype.Submessage? then Struct(MergeMsg(f.sub, base.slots, v.slots)) else v
  }

  /** Repeated fields append. */
  function MergeSlot(f: Field, base: Slot, s: Slot): Slot
    requires TypedSlot(f, base) && TypedSlot(f, s)
    decreases f, 1
  {
    match s
    case One(v) => One(MergeValue(f, base.v, v))
    case Maybe(has, v) => if has then Maybe(true, MergeValue(f, base.v, v)) else base
    case Many(vs) => Many(base.vs + CleanAll(f, vs))
  }

  function MergeMsg(d: seq<Field>, base: seq<Slot>, m: seq<Slot>): (r: seq<Slot>)
    requires TypedMsg(d, base) && TypedMsg(d, m)
    ensures |r| == |d|
    decreases d
  {
    if d == [] then [] else [MergeSlot(d[0], base[0], m[0])] + MergeMsg(d[1..], base[1..], m[1..])
  }

  /** The appended arrays still fit, at every depth. */
  predicate FitsValue(f: Field, base: Value, v: Value)
    requires TypedValue(f, base) && TypedValue(f, v)
    decreases f, 0
  {
    f.ltype.Submessage? ==> FitsMsg(f.sub, base.slots, v.slots)
  }

  predicate FitsSlot(f: Field, base: Slot, s: Slot)
    requires TypedSlot(f, base) && TypedSlot(f, s)
    decreases f, 1
  {
    match s
    case One(v) => FitsValue(f, base.v, v)
    case Maybe(has, v) => has ==> FitsValue(f, base.v, v)
    case Many(vs) => vs != [] ==> |base.vs| + |vs| <= f.arraySize
  }

  predicate FitsMsg(d: seq<Field>, base: seq<Slot>, m: seq<Slot>)
    requires TypedMsg(d, base) && TypedMsg(d, m)
    decreases d
  {
    d == [] || (FitsSlot(d[0], base[0], m[0]) && FitsMsg(d[1..], base[1..], m[1..]))
  }

  // ----- merging into a fresh struct is cleaning -----

  lemma {:induction false} CleanTyped(d: seq<Field>, m: seq<Slot>)
    requires GoodDesc(d) && TypedMsg(d, m)
    ensures TypedMsg(d, CleanMsg(d, m))
    decreases d
  {
    if d != [] {
      assert GoodField(d[0]) && TypedSlot(d[0], m[0]);
      DefaultValueTyped(d[0]);
      match m[0] {
        case One(v) => CleanValueTyped(d[0], v);
        case Maybe(_, v) => CleanValueTyped(d[0], v);
        case Many(vs) =>
          CleanAllTyped(d[0], vs);
          assert forall i :: 0 <= i < |vs| ==> CleanAll(d[0], vs)[i] in CleanAll(d[0], vs);
      }
      TailTyped(d, m);
      CleanTyped(d[1..], m[1..]);
      var c := CleanMsg(d, m);
      assert c[0] == CleanSlot(d[0], m[0]) && TypedSlot(d[0], c[0]);
      assert c[1..] == CleanMsg(d[1..], m[1..]);
      forall i | 0 <= i < |d|
        ensures TypedSlot(d[i], c[i])
      {
        if i > 0 {
          assert d[i] == d[1..][i - 1] && c[i] == c[1..][i - 1];
        }
      }
    }
  }

  lemma {:induction false} CleanValueTyped(f: Field, v: Value)
    requires GoodField(f) && TypedValue(f, v)
    ensures TypedValue(f, CleanValue(f, v))
    decreases f, 0
  {
    if f.ltype.Submessage? {
      CleanTyped(f.sub, v.slots);
    }
  }

  lemma {:induction false} CleanAllTyped(f: Field, vs: seq<Value>)
    requires GoodField(f) && forall i :: 0 <= i < |vs| ==> TypedValue(f, vs[i])
    ensures forall x :: x in CleanAll(f, vs) ==> TypedValue(f, x)
    decreases f, 1, |vs|
  {
    if vs != [] {
      CleanValueTyped(f, vs[0]);
      CleanAllTyped(f, vs[1..]);
    }
  }

  lemma {:induction false} MergeIntoDefault(d: seq<Field>, m: seq<Slot>)
    requires GoodDesc(d) && TypedMsg(d, m) && StorableMsg(d, m)
    ensures TypedMsg(d, Default(d))
    ensures FitsMsg(d, Default(d), m)
    ensures MergeMsg(d, Default(d), m) == CleanMsg(d, m)
    decreases d
  {
    DefaultTyped(d);
    if d != [] {
      var f := d[0];
      assert GoodField(f) && TypedSlot(f, m[0]) && StorableSlot(f, m[0]);
      assert Default(d)[1..] == Default(d[1..]);
      DefaultValueTyped(f);
      match m[0] {
        case One(v) => MergeValueIntoDefault(f, v);
        case Maybe(has, v) =>
          if has {
            MergeValueIntoDefault(f, v);
          }
        case Many(vs) => assert [] + CleanAll(f, vs) == CleanAll(f, vs);
      }
      assert StorableMsg(d[1..], m[1..]);
      MergeIntoDefault(d[1..], m[1..]);
    }
  }

  lemma {:induction false} MergeValueIntoDefault(f: Field, v: Value)
    requires GoodField(f) && TypedValue(f, v) && StorableValue(f, v)
    ensures TypedValue(f, DefaultValue(f))
    ensures FitsValue(f, DefaultValue(f), v)
    ensures MergeValue(f, DefaultValue(f), v) == CleanValue(f, v)
    decreases f
  {
    DefaultValueTyped(f);
    if f.ltype.Submessage? {
      MergeIntoDefault(f.sub, v.slots);
    }
  }

  // ----- one record -----

  lemma DecTagInverts(tag: nat, wt: nat, rest: seq<byte>)
    requires tag <= PB_SIZE_MAX && wt < 8
    ensures DecTag(EncTag(tag, wt) + rest) == Got((tag, wt), |EncTag(tag, wt)|)
  {
    var v := tag * 8 + wt;
    assert v < TWO_32 && v / 8 == tag && v % 8 == wt;
    Decode32Canonical(v, rest);
  }

  lemma DecStringInverts(t: seq<byte>, rest: seq<byte>)
    requires |t| < TWO_32
    ensures DecString(Encode(|t|) + t + rest) == Got(t, |Encode(|t|)| + |t|)
  {
    var n := |Encode(|t|)|;
    assert Encode(|t|) + t + rest == Encode(|t|) + (t + rest);
    Decode32Canonical(|t|, t + rest);
    assert (Encode(|t|) + t + rest)[n..n + |t|] == t;
  }

  lemma {:induction false} CStringWhole(s: seq<byte>)
    requires 0 !in s
    ensures CString(s) == s
  {
    if s != [] {
      CStringWhole(s[1..]);
    }
  }

  lemma NumberInverts(f: Field, i: int, rest: seq<byte>)
    requires GoodSize(f) && TypedValue(f, Number(i)) && (f.ltype.Signed? || f.ltype.Unsigned? || f.ltype.ZigZagged?)
    ensures DecScalar(f, EncScalar(f, Number(i)) + rest) == Got(Number(i), |EncScalar(f, Number(i))|)
  {
    Pow256Values();
    match f.ltype
    case Signed =>
      TwosComplementInverts(i);
      Decode64Inverts(ToUnsigned(i), rest);
    case Unsigned =>
      Decode64Inverts(i, rest);
    case ZigZagged =>
      ZigZagInverts(i);
      Decode64Inverts(ZigZag(i), rest);
  }

  lemma TextInverts(f: Field, v: Value, rest: seq<byte>)
    requires GoodField(f) && TypedValue(f, v) && StorableValue(f, v)
    requires f.ltype.Bytes? || f.ltype.String? || f.ltype.FixedBytes?
    ensures DecText(f, Encode(|v.bytes|) + v.bytes + rest) == Got(v, |Encode(|v.bytes|) + v.bytes|)
  {
    DecStringInverts(v.bytes, rest);
    if f.ltype.String? {
      CStringWhole(v.bytes);
    }
    if f.ltype.FixedBytes? && |v.bytes| == 0 {
      assert v.bytes == Zeros(f.dataSize);
    }
  }

  /** Every scalar of every type and width survives, whatever bytes follow. */
  lemma ScalarInverts(f: Field, v: Value, rest: seq<byte>)
    requires GoodField(f) && TypedValue(f, v) && StorableValue(f, v) && !f.ltype.Submessage?
    ensures DecScalar(f, EncScalar(f, v) + rest) == Got(v, |EncScalar(f, v)|)
  {
    match f.ltype
    case Bool => Decode32Canonical(if v.b then 1 else 0, rest);
    case Signed | Unsigned | ZigZagged => NumberInverts(f, v.i, rest);
    case Fixed32 =>
      FixedInverts(v.i, 4);
      TakePrefix(FixedEncode(v.i, 4), rest);
    case Fixed64 =>
      FixedInverts(v.i, 8);
      TakePrefix(FixedEncode(v.i, 8), rest);
    case Bytes | String | FixedBytes => TextInverts(f, v, rest);
  }

  /** A tagged record with a known tag is handed to the field's decoder. */
  lemma RecordStep(d: seq<Field>, k: nat, st: State, wt: nat, payload: seq<byte>, rest: seq<byte>)
    requires GoodDesc(d) && k < |d| == |st.m| && wt < 8
    ensures DecOne(d, st, EncTag(d[k].tag, wt) + payload + rest) ==
            match DecSlot(d[k], wt, st.m[k], payload + rest)
            case Fail => Fail
            case Got(slot, u) => Got(State(st.m[k := slot], Mark(d, k, st.seen)), |EncTag(d[k].tag, wt)| + u)
  {
    var t := EncTag(d[k].tag, wt);
    assert GoodField(d[k]);
    assert t + payload + rest == t + (payload + rest);
    DecTagInverts(d[k].tag, wt, payload + rest);
    assert (t + payload + rest)[|t|..] == payload + rest;
    FindAscending(d, k);
    assert DecRecord(d, st, d[k].tag, wt, payload + rest) == DecKnown(d, st, k, wt, payload + rest);
  }

  /** The loop's view of `RecordStep`, for a decoder that consumes the payload or fails. */
  lemma RecordLoop(d: seq<Field>, k: nat, st: State, wt: nat, payload: seq<byte>, rest: seq<byte>)
    requires GoodDesc(d) && k < |d| == |st.m| && wt < 8
    requires var r := DecSlot(d[k], wt, st.m[k], payload + rest); r.Got? ==> r.used == |payload|
    ensures DecLoop(d, st, EncTag(d[k].tag, wt) + payload + rest) ==
            match DecSlot(d[k], wt, st.m[k], payload + rest)
            case Fail => None
            case Got(slot, _) => DecLoop(d, State(st.m[k := slot], Mark(d, k, st.seen)), rest)
  {
    var t := EncTag(d[k].tag, wt);
    var s := t + payload + rest;
    RecordStep(d, k, st, wt, payload, rest);
    assert s[|t| + |payload|..] == rest;
  }

  // ----- the merge law -----

  /** Decoding the encoding of m on top of any struct merges m into it, or fails because an array
      would overflow; there is no third outcome. */
  lemma {:induction false} DecodeMerges(d: seq<Field>, base: seq<Slot>, m: seq<Slot>)
    requires GoodDesc(d) && TypedMsg(d, base) && TypedMsg(d, m) && StorableMsg(d, m)
    requires |EncMsg(d, m)| < TWO_32
    ensures DecInner(d, base, EncMsg(d, m)) ==
            if FitsMsg(d, base, m) then Some(MergeMsg(d, base, m)) else None
    decreases d, 3
  {
    assert base == [] + base;
    LoopMerges(d, [], d, base, m, {});
    assert [] + MergeMsg(d, base, m) == MergeMsg(d, base, m);
  }

  lemma MoveFirst<T>(a: seq<T>, b: seq<T>)
    requires b != []
    ensures a + [b[0]] + b[1..] == a + b
  {
  }

  lemma ReplaceNext<T>(done: seq<T>, todo: seq<T>, x: T)
    requires todo != []
    ensures (done + todo)[|done| := x] == done + [x] + todo[1..]
  {
  }

  lemma Associate<T>(a: seq<T>, b: seq<T>, c: seq<T>)
    ensures a + b + c == a + (b + c)
  {
  }

  lemma UpdateTwice<T>(s: seq<T>, k: nat, x: T, y: T)
    requires k < |s|
    ensures s[k := x][k := y] == s[k := y]
  {
  }

  lemma TailTyped(d: seq<Field>, m: seq<Slot>)
    requires d != [] && GoodDesc(d) && TypedMsg(d, m)
    ensures GoodDesc(d[1..]) && TypedMsg(d[1..], m[1..])
    ensures StorableMsg(d, m) ==> StorableMsg(d[1..], m[1..])
  {
  }

  /** The first k required fields, up to the 64th, are marked. */
  predicate Covered(d: seq<Field>, k: nat, seen: set<nat>)
    requires k <= |d|
  {
    forall i :: 0 <= i < RequiredBefore(d, k) && i < PB_MAX_REQUIRED_FIELDS ==> i in seen
  }

  lemma CoverNext(d: seq<Field>, k: nat, seen: set<nat>)
    requires k < |d| && Covered(d, k, seen)
    ensures Covered(d, k + 1, Mark(d, k, seen))
  {
  }

  lemma {:induction false} LoopMerges(
    d: seq<Field>, done: seq<Slot>, ds: seq<Field>, base: seq<Slot>, m: seq<Slot>, seen: set<nat>)
    requires GoodDesc(d) && |done| <= |d| && ds == d[|done|..]
    requires TypedMsg(ds, base) && TypedMsg(ds, m) && StorableMsg(ds, m) && GoodDesc(ds)
    requires |EncMsg(ds, m)| < TWO_32
    requires Covered(d, |done|, seen)
    ensures var r := DecLoop(d, State(done + base, seen), EncMsg(ds, m));
            if FitsMsg(ds, base, m)
            then r.Some? && r.value.m == done + MergeMsg(ds, base, m) && Complete(d, r.value.seen)
            else r.None?
    decreases d, 2, |ds|
  {
    hide EncSlot, MergeSlot, FitsSlot;
    if ds == [] {
      assert done + base == done + MergeMsg(ds, base, m);
    } else {
      var k := |done|;
      var f := ds[0];
      assert f == d[k] && ds[1..] == d[k + 1..];
      var rest := EncMsg(ds[1..], m[1..]);
      assert EncMsg(ds, m) == EncSlot(f, m[0]) + rest;
      SlotMerges(d, k, State(done + base, seen), m[0], rest);
      if FitsSlot(f, base[0], m[0]) {
        var x := MergeSlot(f, base[0], m[0]);
        ReplaceNext(done, base, x);
        TailTyped(ds, base);
        TailTyped(ds, m);
        CoverNext(d, k, seen);
        LoopMerges(d, done + [x], ds[1..], base[1..], m[1..], Mark(d, k, seen));
        Associate(done, [x], MergeMsg(ds[1..], base[1..], m[1..]));
      }
    }
  }

  lemma {:induction false} SlotMerges(d: seq<Field>, k: nat, st: State, s: Slot, rest: seq<byte>)
    requires GoodDesc(d) && k < |d| == |st.m|
    requires TypedSlot(d[k], st.m[k]) && TypedSlot(d[k], s) && StorableSlot(d[k], s)
    requires |EncSlot(d[k], s)| < TWO_32
    ensures DecLoop(d, st, EncSlot(d[k], s) + rest) ==
            if FitsSlot(d[k], st.m[k], s)
            then DecLoop(d, State(st.m[k := MergeSlot(d[k], st.m[k], s)], Mark(d, k, st.seen)), rest)
            else None
    decreases d, 1
  {
    var f := d[k];
    match s {
      case One(v) =>
        SingleMerges(d, k, st, v, rest);
      case Maybe(has, v) =>
        if has {
          SingleMerges(d, k, st, v, rest);
        } else {
          assert [] + rest == rest;
          assert st.m[k := st.m[k]] == st.m;
        }
      case Many(vs) =>
        if vs == [] {
          assert [] + rest == rest;
          assert st.m[k].vs + [] == st.m[k].vs;
          assert st.m[k := st.m[k]] == st.m;
        } else if Packable(f.ltype) {
          PackedMerges(d, k, st, vs, rest);
        } else {
          EachMerges(d, k, st, vs, rest);
        }
    }
  }

  /** The record of a required field, or of an optional field that is present. */
  lemma {:induction false} SingleMerges(d: seq<Field>, k: nat, st: State, v: Value, rest: seq<byte>)
    requires GoodDesc(d) && k < |d| == |st.m| && GoodField(d[k])
    requires TypedSlot(d[k], st.m[k]) && !st.m[k].Many? && TypedValue(d[k], v) && StorableValue(d[k], v)
    requires |EncValue(d[k], v)| < TWO_32
    ensures var f := d[k];
            DecLoop(d, st, EncTag(f.tag, WireType(f.ltype)) + EncValue(f, v) + rest) ==
            if FitsValue(f, st.m[k].v, v)
            then var w := MergeValue(f, st.m[k].v, v);
                 DecLoop(d, State(st.m[k := if st.m[k].One? then One(w) else Maybe(true, w)], Mark(d, k, st.seen)), rest)
            else None
    decreases d, 0, 0
  {
    var f := d[k];
    ValueMerges(f, st.m[k].v, v, rest);
    RecordLoop(d, k, st, WireType(f.ltype), EncValue(f, v), rest);
  }

  lemma {:induction false} ValueMerges(f: Field, base: Value, v: Value, rest: seq<byte>)
    requires GoodField(f) && TypedValue(f, base) && TypedValue(f, v) && StorableValue(f, v)
    requires |EncValue(f, v)| < TWO_32
    ensures DecValue(f, base, EncValue(f, v) + rest) ==
            if FitsValue(f, base, v) then Got(MergeValue(f, base, v), |EncValue(f, v)|) else Fail
    decreases f
  {
    if f.ltype.Submessage? {
      var e := EncMsg(f.sub, v.slots);
      DecStringInverts(e, rest);
      DecodeMerges(f.sub, base.slots, v.slots);
    } else {
      ScalarInverts(f, v, rest);
    }
  }

  /** One element of a repeated field that is not packed. */
  lemma ElementMerges(d: seq<Field>, k: nat, st: State, v: Value, rest: seq<byte>)
    requires GoodDesc(d) && k < |d| == |st.m| && GoodField(d[k]) && d[k].rule.Repeated? && !Packable(d[k].ltype)
    requires st.m[k].Many? && TypedValue(d[k], v) && StorableValue(d[k], v)
    requires |EncValue(d[k], v)| < TWO_32
    ensures DecLoop(d, st, EncTag(d[k].tag, WireType(d[k].ltype)) + EncValue(d[k], v) + rest) ==
            if |st.m[k].vs| < d[k].arraySize
            then DecLoop(d, State(st.m[k := Many(st.m[k].vs + [CleanValue(d[k], v)])], st.seen), rest)
            else None
    decreases d, 0, 0
  {
    var f := d[k];
    MergeValueIntoDefault(f, v);
    ValueMerges(f, DefaultValue(f), v, rest);
    RecordLoop(d, k, st, WireType(f.ltype), EncValue(f, v), rest);
  }

  lemma {:induction false} EachMerges(d: seq<Field>, k: nat, st: State, vs: seq<Value>, rest: seq<byte>)
    requires GoodDesc(d) && k < |d| == |st.m| && GoodField(d[k]) && d[k].rule.Repeated? && !Packable(d[k].ltype)
    requires st.m[k].Many?
    requires forall i :: 0 <= i < |vs| ==> TypedValue(d[k], vs[i]) && StorableValue(d[k], vs[i])
    requires |EncEach(d[k], vs)| < TWO_32
    ensures DecLoop(d, st, EncEach(d[k], vs) + rest) ==
            if vs == [] || |st.m[k].vs| + |vs| <= d[k].arraySize
            then DecLoop(d, State(st.m[k := Many(st.m[k].vs + CleanAll(d[k], vs))], st.seen), rest)
            else None
    decreases d, 0, 1 + |vs|
  {
    var f := d[k];
    if vs == [] {
      assert [] + rest == rest;
      assert st.m[k].vs + [] == st.m[k].vs;
      assert st.m[k := st.m[k]] == st.m;
    } else {
      var rest' := EncEach(f, vs[1..]) + rest;
      assert EncEach(f, vs) + rest == EncTag(f.tag, WireType(f.ltype)) + EncValue(f, vs[0]) + rest';
      ElementMerges(d, k, st, vs[0], rest');
      if |st.m[k].vs| < f.arraySize {
        var one := Many(st.m[k].vs + [CleanValue(f, vs[0])]);
        EachMerges(d, k, State(st.m[k := one], st.seen), vs[1..], rest);
        Associate(st.m[k].vs, [CleanValue(f, vs[0])], CleanAll(f, vs[1..]));
        UpdateTwice(st.m, k, one, Many(one.vs + CleanAll(f, vs[1..])));
      }
    }
  }

  // ----- packed arrays -----

  lemma {:induction false} CleanScalars(f: Field, vs: seq<Value>)
    requires !f.ltype.Submessage? && forall i :: 0 <= i < |vs| ==> TypedValue(f, vs[i])
    ensures CleanAll(f, vs) == vs
  {
    if vs != [] {
      CleanScalars(f, vs[1..]);
    }
  }

  /** A packed payload appends its elements, or overflows the array. */
  lemma {:induction false} PackedInverts(f: Field, have: seq<Value>, vs: seq<Value>)
    requires GoodField(f) && Packable(f.ltype)
    requires forall i :: 0 <= i < |vs| ==> TypedValue(f, vs[i])
    ensures DecPacked(f, have, EncPacked(f, vs)) ==
            if vs == [] || |have| + |vs| <= f.arraySize then Some(have + vs) else None
    decreases |vs|
  {
    if vs == [] {
      assert have + vs == have;
    } else {
      var e := EncScalar(f, vs[0]);
      var rest := EncPacked(f, vs[1..]);
      ScalarInverts(f, vs[0], rest);
      TakePrefix(e, rest);
      if |have| < f.arraySize {
        PackedInverts(f, have + [vs[0]], vs[1..]);
        MoveFirst(have, vs);
      }
    }
  }

  lemma PackedSlot(f: Field, slot: Slot, vs: seq<Value>, rest: seq<byte>)
    requires GoodField(f) && Packable(f.ltype) && f.rule.Repeated? && slot.Many?
    requires forall i :: 0 <= i < |vs| ==> TypedValue(f, vs[i])
    requires |EncPacked(f, vs)| < TWO_32
    ensures var e := EncPacked(f, vs);
            DecSlot(f, PB_WT_STRING, slot, Encode(|e|) + e + rest) ==
            if vs == [] || |slot.vs| + |vs| <= f.arraySize
            then Got(Many(slot.vs + vs), |Encode(|e|)| + |e|) else Fail
  {
    DecStringInverts(EncPacked(f, vs), rest);
    PackedInverts(f, slot.vs, vs);
  }

  lemma PackedMerges(d: seq<Field>, k: nat, st: State, vs: seq<Value>, rest: seq<byte>)
    requires GoodDesc(d) && k < |d| == |st.m| && GoodField(d[k]) && d[k].rule.Repeated? && Packable(d[k].ltype)
    requires st.m[k].Many?
    requires forall i :: 0 <= i < |vs| ==> TypedValue(d[k], vs[i])
    requires |EncPacked(d[k], vs)| < TWO_32
    ensures var e := EncPacked(d[k], vs);
            DecLoop(d, st, EncTag(d[k].tag, PB_WT_STRING) + Encode(|e|) + e + rest) ==
            if vs == [] || |st.m[k].vs| + |vs| <= d[k].arraySize
            then DecLoop(d, State(st.m[k := Many(st.m[k].vs + CleanAll(d[k], vs))], st.seen), rest)
            else None
  {
    var e := EncPacked(d[k], vs);
    var t := EncTag(d[k].tag, PB_WT_STRING);
    PackedSlot(d[k], st.m[k], vs, rest);
    CleanScalars(d[k], vs);
    RecordLoop(d, k, st, PB_WT_STRING, Encode(|e|) + e, rest);
    Associate(t, Encode(|e|), e);
  }

  // ----- the round trip -----

  /** Every well-formed message of any nesting depth decodes from its encoding to itself; absent
      optional fields come back absent, with default data behind them. */
  lemma DecodeInvertsEncode(d: seq<Field>, m: seq<Slot>)
    requires GoodDesc(d) && TypedMsg(d, m) && StorableMsg(d, m) && |EncMsg(d, m)| < TWO_32
    ensures Decode(d, EncMsg(d, m)) == Some(CleanMsg(d, m))
  {
    MergeIntoDefault(d, m);
    DecodeMerges(d, Default(d), m);
  }

  /** Later scalars win, submessages merge and repeated fields append, within the array sizes. */
  lemma DecodeTwoEncodings(d: seq<Field>, m1: seq<Slot>, m2: seq<Slot>)
    requires GoodDesc(d) && TypedMsg(d, m1) && StorableMsg(d, m1) && |EncMsg(d, m1)| < TWO_32
    requires TypedMsg(d, m2) && StorableMsg(d, m2) && |EncMsg(d, m2)| < TWO_32
    ensures TypedMsg(d, CleanMsg(d, m1))
    ensures Decode(d, EncMsg(d, m1) + EncMsg(d, m2)) ==
            if FitsMsg(d, CleanMsg(d, m1), m2) then Some(MergeMsg(d, CleanMsg(d, m1), m2)) else None
  {
    DecodeInvertsEncode(d, m1);
    CleanTyped(d, m1);
    var a, b := EncMsg(d, m1), EncMsg(d, m2);
    DecodeMerges(d, CleanMsg(d, m1), m2);
    if FitsMsg(d, CleanMsg(d, m1), m2) {
      DecodeConcat(d, Default(d), a, b);
    } else {
      assert CleanMsg(d, m1) == [] + CleanMsg(d, m1);
      LoopMerges(d, [], d, CleanMsg(d, m1), m2, {});
      DecodeConcatFails(d, Default(d), a, b);
    }
  }

  // ----- packed, one by one, or any mixture -----

  /** How a sender may split the elements of a repeated scalar field. */
  datatype Piece = Single(v: Value) | Batch(vs: seq<Value>)

  function PieceElements(p: Piece): seq<Value> {
    match p
    case Single(v) => [v]
    case Batch(vs) => vs
  }

  function Elements(ps: seq<Piece>): seq<Value> {
    if ps == [] then [] else PieceElements(ps[0]) + Elements(ps[1..])
  }

  predicate GoodPiece(f: Field, p: Piece)
    requires GoodField(f) && Packable(f.ltype)
  {
    match p
    case Single(v) => TypedValue(f, v)
    case Batch(vs) => (forall i :: 0 <= i < |vs| ==> TypedValue(f, vs[i])) && |EncPacked(f, vs)| < TWO_32
  }

  function PieceBytes(f: Field, p: Piece): seq<byte>
    requires GoodField(f) && Packable(f.ltype) && GoodPiece(f, p)
  {
    match p
    case Single(v) => EncTag(f.tag, WireType(f.ltype)) + EncScalar(f, v)
    case Batch(vs) => var e := EncPacked(f, vs); EncTag(f.tag, PB_WT_STRING) + Encode(|e|) + e
  }

  function PiecesBytes(f: Field, ps: seq<Piece>): seq<byte>
    requires GoodField(f) && Packable(f.ltype) && forall i :: 0 <= i < |ps| ==> GoodPiece(f, ps[i])
  {
    if ps == [] then [] else PieceBytes(f, ps[0]) + PiecesBytes(f, ps[1..])
  }

  lemma PieceAppends(d: seq<Field>, k: nat, st: State, p: Piece, rest: seq<byte>)
    requires GoodDesc(d) && k < |d| == |st.m| && GoodField(d[k]) && d[k].rule.Repeated? && Packable(d[k].ltype)
    requires st.m[k].Many? && GoodPiece(d[k], p)
    ensures DecLoop(d, st, PieceBytes(d[k], p) + rest) ==
            if PieceElements(p) == [] || |st.m[k].vs| + |PieceElements(p)| <= d[k].arraySize
            then DecLoop(d, State(st.m[k := Many(st.m[k].vs + PieceElements(p))], st.seen), rest)
            else None
  {
    match p
    case Single(v) =>
      ScalarInverts(d[k], v, rest);
      RecordLoop(d, k, st, WireType(d[k].ltype), EncScalar(d[k], v), rest);
    case Batch(vs) =>
      PackedMerges(d, k, st, vs, rest);
      CleanScalars(d[k], vs);
  }

  /** A repeated scalar field ends up with the same elements in the same order however they were
      split into packed and single records, exactly when the array has room for all of them. */
  lemma {:induction false} AnySplitAppends(d: seq<Field>, k: nat, st: State, ps: seq<Piece>)
    requires GoodDesc(d) && k < |d| == |st.m| && GoodField(d[k]) && d[k].rule.Repeated? && Packable(d[k].ltype)
    requires st.m[k].Many? && |st.m[k].vs| <= d[k].arraySize
    requires forall i :: 0 <= i < |ps| ==> GoodPiece(d[k], ps[i])
    ensures DecLoop(d, st, PiecesBytes(d[k], ps)) ==
            if |st.m[k].vs| + |Elements(ps)| <= d[k].arraySize
            then Some(State(st.m[k := Many(st.m[k].vs + Elements(ps))], st.seen))
            else None
    decreases |ps|
  {
    var have := st.m[k].vs;
    if ps == [] {
      assert have + [] == have;
      assert st.m[k := st.m[k]] == st.m;
    } else {
      var now, later := PieceElements(ps[0]), Elements(ps[1..]);
      PieceAppends(d, k, st, ps[0], PiecesBytes(d[k], ps[1..]));
      if |have| + |now| <= d[k].arraySize {
        AnySplitAppends(d, k, State(st.m[k := Many(have + now)], st.seen), ps[1..]);
        Associate(have, now, later);
        UpdateTwice(st.m, k, Many(have + now), Many(have + now + later));
      }
    }
  }
}
