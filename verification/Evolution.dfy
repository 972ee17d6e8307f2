/** Peers of different versions: what a reader makes of a message that was encoded with another descriptor,
    which may lack fields the reader has and have fields the reader lacks, at any depth. */
module Evolution {
  import opened Varint
  import opened Schema
  import opened Codec
  import opened CodecLaws
  import opened RoundTrip
  import opened Records

  // ----- an encoding as a list of records -----

  function Record(f: Field, v: Value): seq<byte>
    requires TypedValue(f, v) && GoodField(f)
  {
    EncTag(f.tag, WireType(f.ltype)) + EncValue(f, v)
  }

  function Each(f: Field, vs: seq<Value>): seq<seq<byte>>
    requires GoodField(f) && forall i :: 0 <= i < |vs| ==> TypedValue(f, vs[i])
  {
    if vs == [] then [] else [Record(f, vs[0])] + Each(f, vs[1..])
  }

  function Packed(f: Field, vs: seq<Value>): seq<byte>
    requires GoodField(f) && Packable(f.ltype) && forall i :: 0 <= i < |vs| ==> TypedValue(f, vs[i])
  {
    var e := EncPacked(f, vs);
    EncTag(f.tag, PB_WT_STRING) + Encode(|e|) + e
  }

  function SlotRecords(f: Field, s: Slot): seq<seq<byte>>
    requires TypedSlot(f, s) && GoodField(f)
  {
    match s
    case One(v) => [Record(f, v)]
    case Maybe(has, v) => if has then [Record(f, v)] else []
    case Many(vs) => if vs == [] then [] else if Packable(f.ltype) then [Packed(f, vs)] else Each(f, vs)
  }

  function MsgRecords(d: seq<Field>, m: seq<Slot>): seq<seq<byte>>
    requires TypedMsg(d, m) && GoodDesc(d)
  {
    if d == [] then [] else SlotRecords(d[0], m[0]) + MsgRecords(d[1..], m[1..])
  }

  lemma {:induction false} JoinedAppend(us: seq<seq<byte>>, vs: seq<seq<byte>>)
    ensures Joined(us + vs) == Joined(us) + Joined(vs)
  {
    if us == [] {
      assert us + vs == vs;
    } else {
      JoinedAppend(us[1..], vs);
      assert (us + vs)[0] == us[0] && (us + vs)[1..] == us[1..] + vs;
      Associate(us[0], Joined(us[1..]), Joined(vs));
    }
  }

  lemma {:induction false} JoinedEach(f: Field, vs: seq<Value>)
    requires GoodField(f) && forall i :: 0 <= i < |vs| ==> TypedValue(f, vs[i])
    ensures Joined(Each(f, vs)) == EncEach(f, vs)
  {
    hide EncTag, EncValue, WireType;
    if vs != [] {
      JoinedEach(f, vs[1..]);
      assert Each(f, vs)[1..] == Each(f, vs[1..]);
    }
  }

  lemma JoinedOne(u: seq<byte>)
    ensures Joined([u]) == u
  {
    assert [u][1..] == [];
  }

  lemma JoinedSlot(f: Field, s: Slot)
    requires TypedSlot(f, s) && GoodField(f)
    ensures Joined(SlotRecords(f, s)) == EncSlot(f, s)
  {
    hide EncTag, EncValue, EncPacked, EncEach, Each;
    match s
    case One(v) => JoinedOne(Record(f, v));
    case Maybe(has, v) => JoinedOne(Record(f, v));
    case Many(vs) =>
      if Packable(f.ltype) {
        JoinedOne(Packed(f, vs));
      } else {
        JoinedEach(f, vs);
      }
  }

  lemma {:induction false} JoinedMsg(d: seq<Field>, m: seq<Slot>)
    requires TypedMsg(d, m) && GoodDesc(d)
    ensures Joined(MsgRecords(d, m)) == EncMsg(d, m)
  {
    hide SlotRecords, EncSlot;
    if d != [] {
      assert GoodField(d[0]) && TypedSlot(d[0], m[0]);
      TailTyped(d, m);
      JoinedSlot(d[0], m[0]);
      JoinedMsg(d[1..], m[1..]);
      JoinedAppend(SlotRecords(d[0], m[0]), MsgRecords(d[1..], m[1..]));
    }
  }

  // ----- every record of the encoder is a record -----

  lemma KeyAndPayload(tag: nat, wt: nat, p: seq<byte>)
    requires 0 < tag <= PB_SIZE_MAX && Payload(wt, p)
    ensures var u := EncTag(tag, wt) + p; IsRecord(u) && TagOf(u) == tag && TypeOf(u) == wt && BodyOf(u) == p
  {
    hide Payload, EncTag;
    assert wt < 8 by {
      SmallType(wt, p);
    }
    DecTagInverts(tag, wt, p);
    TakePrefix(EncTag(tag, wt), p);
  }

  lemma SmallType(wt: nat, p: seq<byte>)
    requires Payload(wt, p)
    ensures wt < 8
  {
  }

  lemma EncodeIsPayload(v: nat)
    ensures Payload(0, Encode(v))
  {
    hide Encode;
    EncodeLast(v);
    forall i | 0 <= i < |Encode(v)| - 1
      ensures Encode(v)[i] >= 128
    {
      EncodeGroups(v, i);
    }
  }

  lemma PrefixedIsPayload(t: seq<byte>)
    requires |t| < TWO_32
    ensures Payload(2, Encode(|t|) + t)
  {
    Decode32Canonical(|t|, t);
  }

  lemma ValueIsPayload(f: Field, v: Value)
    requires TypedValue(f, v) && GoodField(f) && |EncValue(f, v)| < TWO_32
    ensures Payload(WireType(f.ltype), EncValue(f, v))
  {
    hide Payload, Encode;
    match f.ltype
    case Bool => EncodeIsPayload(if v.b then 1 else 0);
    case Signed =>
      SignedWithin64(v.i, f.dataSize);
      EncodeIsPayload(ToUnsigned(v.i));
    case Unsigned => EncodeIsPayload(v.i);
    case ZigZagged => EncodeIsPayload(ZigZag(v.i));
    case Fixed32 => BareIsPayload(FixedEncode(v.i, 4));
    case Fixed64 => BareIsPayload(FixedEncode(v.i, 8));
    case Bytes | String | FixedBytes => PrefixedIsPayload(v.bytes);
    case Submessage => PrefixedIsPayload(EncMsg(f.sub, v.slots));
  }

  lemma BareIsPayload(p: seq<byte>)
    ensures |p| == 4 ==> Payload(5, p)
    ensures |p| == 8 ==> Payload(1, p)
  {
  }

  /** The record that the encoder writes for a value of any type. */
  lemma RecordIs(f: Field, v: Value)
    requires TypedValue(f, v) && GoodField(f) && |EncValue(f, v)| < TWO_32
    ensures var u := Record(f, v);
            IsRecord(u) && TagOf(u) == f.tag && TypeOf(u) == WireType(f.ltype) && BodyOf(u) == EncValue(f, v)
  {
    hide Payload, EncValue, EncTag, IsRecord, TagOf, TypeOf, BodyOf;
    ValueIsPayload(f, v);
    KeyAndPayload(f.tag, WireType(f.ltype), EncValue(f, v));
  }

  lemma PackedIs(f: Field, vs: seq<Value>)
    requires GoodField(f) && Packable(f.ltype) && forall i :: 0 <= i < |vs| ==> TypedValue(f, vs[i])
    requires |EncPacked(f, vs)| < TWO_32
    ensures var u, e := Packed(f, vs), EncPacked(f, vs);
            IsRecord(u) && TagOf(u) == f.tag && TypeOf(u) == PB_WT_STRING && BodyOf(u) == Encode(|e|) + e
  {
    hide Payload, EncPacked, EncTag, IsRecord, TagOf, TypeOf, BodyOf, Encode;
    var e := EncPacked(f, vs);
    PrefixedIsPayload(e);
    KeyAndPayload(f.tag, 2, Encode(|e|) + e);
    Associate(EncTag(f.tag, 2), Encode(|e|), e);
  }

  /** All of them are records with this tag. */
  predicate AllTagged(us: seq<seq<byte>>, tag: nat) {
    forall i :: 0 <= i < |us| ==> IsRecord(us[i]) && TagOf(us[i]) == tag
  }

  lemma {:induction false} EachTagged(f: Field, vs: seq<Value>)
    requires GoodField(f) && forall i :: 0 <= i < |vs| ==> TypedValue(f, vs[i])
    requires |EncEach(f, vs)| < TWO_32
    ensures AllTagged(Each(f, vs), f.tag)
    decreases |vs|
  {
    hide EncValue, EncTag, IsRecord, TagOf, WireType;
    if vs != [] {
      RecordIs(f, vs[0]);
      EachTagged(f, vs[1..]);
    }
  }

  lemma SlotTagged(f: Field, s: Slot)
    requires TypedSlot(f, s) && GoodField(f) && |EncSlot(f, s)| < TWO_32
    ensures AllTagged(SlotRecords(f, s), f.tag)
  {
    hide EncValue, EncTag, EncPacked, EncEach, Each, IsRecord, TagOf, WireType, Record, Packed;
    match s
    case One(v) => RecordIs(f, v);
    case Maybe(has, v) =>
      if has {
        RecordIs(f, v);
      }
    case Many(vs) =>
      if vs == [] {
      } else if Packable(f.ltype) {
        PackedIs(f, vs);
      } else {
        EachTagged(f, vs);
      }
  }

  // ----- which records of an encoding belong to which field -----

  lemma {:induction false} OfAppend(us: seq<seq<byte>>, vs: seq<seq<byte>>, tag: nat)
    ensures Of(us + vs, tag) == Of(us, tag) + Of(vs, tag)
  {
    hide TagOf;
    if us == [] {
      assert us + vs == vs;
    } else {
      OfAppend(us[1..], vs, tag);
      assert (us + vs)[1..] == us[1..] + vs;
    }
  }

  lemma {:induction false} OfTagged(us: seq<seq<byte>>, t: nat, tag: nat)
    requires AllTagged(us, t)
    ensures Of(us, tag) == if t == tag then us else []
  {
    hide TagOf, IsRecord;
    if us != [] {
      OfTagged(us[1..], t, tag);
    }
  }

  lemma {:induction false} MsgOf(d: seq<Field>, m: seq<Slot>, tag: nat)
    requires TypedMsg(d, m) && GoodDesc(d) && |EncMsg(d, m)| < TWO_32
    ensures var j := Find(d, tag);
            if j < |d| then TypedSlot(d[j], m[j]) && GoodField(d[j]) && Of(MsgRecords(d, m), tag) == SlotRecords(d[j], m[j])
            else Of(MsgRecords(d, m), tag) == []
    ensures AllRecords(MsgRecords(d, m))
  {
    hide TagOf, IsRecord, EncSlot, SlotRecords;
    if d != [] {
      assert GoodField(d[0]) && TypedSlot(d[0], m[0]);
      TailTyped(d, m);
      var a, b := SlotRecords(d[0], m[0]), MsgRecords(d[1..], m[1..]);
      SlotTagged(d[0], m[0]);
      MsgOf(d[1..], m[1..], tag);
      OfAppend(a, b, tag);
      OfTagged(a, d[0].tag, tag);
      if d[0].tag == tag {
        var j := Find(d[1..], tag);
        assert j == |d[1..]|;
      }
    }
  }

  // ----- what the reader can read, and what it sees -----

  /** Field f of the reader has the tag, type and rule of field w of the writer, and at least its storage. */
  predicate Reads(f: Field, w: Field)
    decreases f
  {
    f.tag == w.tag && f.ltype == w.ltype && f.rule == w.rule && f.arraySize >= w.arraySize &&
    match f.ltype
    case Submessage => Compatible(f.sub, w.sub)
    case FixedBytes => f.dataSize == w.dataSize
    case _ => f.dataSize >= w.dataSize
  }

  /** Fields of the same tag agree, at every depth; either side may have fields that the other lacks. */
  predicate Compatible(d: seq<Field>, w: seq<Field>)
    decreases d
  {
    forall i, j {:trigger Reads(d[i], w[j])} :: 0 <= i < |d| && 0 <= j < |w| && d[i].tag == w[j].tag ==> Reads(d[i], w[j])
  }

  /** What the reader's field holds for a value of the writer's: submessages lose what the reader does not know. */
  function ViewValue(f: Field, w: Field, v: Value): Value
    requires Reads(f, w) && TypedValue(w, v)
    decreases f, 0
  {
    if f.ltype.Submessage? then Struct(View(f.sub, w.sub, v.slots)) else v
  }

  function ViewAll(f: Field, w: Field, vs: seq<Value>): seq<Value>
    requires Reads(f, w) && forall i :: 0 <= i < |vs| ==> TypedValue(w, vs[i])
    decreases f, 1, |vs|
  {
    if vs == [] then [] else [ViewValue(f, w, vs[0])] + ViewAll(f, w, vs[1..])
  }

  function ViewSlot(f: Field, w: Field, s: Slot): Slot
    requires Reads(f, w) && TypedSlot(w, s)
    decreases f, 2
  {
    match s
    case One(v) => One(ViewValue(f, w, v))
    case Maybe(has, v) => if has then Maybe(true, ViewValue(f, w, v)) else DefaultSlot(f)
    case Many(vs) => Many(ViewAll(f, w, vs))
  }

  /** A field that the writer does not have keeps its default. */
  function ViewField(f: Field, w: seq<Field>, m: seq<Slot>): Slot
    requires TypedMsg(w, m) && forall j :: 0 <= j < |w| && w[j].tag == f.tag ==> Reads(f, w[j])
    decreases f, 3
  {
    var j := Find(w, f.tag);
    if j < |w| then (assert TypedSlot(w[j], m[j]); ViewSlot(f, w[j], m[j])) else DefaultSlot(f)
  }

  /** The part of the writer's message that the reader knows. */
  function View(d: seq<Field>, w: seq<Field>, m: seq<Slot>): (r: seq<Slot>)
    requires Compatible(d, w) && TypedMsg(w, m)
    ensures |r| == |d|
    decreases d
  {
    if d == [] then []
    else
      assert forall j :: 0 <= j < |w| && w[j].tag == d[0].tag ==> Reads(d[0], w[j]);
      assert forall i, j :: 0 <= i < |d[1..]| && 0 <= j < |w| && d[1..][i].tag == w[j].tag ==> Reads(d[i + 1], w[j]);
      [ViewField(d[0], w, m)] + View(d[1..], w, m)
  }

  /** The required fields of the reader are in what the writer sends, at every depth that is sent. */
  predicate ServesValue(f: Field, w: Field, v: Value)
    requires Reads(f, w) && TypedValue(w, v)
    decreases f, 0
  {
    f.ltype.Submessage? ==> Serves(f.sub, w.sub, v.slots)
  }

  predicate ServesAll(f: Field, w: Field, vs: seq<Value>)
    requires Reads(f, w) && forall i :: 0 <= i < |vs| ==> TypedValue(w, vs[i])
    decreases f, 1, |vs|
  {
    vs == [] || (ServesValue(f, w, vs[0]) && ServesAll(f, w, vs[1..]))
  }

  predicate ServesSlot(f: Field, w: Field, s: Slot)
    requires Reads(f, w) && TypedSlot(w, s)
    decreases f, 2
  {
    match s
    case One(v) => ServesValue(f, w, v)
    case Maybe(has, v) => has ==> ServesValue(f, w, v)
    case Many(vs) => ServesAll(f, w, vs)
  }

  predicate ServesField(f: Field, w: seq<Field>, m: seq<Slot>)
    requires TypedMsg(w, m) && forall j :: 0 <= j < |w| && w[j].tag == f.tag ==> Reads(f, w[j])
    decreases f, 3
  {
    var j := Find(w, f.tag);
    j < |w| ==> TypedSlot(w[j], m[j]) && ServesSlot(f, w[j], m[j])
  }

  predicate Serves(d: seq<Field>, w: seq<Field>, m: seq<Slot>)
    requires Compatible(d, w) && TypedMsg(w, m)
    decreases d
  {
    (forall k :: 0 <= k < |d| && Tested(d, k) ==> exists j :: 0 <= j < |w| && w[j].tag == d[k].tag) &&
    forall k {:trigger d[k]} :: 0 <= k < |d| ==>
      (assert forall j :: 0 <= j < |w| && w[j].tag == d[k].tag ==> Reads(d[k], w[j]); ServesField(d[k], w, m))
  }

  // ----- one field -----

  /** A value of the writer's type is one of the reader's, and both write the same bytes. */
  lemma Wider(f: Field, w: Field, v: Value)
    requires GoodField(f) && GoodField(w) && Reads(f, w) && !f.ltype.Submessage?
    requires TypedValue(w, v) && StorableValue(w, v)
    ensures TypedValue(f, v) && StorableValue(f, v) && EncScalar(f, v) == EncScalar(w, v)
  {
    Pow256Values();
  }

  lemma {:induction false} ValueViews(f: Field, w: Field, v: Value)
    requires GoodField(f) && GoodField(w) && Reads(f, w) && TypedValue(w, v) && StorableValue(w, v)
    requires |EncValue(w, v)| < TWO_32
    ensures DecValue(f, DefaultValue(f), EncValue(w, v)) ==
            if ServesValue(f, w, v) then Got(ViewValue(f, w, v), |EncValue(w, v)|) else Fail
    decreases f, 0
  {
    var p := EncValue(w, v);
    assert p + [] == p;
    if f.ltype.Submessage? {
      DecStringInverts(EncMsg(w.sub, v.slots), []);
      PeersUnderstand(f.sub, w.sub, v.slots);
    } else {
      Wider(f, w, v);
      ScalarInverts(f, v, []);
    }
  }

  /** A single record, on a required or optional field of the reader that is still at its default. */
  lemma {:induction false} SingleViews(f: Field, w: Field, v: Value)
    requires GoodField(f) && GoodField(w) && Reads(f, w) && TypedValue(w, v) && StorableValue(w, v)
    requires |EncValue(w, v)| < TWO_32 && !f.rule.Repeated?
    ensures Fold(f, DefaultSlot(f), [Record(w, v)]) ==
            if ServesValue(f, w, v)
            then var x := ViewValue(f, w, v); Some(if f.rule.Required? then One(x) else Maybe(true, x))
            else None
    decreases f, 1
  {
    hide TagOf, TypeOf, BodyOf, EncValue, DecValue, Record, WireType;
    var u := Record(w, v);
    RecordIs(w, v);
    ValueViews(f, w, v);
    OnlyRecord(f, DefaultSlot(f), u);
  }

  lemma OnlyRecord(f: Field, slot: Slot, u: seq<byte>)
    requires TagOf(u) == f.tag
    ensures Fold(f, slot, [u]) == Step(f, slot, u)
  {
    hide TagOf, Step;
    assert [u][1..] == [];
    var x := Step(f, slot, u);
    assert x.Some? ==> Fold(f, x.value, []) == x;
  }

  /** One element of a repeated field. */
  lemma {:induction false} ElementViews(f: Field, w: Field, have: seq<Value>, v: Value)
    requires GoodField(f) && GoodField(w) && Reads(f, w) && TypedValue(w, v) && StorableValue(w, v)
    requires |EncValue(w, v)| < TWO_32 && f.rule.Repeated? && !Packable(f.ltype) && |have| < f.arraySize
    ensures Step(f, Many(have), Record(w, v)) ==
            if ServesValue(f, w, v) then Some(Many(have + [ViewValue(f, w, v)])) else None
    decreases f, 1
  {
    hide TagOf, TypeOf, BodyOf, EncValue, DecValue, Record;
    RecordIs(w, v);
    ValueViews(f, w, v);
  }

  lemma {:induction false} EachViews(f: Field, w: Field, have: seq<Value>, vs: seq<Value>)
    requires GoodField(f) && GoodField(w) && Reads(f, w) && f.rule.Repeated? && !Packable(f.ltype)
    requires forall i :: 0 <= i < |vs| ==> TypedValue(w, vs[i]) && StorableValue(w, vs[i])
    requires |EncEach(w, vs)| < TWO_32 && |have| + |vs| <= f.arraySize
    ensures Fold(f, Many(have), Each(w, vs)) ==
            if ServesAll(f, w, vs) then Some(Many(have + ViewAll(f, w, vs))) else None
    decreases f, 2, |vs|
  {
    hide TagOf, EncValue, Record, Step, Reads;
    if vs == [] {
      assert have + [] == have;
    } else {
      var u, rest := Record(w, vs[0]), Each(w, vs[1..]);
      assert ([u] + rest)[1..] == rest;
      SameTag(f, w);
      EachLength(w, vs);
      RecordIs(w, vs[0]);
      ElementViews(f, w, have, vs[0]);
      if ServesValue(f, w, vs[0]) {
        var x := ViewValue(f, w, vs[0]);
        EachViews(f, w, have + [x], vs[1..]);
        Associate(have, [x], ViewAll(f, w, vs[1..]));
      }
    }
  }

  lemma SameTag(f: Field, w: Field)
    requires Reads(f, w)
    ensures f.tag == w.tag
  {
  }

  lemma EachLength(w: Field, vs: seq<Value>)
    requires vs != [] && GoodField(w) && forall i :: 0 <= i < |vs| ==> TypedValue(w, vs[i])
    ensures |EncValue(w, vs[0])| <= |EncEach(w, vs)| && |EncEach(w, vs[1..])| <= |EncEach(w, vs)|
  {
  }

  lemma {:induction false} SamePacked(f: Field, w: Field, vs: seq<Value>)
    requires GoodField(f) && GoodField(w) && Reads(f, w) && Packable(f.ltype)
    requires forall i :: 0 <= i < |vs| ==> TypedValue(w, vs[i])
    ensures forall i :: 0 <= i < |vs| ==> TypedValue(f, vs[i])
    ensures EncPacked(f, vs) == EncPacked(w, vs) && ViewAll(f, w, vs) == vs && ServesAll(f, w, vs)
  {
    if vs != [] {
      Wider(f, w, vs[0]);
      SamePacked(f, w, vs[1..]);
      assert vs == [vs[0]] + vs[1..];
    }
  }

  lemma PackedViews(f: Field, w: Field, vs: seq<Value>)
    requires GoodField(f) && GoodField(w) && Reads(f, w) && f.rule.Repeated? && Packable(f.ltype)
    requires forall i :: 0 <= i < |vs| ==> TypedValue(w, vs[i])
    requires |EncPacked(w, vs)| < TWO_32 && |vs| <= f.arraySize
    ensures Fold(f, Many([]), [Packed(w, vs)]) == Some(Many(vs))
  {
    hide TagOf, TypeOf, BodyOf, EncPacked, DecPacked, Packed, Encode, Decode32;
    var u, e := Packed(w, vs), EncPacked(w, vs);
    PackedIs(w, vs);
    SamePacked(f, w, vs);
    DecStringInverts(e, []);
    assert Encode(|e|) + e + [] == Encode(|e|) + e;
    PackedInverts(f, [], vs);
    assert [] + vs == vs;
    OnlyRecord(f, Many([]), u);
  }

  /** The records of one field. */
  lemma {:induction false} SlotViews(f: Field, w: Field, s: Slot)
    requires GoodField(f) && GoodField(w) && Reads(f, w) && TypedSlot(w, s) && StorableSlot(w, s)
    requires |EncSlot(w, s)| < TWO_32
    ensures Fold(f, DefaultSlot(f), SlotRecords(w, s)) ==
            if ServesSlot(f, w, s) then Some(ViewSlot(f, w, s)) else None
    decreases f, 3
  {
    hide EncTag, EncValue, Record, Step, Packed, EncPacked, EncEach, Each, Encode;
    match s
    case One(v) => SingleViews(f, w, v);
    case Maybe(has, v) =>
      if has {
        SingleViews(f, w, v);
      }
    case Many(vs) =>
      if vs == [] {
      } else if Packable(f.ltype) {
        PackedViews(f, w, vs);
        SamePacked(f, w, vs);
      } else {
        EachViews(f, w, [], vs);
        assert [] + ViewAll(f, w, vs) == ViewAll(f, w, vs);
      }
  }

  lemma {:induction false} FieldViews(f: Field, w: seq<Field>, m: seq<Slot>)
    requires GoodField(f) && GoodDesc(w) && TypedMsg(w, m) && StorableMsg(w, m) && |EncMsg(w, m)| < TWO_32
    requires forall j :: 0 <= j < |w| && w[j].tag == f.tag ==> Reads(f, w[j])
    ensures Fold(f, DefaultSlot(f), MsgRecords(w, m)) ==
            if ServesField(f, w, m) then Some(ViewField(f, w, m)) else None
    decreases f, 4
  {
    hide Fold, MsgRecords, EncMsg, EncSlot, SlotRecords, Reads, GoodField, DefaultSlot, Of, ServesSlot, ViewSlot;
    FoldsOwn(f, DefaultSlot(f), MsgRecords(w, m));
    MsgOf(w, m, f.tag);
    var j := Find(w, f.tag);
    if j < |w| {
      assert StorableSlot(w[j], m[j]);
      SlotLength(w, m, j);
      SlotViews(f, w[j], m[j]);
    } else {
      NoRecord(f, DefaultSlot(f));
    }
  }

  lemma NoRecord(f: Field, slot: Slot)
    ensures Fold(f, slot, []) == Some(slot)
  {
  }

  lemma {:induction false} SlotLength(w: seq<Field>, m: seq<Slot>, j: nat)
    requires GoodDesc(w) && TypedMsg(w, m) && j < |w|
    ensures TypedSlot(w[j], m[j]) && GoodField(w[j]) && |EncSlot(w[j], m[j])| <= |EncMsg(w, m)|
  {
    hide EncSlot;
    assert TypedSlot(w[j], m[j]) && GoodField(w[j]);
    assert TypedSlot(w[0], m[0]) && GoodField(w[0]);
    TailTyped(w, m);
    if j > 0 {
      SlotLength(w[1..], m[1..], j - 1);
    }
  }

  lemma CompatibleAt(d: seq<Field>, w: seq<Field>, k: nat)
    requires Compatible(d, w) && k < |d|
    ensures forall j :: 0 <= j < |w| && w[j].tag == d[k].tag ==> Reads(d[k], w[j])
  {
  }

  lemma CompatibleTail(d: seq<Field>, w: seq<Field>)
    requires Compatible(d, w) && d != []
    ensures Compatible(d[1..], w)
  {
    forall i, j | 0 <= i < |d[1..]| && 0 <= j < |w| && d[1..][i].tag == w[j].tag
      ensures Reads(d[1..][i], w[j])
    {
      assert Reads(d[i + 1], w[j]);
    }
  }

  lemma {:induction false} ViewAt(d: seq<Field>, w: seq<Field>, m: seq<Slot>, k: nat)
    requires Compatible(d, w) && TypedMsg(w, m) && k < |d|
    ensures forall j :: 0 <= j < |w| && w[j].tag == d[k].tag ==> Reads(d[k], w[j])
    ensures View(d, w, m)[k] == ViewField(d[k], w, m)
    decreases |d|
  {
    hide Reads, ViewField, TypedMsg;
    CompatibleAt(d, w, k);
    CompatibleTail(d, w);
    if k > 0 {
      ViewAt(d[1..], w, m, k - 1);
    }
  }

  /** A field of the reader has a record in the encoding if it is required and the writer has it. */
  lemma RequiredSent(f: Field, w: seq<Field>, m: seq<Slot>)
    requires GoodDesc(w) && TypedMsg(w, m) && |EncMsg(w, m)| < TWO_32 && f.rule.Required?
    requires forall j :: 0 <= j < |w| && w[j].tag == f.tag ==> Reads(f, w[j])
    ensures Has(MsgRecords(w, m), f.tag) <==> exists j :: 0 <= j < |w| && w[j].tag == f.tag
  {
    hide Has, MsgRecords, EncMsg;
    MsgOf(w, m, f.tag);
    OfHas(MsgRecords(w, m), f.tag);
    var j := Find(w, f.tag);
    if j < |w| {
      assert Reads(f, w[j]);
    }
  }

  /** An encoding has no record with the tag zero. */
  lemma NoneZero(w: seq<Field>, m: seq<Slot>)
    requires GoodDesc(w) && TypedMsg(w, m) && |EncMsg(w, m)| < TWO_32
    ensures AllRecords(MsgRecords(w, m)) && NoZeroTag(MsgRecords(w, m))
  {
    hide MsgRecords, EncMsg, TagOf, IsRecord;
    MsgOf(w, m, 0);
    OfHas(MsgRecords(w, m), 0);
    assert forall j :: 0 <= j < |w| ==> GoodField(w[j]);
  }

  /** A reader decodes what a writer of another version encoded exactly if that has the reader's required fields,
      and then gets the part it knows: fields that only the writer has are passed over, fields that only the
      reader has keep their defaults, at every depth. */
  lemma {:induction false} PeersUnderstand(d: seq<Field>, w: seq<Field>, m: seq<Slot>)
    requires GoodDesc(d) && GoodDesc(w) && Compatible(d, w) && TypedMsg(w, m) && StorableMsg(w, m)
    requires |EncMsg(w, m)| < TWO_32
    ensures Decode(d, EncMsg(w, m)) == if Serves(d, w, m) then Some(View(d, w, m)) else None
    decreases d
  {
    hide MsgRecords, EncMsg, Fold, Reads, ViewField, ServesField, View, GoodField;
    hide DecLoop, Has, Tested, AllRecords, NoZeroTag, Joined;
    var us := MsgRecords(w, m);
    var st := State(Default(d), {});
    JoinedMsg(w, m);
    NoneZero(w, m);
    FieldByField(d, st, us);
    forall k | 0 <= k < |d|
      ensures forall j :: 0 <= j < |w| && w[j].tag == d[k].tag ==> Reads(d[k], w[j])
      ensures Fold(d[k], Default(d)[k], us) == if ServesField(d[k], w, m) then Some(View(d, w, m)[k]) else None
      ensures Tested(d, k) ==> (Has(us, d[k].tag) <==> exists j :: 0 <= j < |w| && w[j].tag == d[k].tag)
    {
      assert GoodField(d[k]);
      CompatibleAt(d, w, k);
      DefaultAt(d, k);
      FieldViews(d[k], w, m);
      ViewAt(d, w, m, k);
      if Tested(d, k) {
        TestedRequired(d, k);
        RequiredSent(d[k], w, m);
      }
    }
    if AllFold(d, Default(d), us) {
      RequiredFieldsDecide(d, Default(d), us);
      FoldedOnce(d, Default(d), us, DecLoop(d, st, EncMsg(w, m)).value.m, View(d, w, m));
    }
  }

  lemma TestedRequired(d: seq<Field>, k: nat)
    requires k < |d| && Tested(d, k)
    ensures d[k].rule.Required?
  {
  }

  // ----- one field more in the middle -----

  /** The record of any value of any type is unknown to a descriptor without its tag. */
  lemma RecordIsUnknown(d: seq<Field>, f: Field, v: Value)
    requires GoodField(f) && TypedValue(f, v) && |EncValue(f, v)| < TWO_32
    requires forall i :: 0 <= i < |d| ==> d[i].tag != f.tag
    ensures Unknown(d, Record(f, v))
  {
    hide TagOf, EncValue, Record;
    RecordIs(f, v);
  }

  lemma {:induction false} ForeignSkipped(d: seq<Field>, st: State, tag: nat, us: seq<seq<byte>>, rest: seq<byte>)
    requires AllTagged(us, tag) && tag != 0 && forall i :: 0 <= i < |d| ==> d[i].tag != tag
    ensures DecLoop(d, st, Joined(us) + rest) == DecLoop(d, st, rest)
    decreases |us|
  {
    hide IsRecord, TagOf;
    if us == [] {
      assert [] + rest == rest;
    } else {
      var more := Joined(us[1..]) + rest;
      UnknownIsSkipped(d, st, us[0]);
      LoopConcat(d, st, us[0], more);
      Associate(us[0], Joined(us[1..]), rest);
      ForeignSkipped(d, st, tag, us[1..], rest);
    }
  }

  /** What a newer peer sends in a field that the descriptor lacks, whatever its type, rule and contents, changes
      nothing between any records. */
  lemma ForeignFieldIgnored(d: seq<Field>, m: seq<Slot>, a: seq<byte>, f: Field, s: Slot, b: seq<byte>)
    requires GoodField(f) && TypedSlot(f, s) && |EncSlot(f, s)| < TWO_32
    requires forall i :: 0 <= i < |d| ==> d[i].tag != f.tag
    requires DecLoop(d, State(m, {}), a).Some?
    ensures DecInner(d, m, a + EncSlot(f, s) + b) == DecInner(d, m, a + b)
  {
    hide EncSlot, DecLoop, SlotRecords, Joined, AllTagged;
    var st := State(m, {});
    SlotTagged(f, s);
    JoinedSlot(f, s);
    ForeignSkipped(d, DecLoop(d, st, a).value, f.tag, SlotRecords(f, s), b);
    LoopConcat(d, st, a, EncSlot(f, s) + b);
    LoopConcat(d, st, a, b);
    Associate(a, EncSlot(f, s), b);
  }
}
