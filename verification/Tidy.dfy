/** When the round trip returns the very struct that was encoded, and what it loses otherwise. */
module Tidy {
  import opened Varint
  import opened Schema
  import opened Codec
  import opened RoundTrip

  predicate TidyValue(f: Field, v: Value)
    decreases f, 0
  {
    f.ltype.Submessage? && v.Struct? ==> TidyMsg(f.sub, v.slots)
  }

  predicate TidySlot(f: Field, s: Slot)
    decreases f, 1
  {
    match s
    case One(v) => TidyValue(f, v)
    case Maybe(has, v) => if has then TidyValue(f, v) else v == DefaultValue(f)
    case Many(vs) => forall i :: 0 <= i < |vs| ==> TidyValue(f, vs[i])
  }

  /** Behind every absent optional field, at any depth, is the default. */
  predicate TidyMsg(d: seq<Field>, m: seq<Slot>)
    decreases d
  {
    |m| == |d| && forall i :: 0 <= i < |d| ==> TidySlot(d[i], m[i])
  }

  lemma {:induction false} CleanAt(d: seq<Field>, m: seq<Slot>, i: nat)
    requires TypedMsg(d, m) && i < |d|
    ensures CleanMsg(d, m)[i] == CleanSlot(d[i], m[i])
  {
    if i > 0 {
      CleanAt(d[1..], m[1..], i - 1);
    }
  }

  lemma {:induction false} CleanAllAt(f: Field, vs: seq<Value>, i: nat)
    requires i < |vs| && forall j :: 0 <= j < |vs| ==> TypedValue(f, vs[j])
    ensures CleanAll(f, vs)[i] == CleanValue(f, vs[i])
  {
    if i > 0 {
      CleanAllAt(f, vs[1..], i - 1);
    }
  }

  lemma {:induction false} CleanIsIdentity(d: seq<Field>, m: seq<Slot>)
    requires TypedMsg(d, m)
    ensures CleanMsg(d, m) == m <==> TidyMsg(d, m)
    decreases d, 0
  {
    forall i | 0 <= i < |d|
      ensures CleanMsg(d, m)[i] == m[i] <==> TidySlot(d[i], m[i])
    {
      CleanAt(d, m, i);
      SlotIsIdentity(d[i], m[i]);
    }
    if CleanMsg(d, m) != m {
      var i :| 0 <= i < |d| && CleanMsg(d, m)[i] != m[i];
      assert !TidySlot(d[i], m[i]);
    }
  }

  lemma {:induction false} SlotIsIdentity(f: Field, s: Slot)
    requires TypedSlot(f, s)
    ensures CleanSlot(f, s) == s <==> TidySlot(f, s)
    decreases f, 1
  {
    match s
    case One(v) => ValueIsIdentity(f, v);
    case Maybe(_, v) => ValueIsIdentity(f, v);
    case Many(vs) =>
      var c := CleanAll(f, vs);
      forall i | 0 <= i < |vs|
        ensures c[i] == vs[i] <==> TidyValue(f, vs[i])
      {
        CleanAllAt(f, vs, i);
        ValueIsIdentity(f, vs[i]);
      }
      if c != vs {
        var i :| 0 <= i < |vs| && c[i] != vs[i];
        assert !TidyValue(f, vs[i]);
      }
  }

  lemma {:induction false} ValueIsIdentity(f: Field, v: Value)
    requires TypedValue(f, v)
    ensures CleanValue(f, v) == v <==> TidyValue(f, v)
    decreases f, 0
  {
    if f.ltype.Submessage? {
      CleanIsIdentity(f.sub, v.slots);
    }
  }

  /** The decoded struct equals the encoded one exactly if nothing but defaults was behind the absent
      optional fields. */
  lemma RoundTripIsExact(d: seq<Field>, m: seq<Slot>)
    requires GoodDesc(d) && TypedMsg(d, m) && StorableMsg(d, m) && |EncMsg(d, m)| < TWO_32
    ensures Decode(d, EncMsg(d, m)) == Some(m) <==> TidyMsg(d, m)
  {
    DecodeInvertsEncode(d, m);
    CleanIsIdentity(d, m);
  }

  // ----- nothing that is sent is lost -----

  lemma {:induction false} CleanEncodes(d: seq<Field>, m: seq<Slot>)
    requires GoodDesc(d) && TypedMsg(d, m)
    ensures TypedMsg(d, CleanMsg(d, m)) && EncMsg(d, CleanMsg(d, m)) == EncMsg(d, m)
    decreases d, 4
  {
    CleanTyped(d, m);
    if d != [] {
      var c := CleanMsg(d, m);
      assert c[0] == CleanSlot(d[0], m[0]) && GoodField(d[0]) && TypedSlot(d[0], m[0]) && TypedSlot(d[0], c[0]);
      SlotEncodes(d[0], m[0]);
      TailTyped(d, m);
      CleanEncodes(d[1..], m[1..]);
      assert CleanMsg(d, m)[1..] == CleanMsg(d[1..], m[1..]);
    }
  }

  lemma {:induction false} SlotEncodes(f: Field, s: Slot)
    requires GoodField(f) && TypedSlot(f, s) && TypedSlot(f, CleanSlot(f, s))
    ensures EncSlot(f, CleanSlot(f, s)) == EncSlot(f, s)
    decreases f, 3
  {
    match s
    case One(v) => ValueEncodes(f, v);
    case Maybe(has, v) => ValueEncodes(f, v);
    case Many(vs) =>
      if Packable(f.ltype) {
        CleanScalars(f, vs);
      } else {
        EachEncodes(f, vs);
      }
  }

  lemma {:induction false} EachEncodes(f: Field, vs: seq<Value>)
    requires GoodField(f) && forall i :: 0 <= i < |vs| ==> TypedValue(f, vs[i])
    requires forall i :: 0 <= i < |vs| ==> TypedValue(f, CleanAll(f, vs)[i])
    ensures EncEach(f, CleanAll(f, vs)) == EncEach(f, vs)
    decreases f, 2, |vs|
  {
    if vs != [] {
      ValueEncodes(f, vs[0]);
      assert CleanAll(f, vs)[1..] == CleanAll(f, vs[1..]);
      EachEncodes(f, vs[1..]);
    }
  }

  lemma {:induction false} ValueEncodes(f: Field, v: Value)
    requires GoodField(f) && TypedValue(f, v)
    ensures TypedValue(f, CleanValue(f, v)) && EncValue(f, CleanValue(f, v)) == EncValue(f, v)
    decreases f, 1
  {
    CleanValueTyped(f, v);
    if f.ltype.Submessage? {
      CleanEncodes(f.sub, v.slots);
    }
  }
}
