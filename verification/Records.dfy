/** A message as the list of its records. Where one record ends and the next begins is decided by the
    bytes alone, not by the descriptor; what the decoder makes of the list is decided field by field. */
module Records {
  import opened Varint
  import opened Schema
  import opened Codec
  import opened CodecLaws

  predicate AllRecords(us: seq<seq<byte>>) {
    forall i :: 0 <= i < |us| ==> IsRecord(us[i])
  }

  function Joined(us: seq<seq<byte>>): seq<byte> {
    if us == [] then [] else us[0] + Joined(us[1..])
  }

  // ----- accepted bytes are a list of records, in one way -----

  lemma ValueIsPayload(f: Field, cur: Value, s: seq<byte>)
    requires DecValue(f, cur, s).Got?
    ensures Payload(WireType(f.ltype), s[..DecValue(f, cur, s).used])
  {
    match f.ltype
    case Bool | Signed | Unsigned | ZigZagged => VarintIsPayload(s);
    case Fixed32 =>
    case Fixed64 =>
    case Bytes | String | FixedBytes | Submessage => StringIsPayload(s);
  }

  lemma SlotIsPayload(f: Field, wt: nat, slot: Slot, s: seq<byte>)
    requires DecSlot(f, wt, slot, s).Got?
    ensures Payload(wt, s[..DecSlot(f, wt, slot, s).used])
  {
    if f.rule.Repeated? && wt == PB_WT_STRING && Packable(f.ltype) {
      StringIsPayload(s);
    } else {
      match slot
      case One(cur) => ValueIsPayload(f, cur, s);
      case Maybe(_, cur) => ValueIsPayload(f, cur, s);
      case Many(_) => ValueIsPayload(f, DefaultValue(f), s);
    }
  }

  lemma RecordIsPayload(d: seq<Field>, st: State, tag: nat, wt: nat, s: seq<byte>)
    requires DecRecord(d, st, tag, wt, s).Got?
    ensures tag != 0 && Payload(wt, s[..DecRecord(d, st, tag, wt, s).used])
  {
    hide DecSlot, Payload;
    var k := Find(d, tag);
    if k < |d| {
      assert DecRecord(d, st, tag, wt, s) == DecKnown(d, st, k, wt, s);
      SlotIsPayload(d[k], wt, st.m[k], s);
    } else {
      SkipIsPayload(wt, s);
    }
  }

  lemma KeyOfPrefix(s: seq<byte>, k: nat)
    requires DecTag(s).Got? && DecTag(s).used <= k <= |s|
    ensures var n, u := DecTag(s).used, s[..k];
            Decode32(u).Got? && (TagOf(u), TypeOf(u)) == DecTag(s).value && BodyOf(u) == s[n..][..k - n]
  {
    Decode32Prefix(s, k);
    hide Decode32;
    assert s[..k][DecTag(s).used..] == s[DecTag(s).used..][..k - DecTag(s).used];
  }

  /** The decoder consumes one record at a time, whether it knows the field or not. */
  lemma OneIsRecord(d: seq<Field>, st: State, s: seq<byte>)
    requires DecOne(d, st, s).Got?
    ensures var u := s[..DecOne(d, st, s).used]; IsRecord(u) && TagOf(u) != 0
  {
    hide DecTag, DecRecord, Payload, Decode32, TagOf, TypeOf, BodyOf;
    var Got((tag, wt), n) := DecTag(s);
    var r := DecRecord(d, st, tag, wt, s[n..]);
    assert r.Got?;
    RecordIsPayload(d, st, tag, wt, s[n..]);
    KeyOfPrefix(s, n + r.used);
  }

  /** Whatever is accepted is a list of records. */
  lemma {:induction false} Cut(d: seq<Field>, st: State, s: seq<byte>) returns (us: seq<seq<byte>>)
    requires DecLoop(d, st, s).Some?
    ensures AllRecords(us) && Joined(us) == s
    decreases |s|
  {
    hide DecOne, IsRecord;
    if s == [] {
      us := [];
    } else {
      OneIsRecord(d, st, s);
      var Got(st', n) := DecOne(d, st, s);
      var rest := Cut(d, st', s[n..]);
      us := [s[..n]] + rest;
      assert us[1..] == rest;
      assert s[..n] + s[n..] == s;
    }
  }

  /** The front of a string that begins with a record. */
  lemma RecordFront(u: seq<byte>, rest: seq<byte>)
    requires IsRecord(u)
    ensures var n := |u| - |BodyOf(u)|;
            0 < n <= |u| && DecTag(u + rest) == Got((TagOf(u), TypeOf(u)), n) && (u + rest)[n..] == BodyOf(u) + rest
    ensures Skip(TypeOf(u), BodyOf(u) + rest) == Got((), |BodyOf(u)|)
  {
    Decode32Extends(u, rest);
    var n := Decode32(u).used;
    assert (u + rest)[n..] == BodyOf(u) + rest;
    PayloadSkips(TypeOf(u), BodyOf(u), rest);
  }

  /** No string begins with two records. */
  lemma OneFront(u: seq<byte>, a: seq<byte>, v: seq<byte>, b: seq<byte>)
    requires IsRecord(u) && IsRecord(v) && u + a == v + b
    ensures u == v && a == b
  {
    RecordFront(u, a);
    RecordFront(v, b);
    hide IsRecord, TagOf, TypeOf, BodyOf, DecTag, Skip;
    assert |u| == |v|;
    TakePrefix(u, a);
    TakePrefix(v, b);
  }

  lemma JoinedEmpty(us: seq<seq<byte>>)
    requires AllRecords(us)
    ensures Joined(us) == [] <==> us == []
  {
    assert us != [] ==> IsRecord(us[0]) && us[0] != [];
  }

  /** No bytes are two lists of records. */
  lemma {:induction false} CutUnique(us: seq<seq<byte>>, vs: seq<seq<byte>>)
    requires AllRecords(us) && AllRecords(vs) && Joined(us) == Joined(vs)
    ensures us == vs
    decreases |us|
  {
    hide IsRecord;
    if us == [] {
      JoinedEmpty(vs);
    } else if vs == [] {
      JoinedEmpty(us);
    } else {
      OneFront(us[0], Joined(us[1..]), vs[0], Joined(vs[1..]));
      CutUnique(us[1..], vs[1..]);
    }
  }

  // ----- one record decides by itself -----

  lemma VarintDecides(p: seq<byte>, rest: seq<byte>)
    requires Payload(0, p)
    ensures Decode64(p + rest) == Decode64(p) && Decode32(p + rest) == Decode32(p)
    ensures Decode64(p).Got? ==> Decode64(p).used == |p|
    ensures Decode32(p).Got? ==> Decode32(p).used == |p|
  {
    RunIs(p, |p| - 1, rest);
    RunIs(p, |p| - 1, []);
    assert p + [] == p;
    assert (p + rest)[..|p|] == p == p[..|p|];
    if |p| >= 5 {
      assert (p + rest)[..5] == p[..5];
    }
  }

  lemma StringDecides(p: seq<byte>, rest: seq<byte>)
    requires Payload(2, p)
    ensures DecString(p + rest) == DecString(p) && DecString(p).Got? && DecString(p).used == |p|
  {
    DecStringExtends(p, rest);
  }

  lemma ScalarDecides(f: Field, p: seq<byte>, rest: seq<byte>)
    requires Payload(WireType(f.ltype), p) && !f.ltype.Submessage?
    ensures DecScalar(f, p + rest) == DecScalar(f, p)
    ensures DecScalar(f, p).Got? ==> DecScalar(f, p).used == |p|
  {
    match f.ltype
    case Bool | Signed | Unsigned | ZigZagged => VarintDecides(p, rest);
    case Fixed32 => assert (p + rest)[..4] == p[..4];
    case Fixed64 => assert (p + rest)[..8] == p[..8];
    case Bytes | String | FixedBytes => DecStringExtends(p, rest);
  }

  lemma ValueDecides(f: Field, cur: Value, p: seq<byte>, rest: seq<byte>)
    requires Payload(WireType(f.ltype), p)
    ensures DecValue(f, cur, p + rest) == DecValue(f, cur, p)
    ensures DecValue(f, cur, p).Got? ==> DecValue(f, cur, p).used == |p|
  {
    if f.ltype.Submessage? {
      DecStringExtends(p, rest);
    } else {
      ScalarDecides(f, p, rest);
    }
  }

  /** What follows a payload does not matter, whether it is accepted or not. */
  lemma SlotDecides(f: Field, wt: nat, slot: Slot, p: seq<byte>, rest: seq<byte>)
    requires Payload(wt, p)
    ensures DecSlot(f, wt, slot, p + rest) == DecSlot(f, wt, slot, p)
    ensures DecSlot(f, wt, slot, p).Got? ==> DecSlot(f, wt, slot, p).used == |p|
  {
    hide DecValue, DecPacked, DecString, Decode32;
    if f.rule.Repeated? && wt == PB_WT_STRING && Packable(f.ltype) {
      StringDecides(p, rest);
    } else if wt == WireType(f.ltype) {
      match slot
      case One(cur) => ValueDecides(f, cur, p, rest);
      case Maybe(_, cur) => ValueDecides(f, cur, p, rest);
      case Many(_) => ValueDecides(f, DefaultValue(f), p, rest);
    }
  }

  /** What a record of the field's own makes of its slot. */
  function Step(f: Field, slot: Slot, u: seq<byte>): Option<Slot> {
    match DecSlot(f, TypeOf(u), slot, BodyOf(u))
    case Fail => None
    case Got(x, _) => Some(x)
  }

  /** One pass of the decoder at a record: it rejects the tag 0, gives a known field's record to that field, and
      passes over any other. */
  lemma RecordOne(d: seq<Field>, st: State, u: seq<byte>, rest: seq<byte>)
    requires IsRecord(u) && |st.m| == |d|
    ensures var k := Find(d, TagOf(u));
            DecOne(d, st, u + rest) ==
            if TagOf(u) == 0 then Fail
            else if k == |d| then Got(st, |u|)
            else match Step(d[k], st.m[k], u)
                 case None => Fail
                 case Some(x) => Got(State(st.m[k := x], Mark(d, k, st.seen)), |u|)
  {
    hide DecSlot, Skip, IsRecord, TagOf, TypeOf, BodyOf, DecTag, Mark;
    var k := Find(d, TagOf(u));
    RecordFront(u, rest);
    var body := BodyOf(u) + rest;
    if TagOf(u) != 0 && k < |d| {
      PayloadOf(u);
      SlotDecides(d[k], TypeOf(u), st.m[k], BodyOf(u), rest);
      assert DecRecord(d, st, TagOf(u), TypeOf(u), body) == DecKnown(d, st, k, TypeOf(u), body);
    } else {
      assert DecRecord(d, st, TagOf(u), TypeOf(u), body) == if TagOf(u) == 0 then Fail else Got(st, |BodyOf(u)|);
    }
  }

  lemma PayloadOf(u: seq<byte>)
    requires IsRecord(u)
    ensures Payload(TypeOf(u), BodyOf(u)) && |BodyOf(u)| < |u|
  {
  }

  /** The loop at a record. */
  lemma LoopRecord(d: seq<Field>, st: State, u: seq<byte>, rest: seq<byte>)
    requires IsRecord(u) && |st.m| == |d|
    ensures var k := Find(d, TagOf(u));
            DecLoop(d, st, u + rest) ==
            if TagOf(u) == 0 then None
            else if k == |d| then DecLoop(d, st, rest)
            else match Step(d[k], st.m[k], u)
                 case None => None
                 case Some(x) => DecLoop(d, State(st.m[k := x], Mark(d, k, st.seen)), rest)
  {
    hide DecOne, IsRecord, TagOf, Step, Mark;
    PayloadOf(u);
    RecordOne(d, st, u, rest);
    assert (u + rest)[|u|..] == rest;
  }

  // ----- field by field -----

  /** What the records of a field, among others, make of its slot. */
  function Fold(f: Field, slot: Slot, us: seq<seq<byte>>): Option<Slot>
    decreases |us|
  {
    if us == [] then Some(slot)
    else if TagOf(us[0]) != f.tag then Fold(f, slot, us[1..])
    else match Step(f, slot, us[0])
         case None => None
         case Some(x) => Fold(f, x, us[1..])
  }

  predicate NoZeroTag(us: seq<seq<byte>>) {
    forall i :: 0 <= i < |us| ==> TagOf(us[i]) != 0
  }

  predicate AllFold(d: seq<Field>, m: seq<Slot>, us: seq<seq<byte>>)
    requires |m| == |d|
  {
    forall k :: 0 <= k < |d| ==> Fold(d[k], m[k], us).Some?
  }

  predicate Folded(d: seq<Field>, m: seq<Slot>, us: seq<seq<byte>>, r: seq<Slot>)
    requires |m| == |d|
  {
    |r| == |d| && forall k :: 0 <= k < |d| ==> Fold(d[k], m[k], us) == Some(r[k])
  }

  lemma FoldsHead(d: seq<Field>, m: seq<Slot>, us: seq<seq<byte>>, k: nat)
    requires GoodDesc(d) && |m| == |d| && us != [] && k < |d| && TagOf(us[0]) == d[k].tag
    ensures Step(d[k], m[k], us[0]).None? ==> !AllFold(d, m, us)
    ensures Step(d[k], m[k], us[0]).Some? ==>
              var m' := m[k := Step(d[k], m[k], us[0]).value];
              (AllFold(d, m, us) <==> AllFold(d, m', us[1..])) && forall r :: Folded(d, m, us, r) <==> Folded(d, m', us[1..], r)
  {
    hide Step, TagOf;
    var x := Step(d[k], m[k], us[0]);
    if x.None? {
      assert Fold(d[k], m[k], us).None?;
    } else {
      var m' := m[k := x.value];
      forall i | 0 <= i < |d|
        ensures Fold(d[i], m[i], us) == Fold(d[i], m'[i], us[1..])
      {
        assert i != k ==> d[i].tag != d[k].tag;
      }
    }
  }

  lemma FoldsOther(d: seq<Field>, m: seq<Slot>, us: seq<seq<byte>>)
    requires |m| == |d| && us != [] && forall k :: 0 <= k < |d| ==> d[k].tag != TagOf(us[0])
    ensures AllFold(d, m, us) <==> AllFold(d, m, us[1..])
    ensures forall r :: Folded(d, m, us, r) <==> Folded(d, m, us[1..], r)
  {
    hide TagOf;
    forall i | 0 <= i < |d|
      ensures Fold(d[i], m[i], us) == Fold(d[i], m[i], us[1..])
    {
    }
  }

  lemma NoRecords(d: seq<Field>, m: seq<Slot>)
    requires |m| == |d|
    ensures AllFold(d, m, []) && Folded(d, m, [], m)
  {
  }

  lemma NoZeroTail(us: seq<seq<byte>>)
    requires us != []
    ensures NoZeroTag(us) <==> TagOf(us[0]) != 0 && NoZeroTag(us[1..])
    ensures AllRecords(us) ==> IsRecord(us[0]) && AllRecords(us[1..])
  {
    hide TagOf, IsRecord;
    if TagOf(us[0]) != 0 && NoZeroTag(us[1..]) {
      forall i | 0 <= i < |us|
        ensures TagOf(us[i]) != 0
      {
        assert i > 0 ==> us[i] == us[1..][i - 1];
      }
    }
  }

  /** A list of records is accepted exactly if no tag is zero and every field accepts its own records; each
      field ends up with what its own records make of it, whatever is between them. */
  lemma {:induction false} FieldByField(d: seq<Field>, st: State, us: seq<seq<byte>>)
    requires GoodDesc(d) && |st.m| == |d| && AllRecords(us)
    ensures DecLoop(d, st, Joined(us)).Some? <==> NoZeroTag(us) && AllFold(d, st.m, us)
    ensures DecLoop(d, st, Joined(us)).Some? ==> Folded(d, st.m, us, DecLoop(d, st, Joined(us)).value.m)
    decreases |us|
  {
    if us == [] {
      NoRecords(d, st.m);
    } else {
      hide Step, AllFold, Folded, IsRecord, TagOf, NoZeroTag, AllRecords, DecOne, Mark;
      var rest := us[1..];
      NoZeroTail(us);
      LoopRecord(d, st, us[0], Joined(rest));
      var k := Find(d, TagOf(us[0]));
      if k == |d| {
        FoldsOther(d, st.m, us);
        FieldByField(d, st, rest);
      } else {
        FoldsHead(d, st.m, us, k);
        var x := Step(d[k], st.m[k], us[0]);
        if x.Some? {
          FieldByField(d, State(st.m[k := x.value], Mark(d, k, st.seen)), rest);
        }
      }
    }
  }

  // ----- what a payload must be -----

  /** Only a record of its type's wire type is accepted, or, for a repeated number, one of wire type 2. */
  lemma AcceptedTypes(f: Field, slot: Slot, u: seq<byte>)
    requires Step(f, slot, u).Some?
    ensures match TypeOf(u)
            case 0 => f.ltype.Bool? || f.ltype.Signed? || f.ltype.Unsigned? || f.ltype.ZigZagged?
            case 1 => f.ltype.Fixed64?
            case 2 =>
              f.ltype.Bytes? || f.ltype.String? || f.ltype.Submessage? || f.ltype.FixedBytes? || f.rule.Repeated?
            case 5 => f.ltype.Fixed32?
            case _ => false
  {
    hide DecValue, DecString;
  }

  /** A varint is accepted exactly if its 64 bits mean a number of the field's type, and as that number: itself if
      unsigned, its zigzag inverse, or, if signed, the number with the same bits, of which a field narrower than
      64 bits looks at the low 32. */
  lemma NumberExactly(f: Field, s: seq<byte>, i: int)
    requires GoodSize(f) && (f.ltype.Signed? || f.ltype.Unsigned? || f.ltype.ZigZagged?)
    ensures DecScalar(f, s).Got? && DecScalar(f, s).value == Number(i) <==>
            Decode64(s).Got? && TypedValue(f, Number(i)) &&
            var x := Decode64(s).value;
            match f.ltype
            case Unsigned => i == x
            case Signed => (i - x) % (if f.dataSize == 8 then 0x1_0000_0000_0000_0000 else 0x1_0000_0000) == 0
            case _ => x == if i < 0 then -2 * i - 1 else 2 * i
  {
    hide Decode64;
    Pow256Values();
    if f.ltype.Signed? && Decode64(s).Got? {
      if f.dataSize == 8 {
        Signed64Means(Decode64(s).value, i);
      } else {
        Signed32Means(Decode64(s).value, i);
      }
    }
  }

  /** Two's complement is the number of the same residue in the middle range. */
  lemma Signed64Means(x: nat, i: int)
    ensures -TWO_63 <= i < TWO_63 ==> (ToSigned(x, TWO_64) == i <==> (i - x) % TWO_64 == 0)
  {
  }

  lemma Signed32Means(x: nat, i: int)
    ensures -TWO_31 <= i < TWO_31 ==> (ToSigned(x, TWO_32) == i <==> (i - x) % TWO_32 == 0)
  {
  }

  /** Bytes are accepted exactly if they fit with their two bytes of size. */
  lemma BytesExactly(f: Field, s: seq<byte>)
    requires GoodField(f) && f.ltype.Bytes? && DecString(s).Got?
    ensures DecScalar(f, s) ==
            if |DecString(s).value| + 2 <= f.dataSize then Got(Text(DecString(s).value), DecString(s).used) else Fail
  {
  }

  /** A string is accepted exactly if it fits with its terminator, and ends at its first NUL. */
  lemma StringExactly(f: Field, s: seq<byte>, t: seq<byte>)
    requires f.ltype.String? && DecString(s).Got?
    ensures DecScalar(f, s) == Got(Text(t), DecString(s).used) <==>
            var all := DecString(s).value;
            |all| < f.dataSize && t <= all && 0 !in t && (t == all || all[|t|] == 0)
  {
    hide DecString;
    CStringIs(DecString(s).value, t);
  }

  /** Bytes of a fixed length are accepted exactly if they have it, or are missing, which means zeros. */
  lemma FixedBytesExactly(f: Field, s: seq<byte>, t: seq<byte>)
    requires GoodField(f) && f.ltype.FixedBytes? && DecString(s).Got?
    ensures DecScalar(f, s) == Got(Text(t), DecString(s).used) <==>
            |t| == f.dataSize && (t == DecString(s).value || (DecString(s).value == [] && forall i :: 0 <= i < |t| ==> t[i] == 0))
  {
    hide DecString;
    ZerosAre(t);
  }

  lemma {:induction false} CStringIs(s: seq<byte>, t: seq<byte>)
    ensures t == CString(s) <==> t <= s && 0 !in t && (t == s || s[|t|] == 0)
  {
    if s != [] && s[0] != 0 {
      if t != [] && t[0] == s[0] {
        CStringIs(s[1..], t[1..]);
        assert t == [t[0]] + t[1..] && s == [s[0]] + s[1..];
      }
    }
  }

  lemma {:induction false} ZerosAre(t: seq<byte>)
    ensures t == Zeros(|t|) <==> forall i :: 0 <= i < |t| ==> t[i] == 0
  {
    if t != [] {
      ZerosAre(t[1..]);
      assert t == [t[0]] + t[1..];
      if forall i :: 0 <= i < |t| ==> t[i] == 0 {
        assert forall i :: 0 <= i < |t[1..]| ==> t[1..][i] == t[i + 1] == 0;
      }
    }
  }

  // ----- required fields, by the tags in the bytes -----

  /** The tag is on one of the records. */
  predicate Has(us: seq<seq<byte>>, tag: nat) {
    exists i :: 0 <= i < |us| && TagOf(us[i]) == tag
  }

  /** One of the first 64 required fields. */
  predicate Tested(d: seq<Field>, k: nat)
    requires k < |d|
  {
    d[k].rule.Required? && |set i | 0 <= i < k && d[i].rule.Required?| < 64
  }

  lemma {:induction false} RequiredCount(d: seq<Field>, k: nat)
    requires k <= |d|
    ensures RequiredBefore(d, k) == |set i | 0 <= i < k && d[i].rule.Required?|
  {
    if k > 0 {
      RequiredCount(d, k - 1);
      var a, b := set i | 0 <= i < k - 1 && d[i].rule.Required?, set i | 0 <= i < k && d[i].rule.Required?;
      if d[k - 1].rule.Required? {
        assert b == a + {k - 1};
      } else {
        assert b == a;
      }
    }
  }

  /** The r-th required field is tested and has a record. */
  predicate Marked(d: seq<Field>, us: seq<seq<byte>>, r: nat) {
    exists k :: 0 <= k < |d| && d[k].rule.Required? && RequiredBefore(d, k) == r && r < 64 && Has(us, d[k].tag)
  }

  lemma HasHead(us: seq<seq<byte>>, tag: nat)
    requires us != []
    ensures Has(us, tag) <==> TagOf(us[0]) == tag || Has(us[1..], tag)
  {
    hide TagOf;
    if Has(us[1..], tag) {
      var i :| 0 <= i < |us[1..]| && TagOf(us[1..][i]) == tag;
      assert TagOf(us[i + 1]) == tag;
    }
    if Has(us, tag) && TagOf(us[0]) != tag {
      var i :| 0 <= i < |us| && TagOf(us[i]) == tag;
      assert TagOf(us[1..][i - 1]) == tag;
    }
  }

  lemma MarkedFound(d: seq<Field>, us: seq<seq<byte>>, k: nat, r: nat)
    requires GoodDesc(d) && us != [] && k < |d| && TagOf(us[0]) == d[k].tag
    ensures Marked(d, us, r) <==> Marked(d, us[1..], r) || (d[k].rule.Required? && RequiredBefore(d, k) == r && r < 64)
  {
    hide TagOf, Has;
    forall i | 0 <= i < |d|
      ensures Has(us, d[i].tag) <==> i == k || Has(us[1..], d[i].tag)
    {
      HasHead(us, d[i].tag);
      assert i != k ==> d[i].tag != d[k].tag;
    }
  }

  lemma MarkedOther(d: seq<Field>, us: seq<seq<byte>>, r: nat)
    requires us != [] && forall k :: 0 <= k < |d| ==> d[k].tag != TagOf(us[0])
    ensures Marked(d, us, r) <==> Marked(d, us[1..], r)
  {
    hide TagOf, Has;
    forall k | 0 <= k < |d|
      ensures Has(us, d[k].tag) <==> Has(us[1..], d[k].tag)
    {
      HasHead(us, d[k].tag);
    }
  }

  lemma MarkAdds(d: seq<Field>, k: nat, seen: set<nat>, r: nat)
    requires k < |d|
    ensures r in Mark(d, k, seen) <==> r in seen || (d[k].rule.Required? && RequiredBefore(d, k) == r && r < 64)
  {
  }

  lemma NoneMarked(d: seq<Field>, r: nat)
    ensures !Marked(d, [], r)
  {
  }

  lemma {:induction false} LoopMarks(d: seq<Field>, st: State, us: seq<seq<byte>>, r: nat)
    requires GoodDesc(d) && |st.m| == |d| && AllRecords(us) && DecLoop(d, st, Joined(us)).Some?
    ensures r in DecLoop(d, st, Joined(us)).value.seen <==> r in st.seen || Marked(d, us, r)
    decreases |us|
  {
    hide Step, IsRecord, TagOf, AllRecords, NoZeroTag, DecOne, Marked, Mark, RequiredBefore, GoodDesc;
    if us == [] {
      NoneMarked(d, r);
    } else {
      var rest := us[1..];
      NoZeroTail(us);
      LoopRecord(d, st, us[0], Joined(rest));
      var k := Find(d, TagOf(us[0]));
      if k == |d| {
        MarkedOther(d, us, r);
        LoopMarks(d, st, rest, r);
      } else {
        var st' := State(st.m[k := Step(d[k], st.m[k], us[0]).value], Mark(d, k, st.seen));
        MarkedFound(d, us, k, r);
        MarkAdds(d, k, st.seen, r);
        LoopMarks(d, st', rest, r);
      }
    }
  }

  /** Every number below the count of required fields is one field's. */
  lemma {:induction false} RequiredAt(d: seq<Field>, n: nat, r: nat) returns (k: nat)
    requires n <= |d| && r < RequiredBefore(d, n)
    ensures k < n && d[k].rule.Required? && RequiredBefore(d, k) == r
  {
    if RequiredBefore(d, n - 1) > r {
      k := RequiredAt(d, n - 1, r);
    } else {
      k := n - 1;
    }
  }

  lemma {:induction false} RequiredOnce(d: seq<Field>, j: nat, k: nat)
    requires j < |d| && k < |d| && d[j].rule.Required? && d[k].rule.Required? && RequiredBefore(d, j) == RequiredBefore(d, k)
    ensures j == k
  {
    if j < k {
      RequiredGrows(d, j + 1, k);
    } else if k < j {
      RequiredGrows(d, k + 1, j);
    }
  }

  lemma TestedNumber(d: seq<Field>, k: nat)
    requires k < |d|
    ensures Tested(d, k) <==> d[k].rule.Required? && RequiredBefore(d, k) < 64
    ensures d[k].rule.Required? ==> RequiredBefore(d, k) < RequiredBefore(d, |d|)
  {
    RequiredCount(d, k);
    RequiredGrows(d, k + 1, |d|);
  }

  lemma MarkedOne(d: seq<Field>, us: seq<seq<byte>>, k: nat)
    requires k < |d| && d[k].rule.Required? && RequiredBefore(d, k) < 64
    ensures Marked(d, us, RequiredBefore(d, k)) <==> Has(us, d[k].tag)
  {
    hide Has;
    var r := RequiredBefore(d, k);
    if Marked(d, us, r) {
      var j :| 0 <= j < |d| && d[j].rule.Required? && RequiredBefore(d, j) == r && r < 64 && Has(us, d[j].tag);
      RequiredOnce(d, j, k);
    }
  }

  /** The numbers of the required fields that were met, and the fields. */
  lemma MarkedMeans(d: seq<Field>, us: seq<seq<byte>>, seen: set<nat>)
    requires forall r :: r in seen <==> Marked(d, us, r)
    ensures Complete(d, seen) <==> forall k :: 0 <= k < |d| && Tested(d, k) ==> Has(us, d[k].tag)
  {
    hide Has, Tested, Marked;
    if Complete(d, seen) {
      forall k | 0 <= k < |d| && Tested(d, k)
        ensures Has(us, d[k].tag)
      {
        TestedNumber(d, k);
        assert RequiredBefore(d, k) in seen;
        MarkedOne(d, us, k);
      }
    }
    if forall k :: 0 <= k < |d| && Tested(d, k) ==> Has(us, d[k].tag) {
      forall r | 0 <= r < RequiredBefore(d, |d|) && r < 64
        ensures r in seen
      {
        var k := RequiredAt(d, |d|, r);
        TestedNumber(d, k);
        MarkedOne(d, us, k);
      }
    }
  }

  /** If all records are accepted, the message is accepted exactly if each of the first 64 required fields has a
      record. */
  lemma RequiredFieldsDecide(d: seq<Field>, m: seq<Slot>, us: seq<seq<byte>>)
    requires GoodDesc(d) && |m| == |d| && AllRecords(us) && DecLoop(d, State(m, {}), Joined(us)).Some?
    ensures DecInner(d, m, Joined(us)).Some? <==> forall k :: 0 <= k < |d| && Tested(d, k) ==> Has(us, d[k].tag)
  {
    hide DecLoop, Has, AllRecords, Joined, GoodDesc, Tested, Marked;
    var seen := DecLoop(d, State(m, {}), Joined(us)).value.seen;
    forall r
      ensures r in seen <==> Marked(d, us, r)
    {
      LoopMarks(d, State(m, {}), us, r);
    }
    MarkedMeans(d, us, seen);
  }

  /** Nothing at all is a message exactly if no field is required. */
  lemma NoBytes(d: seq<Field>)
    requires GoodDesc(d)
    ensures Decode(d, []) == if exists k :: 0 <= k < |d| && d[k].rule.Required? then None else Some(Default(d))
  {
    RequiredFieldsDecide(d, Default(d), []);
    if exists k :: 0 <= k < |d| && d[k].rule.Required? {
      FirstRequired(d, |d|);
    }
  }

  lemma {:induction false} FirstRequired(d: seq<Field>, n: nat)
    requires n <= |d| && exists k :: 0 <= k < n && d[k].rule.Required?
    ensures exists k :: 0 <= k < n && Tested(d, k)
  {
    if exists k :: 0 <= k < n - 1 && d[k].rule.Required? {
      FirstRequired(d, n - 1);
    } else {
      assert (set i | 0 <= i < n - 1 && d[i].rule.Required?) == {};
      assert Tested(d, n - 1);
    }
  }

  // ----- only the order of a field's own records matters -----

  /** The records with a tag, in their order. */
  function Of(us: seq<seq<byte>>, tag: nat): seq<seq<byte>> {
    if us == [] then [] else if TagOf(us[0]) == tag then [us[0]] + Of(us[1..], tag) else Of(us[1..], tag)
  }

  lemma {:induction false} OfHas(us: seq<seq<byte>>, tag: nat)
    ensures Of(us, tag) != [] <==> Has(us, tag)
  {
    if us != [] {
      HasHead(us, tag);
      OfHas(us[1..], tag);
    }
  }

  lemma {:induction false} FoldsOwn(f: Field, slot: Slot, us: seq<seq<byte>>)
    ensures Fold(f, slot, us) == Fold(f, slot, Of(us, f.tag))
    decreases |us|
  {
    hide Step, TagOf;
    if us != [] {
      var own := Of(us[1..], f.tag);
      if TagOf(us[0]) == f.tag {
        assert ([us[0]] + own)[1..] == own;
        var x := Step(f, slot, us[0]);
        if x.Some? {
          FoldsOwn(f, x.value, us[1..]);
        }
      } else {
        FoldsOwn(f, slot, us[1..]);
      }
    }
  }

  /** Both lists give every field the same records in the same order. */
  predicate SameForAll(d: seq<Field>, us: seq<seq<byte>>, vs: seq<seq<byte>>) {
    (Has(us, 0) <==> Has(vs, 0)) && forall k :: 0 <= k < |d| ==> Of(us, d[k].tag) == Of(vs, d[k].tag)
  }

  lemma SameAccepted(d: seq<Field>, m: seq<Slot>, us: seq<seq<byte>>, vs: seq<seq<byte>>)
    requires |m| == |d| && SameForAll(d, us, vs)
    ensures NoZeroTag(us) <==> NoZeroTag(vs)
    ensures AllFold(d, m, us) <==> AllFold(d, m, vs)
    ensures forall r :: Folded(d, m, us, r) <==> Folded(d, m, vs, r)
  {
    hide TagOf, Fold, Of;
    forall k | 0 <= k < |d|
      ensures Fold(d[k], m[k], us) == Fold(d[k], m[k], vs)
    {
      FoldsOwn(d[k], m[k], us);
      FoldsOwn(d[k], m[k], vs);
    }
    assert NoZeroTag(us) <==> !Has(us, 0);
    assert NoZeroTag(vs) <==> !Has(vs, 0);
  }

  lemma FoldedOnce(d: seq<Field>, m: seq<Slot>, us: seq<seq<byte>>, r: seq<Slot>, q: seq<Slot>)
    requires |m| == |d| && Folded(d, m, us, r) && Folded(d, m, us, q)
    ensures r == q
  {
    assert forall k :: 0 <= k < |d| ==> Some(r[k]) == Fold(d[k], m[k], us) == Some(q[k]);
  }

  /** Two lists that give every field the same records in the same order decode alike: it does not matter how
      the records of different fields are interleaved, nor what unknown records are between them. */
  lemma OrderBetweenFields(d: seq<Field>, m: seq<Slot>, us: seq<seq<byte>>, vs: seq<seq<byte>>)
    requires GoodDesc(d) && |m| == |d| && AllRecords(us) && AllRecords(vs) && SameForAll(d, us, vs)
    ensures DecInner(d, m, Joined(us)) == DecInner(d, m, Joined(vs))
  {
    var st := State(m, {});
    FieldByField(d, st, us);
    FieldByField(d, st, vs);
    SameAccepted(d, m, us, vs);
    if DecLoop(d, st, Joined(us)).Some? {
      hide DecLoop, AllRecords, NoZeroTag, AllFold, Folded, Complete, Has, Tested;
      FoldedOnce(d, m, us, DecLoop(d, st, Joined(us)).value.m, DecLoop(d, st, Joined(vs)).value.m);
      RequiredFieldsDecide(d, m, us);
      RequiredFieldsDecide(d, m, vs);
      forall k | 0 <= k < |d|
        ensures Has(us, d[k].tag) <==> Has(vs, d[k].tag)
      {
        OfHas(us, d[k].tag);
        OfHas(vs, d[k].tag);
      }
    }
  }
}
