/** pb_decode.c on streams: each method is proved to accept, consume and store exactly what the
    codec's functions say, for every byte string and every struct. */
module Decoder {
  import opened Varint
  import opened Schema
  import opened Codec
  import opened CodecLaws
  import opened InputStream
  import opened FieldTable
  import opened Storage
  import FieldIter

  // ----- defaults -----

  /** submsg_info[0] != NULL. */
  predicate HasSubmessages(d: seq<Field>) {
    exists i :: 0 <= i < |d| && d[i].ltype.Submessage?
  }

  /** pb_message_set_to_defaults for a message type without a default_value stream. */
  method SetToDefaults(d: seq<Field>, dest: seq<Slot>) returns (m: seq<Slot>)
    requires GoodDesc(d) && LaidOut(d) && TypedMsg(d, dest)
    ensures m == Default(d)
    decreases d, 1
  {
    hide Default, Standing, GoodDesc;
    m := dest;
    if d == [] {
      return;
    }
    var iter := StartWalk(d);
    var more := true;
    ghost var done := 0;
    while more
      invariant fresh(iter) && (more ==> Standing(iter, d) == done)
      invariant if more then done < |d| else done == |d|
      invariant m == Default(d)[..done] + dest[done..]
      decreases |d| - done
    {
      var k := IndexOf(iter, d);
      OverwriteNext(Default(d), dest, k);
      var slot := SetOneDefault(d, m, k);
      m := m[k := slot];
      more := StepWalk(iter, d);
      done := done + 1;
    }
  }

  lemma OverwriteNext<T>(a: seq<T>, b: seq<T>, k: nat)
    requires k < |a| == |b|
    ensures (a[..k] + b[k..])[k] == b[k]
    ensures (a[..k] + b[k..])[k := a[k]] == a[..k + 1] + b[k + 1..]
  {
  }

  method SetOneDefault(d: seq<Field>, m: seq<Slot>, k: nat) returns (slot: Slot)
    requires GoodDesc(d) && LaidOut(d) && k < |d| == |m| && TypedSlot(d[k], m[k])
    ensures slot == Default(d)[k]
    decreases d, 0
  {
    LaidIs(d, |d|);
    DefaultAt(d, k);
    slot := SetFieldToDefault(d[k], m[k]);
  }

  /** pb_field_set_to_default: clear the has-flag or the count; the elements of an array stay as they
      are, any other data is initialised. */
  method SetFieldToDefault(f: Field, slot: Slot) returns (slot': Slot)
    requires GoodField(f) && LaidField(f) && TypedSlot(f, slot)
    ensures slot' == DefaultSlot(f)
    decreases f, 2
  {
    match slot
    case One(v) =>
      var w := InitData(f, v);
      slot' := One(w);
    case Maybe(_, v) =>
      var w := InitData(f, v);
      slot' := Maybe(false, w);
    case Many(vs) =>
      slot' := Many(vs[..0]);
  }

  /** A submessage that itself has submessages is walked field by field; any other storage is zeroed, and
      read as what it then holds. */
  method InitData(f: Field, v: Value) returns (w: Value)
    requires GoodField(f) && LaidField(f) && TypedValue(f, v)
    ensures w == DefaultValue(f)
    decreases f, 1
  {
    if f.ltype.Submessage? && HasSubmessages(f.sub) {
      var m := SetToDefaults(f.sub, v.slots);
      w := Struct(m);
    } else {
      var mem := Zeros(f.dataSize);
      ZerosAreZero(f.dataSize);
      ZeroValue(f, mem);
      w := ReadValue(f, mem);
    }
  }

  // ----- scalars -----

  /** A C cast to a signed type of this many bytes. */
  function Truncate(x: int, width: nat): int {
    ToSigned(x % Pow256(width), Pow256(width))
  }

  lemma TruncateBelow(x: int, p: int)
    requires p > 0 && p % 2 == 0
    ensures ToSigned(x % p, p) == x <==> -(p / 2) <= x < p / 2
  {
    Small(x % p, p);
    if -p <= x < 0 {
      Divide(x, p, -1, x + p);
    } else if 0 <= x < p {
      Small(x, p);
    }
  }

  /** The test clamped == value of pb_dec_varint is a range test. */
  lemma TruncateKeeps(x: int, width: nat)
    requires IntegerWidth(width)
    ensures Truncate(x, width) == x <==> SignedFits(x, width)
  {
    Pow256Values();
    TruncateBelow(x, Pow256(width));
  }

  /** The conversions of pb_dec_varint: cast to the width of the field, and compare. */
  method Clamp(f: Field, x: nat) returns (ok: bool, i: int)
    requires f.ltype.Signed? || f.ltype.Unsigned? || f.ltype.ZigZagged?
    ensures ok <==> NumberFits(f, Interpret(f, x))
    ensures ok ==> i == Interpret(f, x)
  {
    if !IntegerWidth(f.dataSize) {
      return false, 0;
    }
    if f.ltype.Unsigned? {
      i := x % Pow256(f.dataSize);
      ok := i == x;
      return;
    }
    var svalue;
    if f.ltype.ZigZagged? {
      svalue := UnZigZag(x);
    } else if f.dataSize == 8 {
      svalue := ToSigned(x, TWO_64);
    } else {
      svalue := ToSigned(x, TWO_32);
    }
    TruncateKeeps(svalue, f.dataSize);
    i := Truncate(svalue, f.dataSize);
    ok := i == svalue;
  }

  /** pb_dec_varint. */
  method DecodeNumber(f: Field, s: IStream) returns (ok: bool, v: Value)
    requires s.Valid() && (f.ltype.Signed? || f.ltype.Unsigned? || f.ltype.ZigZagged?)
    modifies s
    ensures s.Valid() && s.End() == old(s.End())
    ensures Agrees(DecNumber(f, old(s.Rest())), old(s.Rest()), ok, v, s.Rest())
  {
    v := Number(0);
    var x, i;
    ok, x := s.DecodeVarint();
    if ok {
      ok, i := Clamp(f, x);
      v := Number(i);
    }
  }

  lemma TextOutcome(f: Field, all: seq<byte>, size: nat, n: nat, ok: bool, data: seq<byte>, rest: seq<byte>)
    requires Decode32(all) == Got(size, n) && SizeAllowed(f, size) && !(f.ltype.FixedBytes? && size == 0)
    requires ok <==> size <= |all| - n
    requires ok ==> data == all[n..][..size] && rest == all[n..][size..]
    ensures Agrees(DecText(f, all), all, ok, Text(if f.ltype.String? then CString(data) else data), rest)
  {
    if ok {
      assert all[n..][..size] == all[n..n + size] && all[n..][size..] == all[n + size..];
    }
  }

  /** pb_dec_bytes, pb_dec_string and pb_dec_fixed_length_bytes. */
  method DecodeText(f: Field, s: IStream) returns (ok: bool, v: Value)
    requires s.Valid() && (f.ltype.Bytes? || f.ltype.String? || f.ltype.FixedBytes?)
    modifies s
    ensures s.Valid() && s.End() == old(s.End())
    ensures Agrees(DecText(f, old(s.Rest())), old(s.Rest()), ok, v, s.Rest())
  {
    ghost var all := s.Rest();
    v := Text([]);
    var size, eof;
    ok, size, eof := s.DecodeVarint32();
    if ok && f.ltype.FixedBytes? && size == 0 {
      v := Text(Zeros(f.dataSize));
    } else if ok && SizeAllowed(f, size) {
      ghost var n := Decode32(all).used;
      var data;
      ok, data := s.Read(size);
      TextOutcome(f, all, size, n, ok, data, s.Rest());
      v := Text(if f.ltype.String? then CString(data) else data);
    } else {
      ok := false;
    }
  }

  /** decode_basic_field without the submessage case. */
  method DecodeScalar(f: Field, s: IStream) returns (ok: bool, v: Value)
    requires s.Valid() && !f.ltype.Submessage?
    modifies s
    ensures s.Valid() && s.End() == old(s.End())
    ensures Agrees(DecScalar(f, old(s.Rest())), old(s.Rest()), ok, v, s.Rest())
  {
    match f.ltype
    case Bool =>
      var x, eof;
      ok, x, eof := s.DecodeVarint32();
      v := Flag(x != 0);
    case Signed | Unsigned | ZigZagged =>
      ok, v := DecodeNumber(f, s);
    case Fixed32 =>
      var data;
      ok, data := s.Read(4);
      v := Number(FixedDecode(data));
    case Fixed64 =>
      var data;
      ok, data := s.Read(8);
      v := Number(FixedDecode(data));
    case Bytes | String | FixedBytes =>
      ok, v := DecodeText(f, s);
  }

  // ----- fields and messages -----

  /** The value a submessage is decoded into: repeated elements start from defaults. */
  function Target(f: Field, cur: Value): Value {
    if f.rule.Repeated? then DefaultValue(f) else cur
  }

  /** decode_basic_field, with pb_dec_submessage. */
  method DecodeBasic(f: Field, cur: Value, s: IStream) returns (ok: bool, v: Value)
    requires s.Valid() && GoodField(f) && LaidField(f) && TypedValue(f, cur)
    modifies s
    ensures s.Valid() && (ok ==> s.End() == old(s.End()))
    ensures Agrees(DecValue(f, Target(f, cur), old(s.Rest())), old(s.Rest()), ok, v, s.Rest())
    decreases s.bytesLeft, 0
  {
    if !f.ltype.Submessage? {
      ok, v := DecodeScalar(f, s);
      return;
    }
    v := cur;
    ghost var all := s.Rest();
    var sub;
    ok, sub := s.MakeStringSubstream();
    if !ok {
      return;
    }
    var noinit := !f.rule.Repeated?;
    var m;
    ok, m := DecodeInner(sub, f.sub, cur.slots, noinit);
    if !ok {
      return;
    }
    s.CloseStringSubstream(sub);
    v := Struct(m);
    assert s.Rest() == all[DecString(all).used..];
  }

  /** The places of a repeated field: as many as the array has, whatever its count says. */
  method Places(f: Field, have: seq<Value>) returns (items: array<Value>)
    ensures fresh(items) && items.Length == f.arraySize && Keeps(have, items[..])
    ensures |have| <= items.Length ==> items[..|have|] == have
  {
    items := new Value[f.arraySize](i => if 0 <= i < |have| then have[i] else Number(0));
  }

  /** The elements that were there are still there, as far as the array goes. */
  predicate Keeps(have: seq<Value>, stored: seq<Value>) {
    forall i :: 0 <= i < |have| && i < |stored| ==> stored[i] == have[i]
  }

  /** The packed branch of decode_static_field. Every element, also one that turns out bad, is written to
      its place in the array; the count follows the elements also when the branch fails. */
  method DecodePackedArray(f: Field, items: array<Value>, count0: nat, ghost have: seq<Value>, s: IStream)
    returns (ok: bool, count: nat)
    requires s.Valid() && !f.ltype.Submessage? && items.Length == f.arraySize && |have| == count0
    requires count0 <= items.Length ==> items[..count0] == have
    requires Keeps(have, items[..])
    modifies s, items
    ensures ok <==> DecPacked(f, have, old(s.Rest())).Some?
    ensures count == PackedCount(f, count0, old(s.Rest())) && Keeps(have, items[..])
    ensures ok && count0 <= items.Length ==>
              count <= items.Length && Some(items[..count]) == DecPacked(f, have, old(s.Rest()))
    ensures ok && count0 > items.Length ==> count == count0 && Some(have) == DecPacked(f, have, old(s.Rest()))
    ensures s.Valid() && s.End() == old(s.End())
  {
    hide DecScalar;
    count := count0;
    ghost var goal, left, vs := DecPacked(f, have, s.Rest()), PackedCount(f, count0, s.Rest()), have;
    while s.bytesLeft > 0 && count < f.arraySize
      invariant s.Valid() && s.End() == old(s.End())
      invariant |vs| == count && count >= count0 && (count == count0 ==> vs == have)
      invariant count0 <= items.Length ==> count <= items.Length && items[..count] == vs
      invariant Keeps(have, items[..])
      invariant DecPacked(f, vs, s.Rest()) == goal && PackedCount(f, count, s.Rest()) == left
      decreases s.bytesLeft
    {
      var v;
      ghost var before := s.Rest();
      ok, v := DecodeScalar(f, s);
      items[count] := v;
      if !ok {
        return;
      }
      count := count + 1;
      vs := vs + [v];
    }
    ok := s.bytesLeft == 0;
    assert s.bytesLeft == 0 <==> s.Rest() == [];
  }

  /** That branch with its substream. */
  method DecodePackedField(f: Field, have: seq<Value>, s: IStream)
    returns (ok: bool, slot: Slot, count: nat, stored: seq<Value>)
    requires s.Valid() && f.rule.Repeated? && Packable(f.ltype)
    modifies s
    ensures s.Valid() && (ok ==> s.End() == old(s.End()))
    ensures Agrees(DecSlot(f, PB_WT_STRING, Many(have), old(s.Rest())), old(s.Rest()), ok, slot, s.Rest())
    ensures count == CountLeft(f, PB_WT_STRING, |have|, old(s.Rest()))
    ensures |stored| == f.arraySize && Keeps(have, stored)
  {
    hide DecPacked, PackedCount;
    ghost var all := s.Rest();
    slot, count := Many(have), |have|;
    var items := Places(f, have);
    var sub;
    ok, sub := s.MakeStringSubstream();
    if ok {
      ok, count := DecodePackedArray(f, items, count, have, sub);
      if ok {
        s.CloseStringSubstream(sub);
        assert s.Rest() == all[DecString(all).used..];
        slot := Many(if count <= items.Length then items[..count] else have);
      }
    }
    stored := items[..];
  }

  /** decode_static_field. Of a repeated field, `count` is the count it leaves and `stored` the array it
      leaves, also when it fails; an optional field is marked present before anything is tested. */
  method DecodeStatic(f: Field, wireType: nat, slot: Slot, s: IStream)
    returns (ok: bool, slot': Slot, count: nat, stored: seq<Value>)
    requires s.Valid() && GoodField(f) && LaidField(f) && TypedSlot(f, slot)
    modifies s
    ensures s.Valid() && (ok ==> s.End() == old(s.End()))
    ensures Agrees(DecSlot(f, wireType, slot, old(s.Rest())), old(s.Rest()), ok, slot', s.Rest())
    ensures f.rule.Repeated? ==> count == CountLeft(f, wireType, |slot.vs|, old(s.Rest()))
    ensures f.rule.Repeated? ==> |stored| == f.arraySize && Keeps(slot.vs, stored)
    ensures f.rule.Optional? ==> slot'.Maybe? && slot'.has
    decreases s.bytesLeft, 2
  {
    slot', ok, count, stored := slot, false, 0, [];
    if f.rule.Repeated? && wireType == PB_WT_STRING && Packable(f.ltype) {
      ok, slot', count, stored := DecodePackedField(f, slot.vs, s);
    } else if f.rule.Repeated? {
      ok, slot', count, stored := DecodeElement(f, wireType, slot.vs, s);
    } else {
      if slot.Maybe? {
        slot' := slot.(has := true);
      }
      if wireType == WireType(f.ltype) {
        var v;
        ok, v := DecodeBasic(f, slot.v, s);
        slot' := slot'.(v := v);
      }
    }
  }

  /** A repeated field that is not packed: the count goes up before it is tested, and the element is
      written to its place. */
  method DecodeElement(f: Field, wireType: nat, vs: seq<Value>, s: IStream)
    returns (ok: bool, slot: Slot, count: nat, stored: seq<Value>)
    requires s.Valid() && GoodField(f) && LaidField(f) && f.rule.Repeated?
    requires !(wireType == PB_WT_STRING && Packable(f.ltype))
    modifies s
    ensures s.Valid() && (ok ==> s.End() == old(s.End()))
    ensures Agrees(DecSlot(f, wireType, Many(vs), old(s.Rest())), old(s.Rest()), ok, slot, s.Rest())
    ensures count == CountLeft(f, wireType, |vs|, old(s.Rest()))
    ensures |stored| == f.arraySize && Keeps(vs, stored)
    decreases s.bytesLeft, 1
  {
    slot, ok := Many(vs), false;
    var items := Places(f, vs);
    count := (|vs| + 1) % (PB_SIZE_MAX + 1);
    if |vs| < f.arraySize && wireType == WireType(f.ltype) {
      DefaultValueTyped(f);
      var v;
      ok, v := DecodeBasic(f, DefaultValue(f), s);
      items[|vs|] := v;
      slot := Many(items[..|vs| + 1]);
      assert items[..|vs| + 1] == vs + [v];
    }
    stored := items[..];
  }

  // ----- the required fields seen -----

  /** A 32-bit word of fields_seen, lowest bit first. */
  type Word = seq<bool>

  predicate GoodWords(words: seq<Word>) {
    |words| == 2 && |words[0]| == 32 && |words[1]| == 32
  }

  /** The indices whose bits are set. */
  ghost function SeenIn(words: seq<Word>): set<nat>
    requires GoodWords(words)
  {
    set i | 0 <= i < PB_MAX_REQUIRED_FIELDS && words[i / 32][i % 32]
  }

  /** allbits >> (32 - r). */
  function Ones(r: nat): (w: Word)
    requires r <= 32
    ensures |w| == 32 && forall j :: 0 <= j < 32 ==> w[j] == (j < r)
  {
    seq(32, j => j < r)
  }

  /** bitfield[i >> 5] |= 1 << (i & 31). */
  method SetBit(words: seq<Word>, i: nat) returns (words': seq<Word>)
    requires GoodWords(words) && i < PB_MAX_REQUIRED_FIELDS
    ensures GoodWords(words') && SeenIn(words') == SeenIn(words) + {i}
  {
    words' := words[i / 32 := words[i / 32][i % 32 := true]];
    forall k | 0 <= k < PB_MAX_REQUIRED_FIELDS
      ensures words'[k / 32][k % 32] == (k == i || words[k / 32][k % 32])
    {
      if k / 32 == i / 32 && k % 32 == i % 32 {
        assert k == i;
      }
    }
  }

  /** Comparing a word with r ones is looking at its bits, when none above r is set. */
  lemma WordTest(words: seq<Word>, i: nat, r: nat)
    requires GoodWords(words) && i < 2 && r <= 32
    requires forall j :: r <= j < 32 ==> !words[i][j]
    ensures words[i] == Ones(r) <==> forall k :: 32 * i <= k < 32 * i + r ==> k in SeenIn(words)
  {
    forall k | 32 * i <= k < 32 * i + r
      ensures k in SeenIn(words) <==> words[i][k - 32 * i]
    {
      assert k / 32 == i && k % 32 == k - 32 * i;
    }
    if forall k :: 32 * i <= k < 32 * i + r ==> k in SeenIn(words) {
      forall j | 0 <= j < r
        ensures words[i][j]
      {
        assert 32 * i + j in SeenIn(words);
      }
    }
  }

  /** No bit is set above the required fields there are. */
  lemma NoHighBits(words: seq<Word>, count: nat, i: nat)
    requires GoodWords(words) && i < 2 && forall k :: k in SeenIn(words) ==> k < count
    ensures forall j :: 0 <= j < 32 && 32 * i + j >= count ==> !words[i][j]
  {
    forall j | 0 <= j < 32 && 32 * i + j >= count
      ensures !words[i][j]
    {
      var k := 32 * i + j;
      assert k / 32 == i && k % 32 == j && k !in SeenIn(words);
    }
  }

  /** The required-field test of pb_decode_inner on whole words and on the rest of the last one, for at
      most the first 64 required fields. */
  method AllRequiredSeen(d: seq<Field>, words: seq<Word>) returns (ok: bool)
    requires GoodWords(words) && SeenBelow(d, SeenIn(words))
    ensures ok <==> Complete(d, SeenIn(words))
  {
    var count := RequiredBefore(d, |d|);
    if count > PB_MAX_REQUIRED_FIELDS {
      count := PB_MAX_REQUIRED_FIELDS;
    }
    for i := 0 to count / 32
      invariant forall k :: 0 <= k < 32 * i ==> k in SeenIn(words)
    {
      WordTest(words, i, 32);
      if words[i] != Ones(32) {
        return false;
      }
    }
    if count % 32 != 0 {
      var i, r := count / 32, count % 32;
      NoHighBits(words, count, i);
      WordTest(words, i, r);
      if words[i] != Ones(r) {
        return false;
      }
    }
    ok := true;
  }

  /** pb_decode_inner. Every pass of the loop consumes at least one byte. */
  method DecodeInner(s: IStream, d: seq<Field>, dest: seq<Slot>, noinit: bool) returns (ok: bool, m: seq<Slot>)
    requires s.Valid() && GoodDesc(d) && LaidOut(d) && TypedMsg(d, dest)
    modifies s
    ensures var start := if noinit then dest else Default(d);
            (ok <==> DecInner(d, start, old(s.Rest())).Some?) &&
            (ok ==> Some(m) == DecInner(d, start, old(s.Rest())))
    ensures s.Valid() && (ok ==> s.End() == old(s.End()) && s.bytesLeft == 0)
    decreases s.bytesLeft, 6
  {
    m := dest;
    if !noinit {
      m := SetToDefaults(d, dest);
      DefaultTyped(d);
    }
    var iter := NewIter(d, STRUCT);
    var seen := [Ones(0), Ones(0)];
    assert SeenIn(seen) == {} && SeenBelow(d, {});
    hide SeenIn, SeenBelow, Complete, DecOne, Default, TypedMsg, GoodDesc, LaidOut, Ones;
    ghost var goal := DecLoop(d, State(m, {}), s.Rest());
    while s.bytesLeft > 0
      invariant s.Valid() && s.End() == old(s.End()) && s.bytesLeft <= old(s.bytesLeft)
      invariant iter.Valid() && iter.infos == Infos(d) && fresh(iter)
      invariant TypedMsg(d, m) && GoodWords(seen) && SeenBelow(d, SeenIn(seen))
      invariant DecLoop(d, State(m, SeenIn(seen)), s.Rest()) == goal
      decreases s.bytesLeft
    {
      ghost var st, before := State(m, SeenIn(seen)), s.Rest();
      ok, m, seen := DecodeRecord(s, d, iter, m, seen);
      if !ok {
        return;
      }
      DecOneTyped(d, st, before);
      DecOneSeenBelow(d, st, before);
    }
    assert s.Rest() == [];
    ok := AllRequiredSeen(d, seen);
  }

  /** pb_field_iter_find, with the indices the decoder takes from the iterator. */
  method FindField(d: seq<Field>, iter: FieldIter.Iter, tag: nat) returns (found: bool, k: nat, required: nat)
    requires GoodDesc(d) && iter.Valid() && iter.infos == Infos(d) && tag > 0
    modifies iter
    ensures iter.Valid()
    ensures found <==> Find(d, tag) < |d|
    ensures found ==> k == Find(d, tag) && required == RequiredBefore(d, k)
  {
    found := iter.Find(tag);
    k, required := iter.index, iter.requiredFieldIndex;
    if found {
      FoundIs(d, tag, k);
      InfosRequired(d, k);
    } else {
      assert forall i :: 0 <= i < |d| ==> iter.infos[i].tag == d[i].tag;
    }
  }

  /** The body of that loop: one tag, then a known field or a skipped one. */
  method DecodeRecord(s: IStream, d: seq<Field>, iter: FieldIter.Iter, m: seq<Slot>, seen: seq<Word>)
    returns (ok: bool, m': seq<Slot>, seen': seq<Word>)
    requires s.Valid() && s.bytesLeft > 0 && GoodDesc(d) && LaidOut(d) && TypedMsg(d, m) && GoodWords(seen)
    requires iter.Valid() && iter.infos == Infos(d)
    modifies s, iter
    ensures s.Valid() && (ok ==> s.End() == old(s.End()))
    ensures GoodWords(seen')
    ensures Agrees(
              DecOne(d, State(m, SeenIn(seen)), old(s.Rest())), old(s.Rest()), ok, State(m', SeenIn(seen')), s.Rest())
    ensures iter.Valid()
    decreases s.bytesLeft, 5
  {
    m', seen' := m, seen;
    ghost var all, st := s.Rest(), State(m, SeenIn(seen));
    var tag, wireType, eof;
    ok, tag, wireType, eof := s.DecodeTag();
    if ok && tag != 0 {
      ok, m', seen' := DecodePayload(s, d, iter, tag, wireType, m, seen);
      OneOutcome(d, st, all, tag, wireType, DecTag(all).used, ok, State(m', SeenIn(seen')), s.Rest());
    } else {
      NoTag(d, st, all);
      ok := false;
    }
  }

  /** No tag, or a tag of zero, is fatal. */
  lemma NoTag(d: seq<Field>, st: State, all: seq<byte>)
    requires DecTag(all).Got? ==> DecTag(all).value.0 == 0
    ensures DecOne(d, st, all) == Fail
  {
    if DecTag(all).Got? {
      var Got((tag, wt), n) := DecTag(all);
      assert DecRecord(d, st, tag, wt, all[n..]) == Fail;
    }
  }

  /** What comes after the tag. */
  method DecodePayload(
    s: IStream, d: seq<Field>, iter: FieldIter.Iter, tag: nat, wireType: nat, m: seq<Slot>, seen: seq<Word>)
    returns (ok: bool, m': seq<Slot>, seen': seq<Word>)
    requires s.Valid() && tag > 0 && GoodDesc(d) && LaidOut(d) && TypedMsg(d, m) && GoodWords(seen)
    requires iter.Valid() && iter.infos == Infos(d)
    modifies s, iter
    ensures s.Valid() && (ok ==> s.End() == old(s.End()))
    ensures GoodWords(seen')
    ensures Agrees(
              DecRecord(d, State(m, SeenIn(seen)), tag, wireType, old(s.Rest())), old(s.Rest()), ok,
              State(m', SeenIn(seen')), s.Rest())
    ensures iter.Valid()
    decreases s.bytesLeft, 4
  {
    m', seen' := m, seen;
    var found, k, required := FindField(d, iter, tag);
    if found {
      ok, m', seen' := DecodeKnown(s, d, k, required, wireType, m, seen);
    } else {
      ok := s.SkipField(wireType);
    }
  }

  lemma OneOutcome(
    d: seq<Field>, st: State, all: seq<byte>, tag: nat, wt: nat, n: nat, ok: bool, st': State, rest: seq<byte>)
    requires DecTag(all) == Got((tag, wt), n)
    requires Agrees(DecRecord(d, st, tag, wt, all[n..]), all[n..], ok, st', rest)
    ensures Agrees(DecOne(d, st, all), all, ok, st', rest)
  {
    match DecRecord(d, st, tag, wt, all[n..]) {
      case Fail =>
      case Got(_, u) => assert all[n..][u..] == all[n + u..];
    }
  }

  /** A field the descriptor has: mark it if it is required, then decode it into its slot. */
  method DecodeKnown(
    s: IStream, d: seq<Field>, k: nat, required: nat, wireType: nat, m: seq<Slot>, seen: seq<Word>)
    returns (ok: bool, m': seq<Slot>, seen': seq<Word>)
    requires s.Valid() && GoodDesc(d) && LaidOut(d) && TypedMsg(d, m) && GoodWords(seen)
    requires k < |d| && required == RequiredBefore(d, k)
    modifies s
    ensures s.Valid() && (ok ==> s.End() == old(s.End()))
    ensures GoodWords(seen')
    ensures Agrees(
              DecKnown(d, State(m, SeenIn(seen)), k, wireType, old(s.Rest())), old(s.Rest()), ok,
              State(m', SeenIn(seen')), s.Rest())
    decreases s.bytesLeft, 3
  {
    seen' := seen;
    if d[k].rule.Required? && required < PB_MAX_REQUIRED_FIELDS {
      seen' := SetBit(seen, required);
    }
    LaidIs(d, |d|);
    var slot, count, stored;
    ok, slot, count, stored := DecodeStatic(d[k], wireType, m[k], s);
    m' := m[k := slot];
  }

  /** pb_decode on a buffer. */
  method DecodeMessage(data: seq<byte>, d: seq<Field>, dest: seq<Slot>) returns (ok: bool, m: seq<Slot>)
    requires GoodDesc(d) && LaidOut(d) && TypedMsg(d, dest)
    ensures ok <==> Decode(d, data).Some?
    ensures ok ==> Some(m) == Decode(d, data)
  {
    var s := new IStream(data, 0, |data|);
    assert s.Rest() == data;
    ok, m := DecodeInner(s, d, dest, false);
  }
}
