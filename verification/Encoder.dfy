/** pb_ostream_t over a memory buffer or as a sizing stream, and pb_encode.c on top of it.

    Every method is proved to add exactly the bytes the codec's functions give, to succeed exactly
    when the struct is storable and those bytes fit, and to touch nothing else in the buffer. */
module Encoder {
  import opened Varint
  import opened Schema
  import opened Codec
  import opened FieldTable
  import opened RoundTrip

  // ----- what a write does to a stream -----

  /** A stream at one moment: the whole buffer, the write position, and the two counters. */
  datatype View = View(sizing: bool, bytes: seq<byte>, pos: nat, written: nat, max: nat)

  predicate Sound(v: View) {
    v.sizing || (v.written <= v.max < TWO_32 && v.pos + (v.max - v.written) <= |v.bytes|)
  }

  /** The first position past the room that the stream has. */
  function Limit(v: View): int {
    v.pos + (v.max - v.written)
  }

  predicate Room(v: View, n: nat) {
    v.sizing || v.written + n <= v.max
  }

  /** The 32-bit size_t counters can count this many more bytes. */
  predicate Countable(v: View, n: nat) {
    v.written + n < TWO_32
  }

  function PutByte(v: View, b: byte): View
    requires Sound(v) && Room(v, 1)
  {
    if v.sizing then v.(written := v.written + 1)
    else v.(bytes := v.bytes[v.pos := b], pos := v.pos + 1, written := v.written + 1)
  }

  /** The stream after exactly these bytes, one after the other. */
  function Put(v: View, e: seq<byte>): (w: View)
    requires Sound(v) && Room(v, |e|)
    ensures Sound(w) && w.written == v.written + |e| && w.max == v.max && w.sizing == v.sizing
    decreases |e|
  {
    if e == [] then v else PutByte(Put(v, e[..|e| - 1]), e[|e| - 1])
  }

  /** Every other byte of the buffer is as it was. */
  lemma {:induction false} PutIs(v: View, e: seq<byte>)
    requires Sound(v) && Room(v, |e|)
    ensures !v.sizing ==> Put(v, e).pos == v.pos + |e| &&
                          Put(v, e).bytes == v.bytes[..v.pos] + e + v.bytes[v.pos + |e|..]
    ensures v.sizing ==> Put(v, e) == v.(written := v.written + |e|)
    decreases |e|
  {
    if e != [] {
      PutIs(v, e[..|e| - 1]);
    }
  }

  lemma PutFramed(v: View, e: seq<byte>)
    requires Sound(v) && Room(v, |e|)
    ensures Framed(v, Put(v, e))
  {
    PutIs(v, e);
  }

  /** What also a failed write keeps: everything outside the room, and what was written before. */
  predicate Framed(a: View, b: View)
    requires Sound(a) && Sound(b)
  {
    b.sizing == a.sizing && b.max == a.max && |b.bytes| == |a.bytes| &&
    if a.sizing then b.bytes == a.bytes
    else
      Limit(b) == Limit(a) && a.pos <= b.pos &&
      b.bytes[..a.pos] == a.bytes[..a.pos] && b.bytes[Limit(a)..] == a.bytes[Limit(a)..]
  }

  /** A write of e took the stream from a to b: it succeeds exactly if the data can be encoded and
      there is room, and then adds exactly e. */
  predicate Wrote(a: View, b: View, e: seq<byte>, can: bool, ok: bool)
    requires Sound(a)
  {
    (ok <==> can && Room(a, |e|)) && if ok then b == Put(a, e) else Sound(b) && Framed(a, b)
  }

  lemma FramedTwice(a: View, b: View, c: View)
    requires Sound(a) && Sound(b) && Sound(c) && Framed(a, b) && Framed(b, c)
    ensures Framed(a, c)
  {
    if !a.sizing {
      assert c.bytes[..a.pos] == c.bytes[..b.pos][..a.pos];
    }
  }

  lemma {:induction false} PutTwice(a: View, e1: seq<byte>, e2: seq<byte>)
    requires Sound(a) && Room(a, |e1| + |e2|)
    ensures Put(Put(a, e1), e2) == Put(a, e1 + e2)
    decreases |e2|
  {
    if e2 == [] {
      assert e1 + e2 == e1;
    } else {
      assert (e1 + e2)[..|e1 + e2| - 1] == e1 + e2[..|e2| - 1];
      PutTwice(a, e1, e2[..|e2| - 1]);
    }
  }

  lemma WroteBoth(a: View, e1: seq<byte>, c: View, e2: seq<byte>, can: bool, ok: bool)
    requires Sound(a) && Room(a, |e1|) && Wrote(Put(a, e1), c, e2, can, ok)
    ensures Wrote(a, c, e1 + e2, can, ok)
  {
    if ok {
      PutTwice(a, e1, e2);
    } else {
      PutFramed(a, e1);
      FramedTwice(a, Put(a, e1), c);
    }
  }

  /** A failed part is a failed whole. */
  lemma WroteFails(a: View, b: View, e1: seq<byte>, e2: seq<byte>, can1: bool, can2: bool)
    requires Sound(a) && Wrote(a, b, e1, can1, false)
    ensures Wrote(a, b, e1 + e2, can1 && can2, false)
  {
  }

  // ----- the stream -----

  class OStream {
    const buf: array<byte>
    /** callback == NULL: only count. */
    const sizing: bool
    /** `state`: the position of the next byte. */
    var pos: nat
    var maxSize: nat
    var bytesWritten: nat

    ghost function Look(): View
      reads this, buf
    {
      View(sizing, buf[..], pos, bytesWritten, maxSize)
    }

    ghost predicate Valid()
      reads this, buf
    {
      Sound(Look())
    }

    /** pb_ostream_from_buffer, and the substream of pb_encode_submessage. */
    constructor (buffer: array<byte>, start: nat, size: nat)
      requires start + size <= buffer.Length && size < TWO_32
      ensures Valid() && buf == buffer
      ensures Look() == View(false, buffer[..], start, 0, size)
    {
      buf, sizing, pos, maxSize, bytesWritten := buffer, false, start, size, 0;
    }

    /** PB_OSTREAM_SIZING. */
    constructor Sizing()
      ensures Valid() && fresh(buf) && Look() == View(true, [], 0, 0, 0)
    {
      buf, sizing, pos, maxSize, bytesWritten := new byte[0], true, 0, 0, 0;
    }

    /** buf_write. */
    method BufWrite(data: seq<byte>)
      requires pos + |data| <= buf.Length
      modifies this`pos, buf
      ensures pos == old(pos) + |data|
      ensures forall j :: 0 <= j < buf.Length ==>
                buf[j] == if old(pos) <= j < pos then data[j - old(pos)] else old(buf[j])
    {
      var dest := pos;
      pos := dest + |data|;
      for i := 0 to |data|
        invariant pos == dest + |data|
        invariant forall j :: 0 <= j < buf.Length ==>
                    buf[j] == if dest <= j < dest + i then data[j - dest] else old(buf[j])
      {
        buf[dest + i] := data[i];
      }
    }

    /** pb_write. */
    method Write(data: seq<byte>) returns (ok: bool)
      requires Valid() && Countable(Look(), |data|)
      modifies this, buf
      ensures Wrote(old(Look()), Look(), data, true, ok)
    {
      if |data| > 0 && !sizing {
        var sum := (bytesWritten + |data|) % TWO_32;
        if sum < bytesWritten || sum > maxSize {
          return false;
        }
        BufWrite(data);
        assert buf[..] == old(buf[..pos]) + data + old(buf[pos + |data|..]);
      }
      PutIs(old(Look()), data);
      bytesWritten := (bytesWritten + |data|) % TWO_32;
      ok := true;
    }

    /** pb_write with a count and no data, on a sizing stream. */
    method Count(n: nat, ghost e: seq<byte>) returns (ok: bool)
      requires Valid() && sizing && n == |e| && Countable(Look(), n)
      modifies this, buf
      ensures Wrote(old(Look()), Look(), e, true, ok)
    {
      PutIs(Look(), e);
      bytesWritten := (bytesWritten + n) % TWO_32;
      ok := true;
    }

    /** pb_encode_varint. */
    method EncodeVarint(v: nat) returns (ok: bool)
      requires Valid() && v < TWO_64 && Countable(Look(), |Encode(v)|)
      modifies this, buf
      ensures Wrote(old(Look()), Look(), Encode(v), true, ok)
    {
      if v <= 0x7F {
        ok := Write([v]);
      } else {
        var bytes := VarintBytes(v % TWO_32, v / TWO_32);
        ok := Write(bytes);
      }
    }

    /** pb_encode_svarint, with the shift and the complement in 64 bits. */
    method EncodeSvarint(v: int) returns (ok: bool)
      requires Valid() && -TWO_63 <= v < TWO_63 && Countable(Look(), |Encode(ZigZag(v))|)
      modifies this, buf
      ensures Wrote(old(Look()), Look(), Encode(ZigZag(v)), true, ok)
    {
      var shifted := ToUnsigned(v) * 2 % TWO_64;
      var zigzagged := if v < 0 then TWO_64 - 1 - shifted else shifted;
      assert zigzagged == ZigZag(v);
      ok := EncodeVarint(zigzagged);
    }

    /** pb_encode_fixed32 and pb_encode_fixed64. */
    method EncodeFixed(v: nat, width: nat) returns (ok: bool)
      requires Valid() && (width == 4 || width == 8) && Countable(Look(), width)
      modifies this, buf
      ensures Wrote(old(Look()), Look(), FixedEncode(v, width), true, ok)
    {
      var bytes: seq<byte> := [v % 256, v / 0x100 % 256, v / 0x1_0000 % 256, v / 0x100_0000 % 256];
      if width == 8 {
        bytes := bytes + [v / 0x1_0000_0000 % 256, v / 0x100_0000_0000 % 256,
                          v / 0x1_0000_0000_0000 % 256, v / 0x100_0000_0000_0000 % 256];
        EightBytes(v);
      } else {
        FourBytes(v);
      }
      assert bytes == FixedEncode(v, width);
      ok := Write(bytes);
    }

    /** pb_encode_tag. */
    method EncodeTag(wireType: nat, tag: nat) returns (ok: bool)
      requires Valid() && tag <= PB_SIZE_MAX && wireType < 8 && Countable(Look(), |EncTag(tag, wireType)|)
      modifies this, buf
      ensures Wrote(old(Look()), Look(), EncTag(tag, wireType), true, ok)
    {
      ok := EncodeVarint(tag * 8 + wireType);
    }

    /** pb_encode_string. */
    method EncodeString(data: seq<byte>) returns (ok: bool)
      requires Valid() && Countable(Look(), |Encode(|data|) + data|)
      modifies this, buf
      ensures Wrote(old(Look()), Look(), Encode(|data|) + data, true, ok)
    {
      ghost var a := Look();
      ok := EncodeVarint(|data|);
      if ok {
        ok := Write(data);
        WroteBoth(a, Encode(|data|), Look(), data, true, ok);
      } else {
        WroteFails(a, Look(), Encode(|data|), data, true, true);
      }
    }
  }

  // ----- the varint encoder on two 32-bit halves -----

  /** The weight of the high half once i groups of the low half are written. */
  function HighWeight(i: nat): nat
    requires i <= 4
  {
    match i case 0 => TWO_32 case 1 => 0x200_0000 case 2 => 0x4_0000 case 3 => 0x800 case _ => 16
  }

  /** One more group goes out: the rest of the encoding is that of the quotient. */
  lemma NextGroup(group: nat, quotient: nat)
    requires group < 128 && quotient > 0
    ensures Encode(group + 128 * quotient) == [group + 128] + Encode(quotient)
  {
    Divide(group + 128 * quotient, 128, quotient, group);
  }

  lemma HighShift(i: nat, low: nat, high: nat)
    requires i < 4
    ensures low + HighWeight(i + 1) * high == low % 128 + 128 * (low / 128) + HighWeight(i + 1) * high
    ensures HighWeight(i) * high == 128 * (HighWeight(i + 1) * high)
    ensures low != 0 || high != 0 ==> low + HighWeight(i + 1) * high > 0
  {
  }

  /** What is in the buffer, followed by the encoding of what is left, is the encoding of the whole. */
  predicate Emitted(s: seq<byte>, rest: nat, v: nat) {
    s + Encode(rest) == Encode(v)
  }

  lemma EmitGroup(s: seq<byte>, group: nat, quotient: nat, v: nat)
    requires group < 128 && quotient > 0 && Emitted(s, group + 128 * quotient, v)
    ensures Emitted(s + [group + 128], quotient, v)
  {
    NextGroup(group, quotient);
    assert s + ([group + 128] + Encode(quotient)) == s + [group + 128] + Encode(quotient);
  }

  /** Between two turns of the first loop: i groups are out, b is the next, and low and high are what is
      left of the two halves. */
  predicate LowState(s: seq<byte>, i: nat, b: nat, low: nat, high: nat, v: nat) {
    i <= 4 && b < 128 && b + 128 * low < HighWeight(i) && Emitted(s, b + 128 * low + HighWeight(i) * high, v)
  }

  lemma LowTurn(s: seq<byte>, i: nat, b: nat, low: nat, high: nat, v: nat)
    requires LowState(s, i, b, low, high, v) && i < 4 && (low != 0 || high != 0)
    ensures LowState(s + [b + 128], i + 1, low % 128, low / 128, high, v)
  {
    HighShift(i, low, high);
    EmitGroup(s, b, low + HighWeight(i + 1) * high, v);
  }

  /** The first loop of pb_encode_varint_32: four groups of the low half at most. */
  method EmitLow(buffer: array<byte>, low0: nat, high: nat) returns (i: nat, b: byte, low: nat)
    requires buffer.Length == 10 && low0 < TWO_32
    modifies buffer
    ensures i <= 4 && LowState(buffer[..i], i, b, low, high, low0 + TWO_32 * high)
    ensures i == 4 || (low == 0 && high == 0)
  {
    i, b, low := 0, low0 % 128, low0 / 128;
    ghost var v := low0 + TWO_32 * high;
    while i < 4 && (low != 0 || high != 0)
      invariant i <= 4 && LowState(buffer[..i], i, b, low, high, v)
    {
      LowTurn(buffer[..i], i, b, low, high, v);
      b := b + 128;
      buffer[i] := b;
      i := i + 1;
      assert buffer[..i] == buffer[..i - 1] + [b];
      b := low % 128;
      low := low / 128;
    }
  }

  /** The second loop: what is left of the high half. */
  method EmitHigh(buffer: array<byte>, i0: nat, b0: byte, high0: nat, ghost v: nat) returns (i: nat, b: byte)
    requires buffer.Length == 10 && i0 < 10 && b0 < 128 && |Encode(v)| <= 10
    requires Emitted(buffer[..i0], b0 + 128 * high0, v)
    modifies buffer
    ensures i < 10 && b < 128 && Emitted(buffer[..i], b, v)
  {
    i, b := i0, b0;
    var high := high0;
    while high != 0
      invariant i < 10 && b < 128
      invariant Emitted(buffer[..i], b + 128 * high, v)
    {
      NextGroup(b, high);
      EmitGroup(buffer[..i], b, high, v);
      b := b + 128;
      buffer[i] := b;
      i := i + 1;
      assert buffer[..i] == buffer[..i - 1] + [b];
      b := high % 128;
      high := high / 128;
    }
  }

  /** pb_encode_varint_32. The ten-byte buffer is never overrun. */
  method VarintBytes(low: nat, high: nat) returns (bytes: seq<byte>)
    requires low < TWO_32 && high < TWO_32
    ensures bytes == Encode(low + TWO_32 * high)
    ensures |bytes| <= 10
  {
    ghost var v := low + TWO_32 * high;
    Decode64Inverts(v, []);
    hide Decode64, HighWeight;
    var buffer := new byte[10];
    var i, b, low' := EmitLow(buffer, low, high);
    if high != 0 {
      b := b + high % 8 * 16;
      i, b := EmitHigh(buffer, i, b, high / 8, v);
    }
    buffer[i] := b;
    i := i + 1;
    bytes := buffer[..i];
    assert bytes == buffer[..i - 1] + [b];
  }

  /** Shifting by eight bits again. */
  lemma ShiftMore(v: nat)
    ensures v / 0x100 / 256 == v / 0x1_0000 && v / 0x1_0000 / 256 == v / 0x100_0000
    ensures v / 0x100_0000 / 256 == v / 0x1_0000_0000 && v / 0x1_0000_0000 / 256 == v / 0x100_0000_0000
    ensures v / 0x100_0000_0000 / 256 == v / 0x1_0000_0000_0000
    ensures v / 0x1_0000_0000_0000 / 256 == v / 0x100_0000_0000_0000
  {
  }

  lemma FourBytes(v: nat)
    ensures FixedEncode(v, 4) == [v % 256, v / 0x100 % 256, v / 0x1_0000 % 256, v / 0x100_0000 % 256]
  {
    ShiftMore(v);
    var a := v / 0x100;
    assert FixedEncode(v, 4) == [v % 256] + FixedEncode(a, 3);
    assert FixedEncode(a, 3) == [a % 256] + FixedEncode(a / 256, 2);
    assert FixedEncode(a / 256, 2) == [a / 256 % 256] + FixedEncode(a / 256 / 256, 1);
    assert FixedEncode(a / 256 / 256, 1) == [a / 256 / 256 % 256] + FixedEncode(a / 256 / 256 / 256, 0);
  }

  lemma {:induction false} FixedSplit(v: nat, width: nat)
    ensures FixedEncode(v, width + 4) == FixedEncode(v, 4) + FixedEncode(v / TWO_32, width)
  {
    FourBytes(v);
    ShiftMore(v);
    var a := v / 0x100;
    assert FixedEncode(v, width + 4) == [v % 256] + FixedEncode(a, width + 3);
    assert FixedEncode(a, width + 3) == [a % 256] + FixedEncode(a / 256, width + 2);
    assert FixedEncode(a / 256, width + 2) == [a / 256 % 256] + FixedEncode(a / 256 / 256, width + 1);
    assert FixedEncode(a / 256 / 256, width + 1) == [a / 256 / 256 % 256] + FixedEncode(a / 256 / 256 / 256, width);
  }

  lemma EightBytes(v: nat)
    ensures FixedEncode(v, 8) ==
            [v % 256, v / 0x100 % 256, v / 0x1_0000 % 256, v / 0x100_0000 % 256,
             v / 0x1_0000_0000 % 256, v / 0x100_0000_0000 % 256,
             v / 0x1_0000_0000_0000 % 256, v / 0x100_0000_0000_0000 % 256]
  {
    FixedSplit(v, 4);
    FourBytes(v);
    FourBytes(v / TWO_32);
    ShiftMore(v);
    ShiftMore(v / TWO_32);
  }

  // ----- fields -----

  /** pb_enc_varint. The packed form also sends bools through it, read as signed bytes. */
  method EncodeNumber(f: Field, v: Value, s: OStream) returns (ok: bool)
    requires s.Valid() && GoodSize(f) && TypedValue(f, v) && Packable(f.ltype) && !f.ltype.Fixed32? && !f.ltype.Fixed64?
    requires Countable(s.Look(), |EncScalar(f, v)|)
    modifies s, s.buf
    ensures Wrote(old(s.Look()), s.Look(), EncScalar(f, v), true, ok)
  {
    Pow256Values();
    var i := match v case Flag(b) => if b then 1 else 0 case Number(n) => n;
    if f.ltype.Unsigned? {
      ok := s.EncodeVarint(i);
    } else if f.ltype.ZigZagged? {
      ok := s.EncodeSvarint(i);
    } else {
      ok := s.EncodeVarint(ToUnsigned(i));
    }
  }

  /** pb_enc_string: the bytes up to the terminator, if there is one inside the array. */
  method EncodeCString(f: Field, text: seq<byte>, s: OStream) returns (ok: bool)
    requires s.Valid() && 0 < f.dataSize <= PB_SIZE_MAX && 0 !in text && Countable(s.Look(), |Encode(|text|) + text|)
    modifies s, s.buf
    ensures Wrote(old(s.Look()), s.Look(), Encode(|text|) + text, |text| + 1 <= f.dataSize, ok)
  {
    var str := text + [0];
    var size, maxSize := 0, f.dataSize - 1;
    while size < maxSize && str[size] != 0
      invariant size <= |text| && size <= maxSize
    {
      size := size + 1;
    }
    if str[size] != 0 {
      return false;
    }
    assert size == |text| && str[..size] == text;
    ok := s.EncodeString(str[..size]);
  }

  /** encode_basic_field after the tag, for everything but submessages. */
  method EncodeScalar(f: Field, v: Value, s: OStream) returns (ok: bool)
    requires s.Valid() && GoodField(f) && TypedValue(f, v) && !f.ltype.Submessage?
    requires Countable(s.Look(), |EncScalar(f, v)|)
    modifies s, s.buf
    ensures Wrote(old(s.Look()), s.Look(), EncScalar(f, v), StorableValue(f, v), ok)
  {
    match f.ltype
    case Bool => ok := s.EncodeVarint(if v.b then 1 else 0);
    case Signed | Unsigned | ZigZagged => ok := EncodeNumber(f, v, s);
    case Fixed32 => ok := s.EncodeFixed(v.i, 4);
    case Fixed64 => ok := s.EncodeFixed(v.i, 8);
    case Bytes =>
      if |v.bytes| > f.dataSize - BYTES_HEADER {
        ok := false;
      } else {
        ok := s.EncodeString(v.bytes);
      }
    case String => ok := EncodeCString(f, v.bytes, s);
    case FixedBytes => ok := s.EncodeString(v.bytes);
  }

  // ----- submessages -----

  /** pb_encode_submessage: a sizing pass, the length, and a pass on a substream that has exactly the
      room the first pass asked for. */
  method EncodeSubmessage(d: seq<Field>, m: seq<Slot>, s: OStream) returns (ok: bool)
    requires s.Valid() && GoodDesc(d) && LaidOut(d) && TypedMsg(d, m)
    requires Countable(s.Look(), |Encode(|EncMsg(d, m)|) + EncMsg(d, m)|)
    modifies s, s.buf
    ensures Wrote(old(s.Look()), s.Look(), Encode(|EncMsg(d, m)|) + EncMsg(d, m), StorableMsg(d, m), ok)
    decreases d, 5
  {
    ghost var a, e := s.Look(), EncMsg(d, m);
    var sizer := new OStream.Sizing();
    ok := EncodeMessage(d, m, sizer);
    if ok {
      var size := sizer.bytesWritten;
      ok := s.EncodeVarint(size);
      if ok {
        ok := WriteSized(d, m, size, s);
        WroteBoth(a, Encode(|e|), s.Look(), e, true, ok);
      } else {
        WroteFails(a, s.Look(), Encode(|e|), e, true, true);
      }
    }
  }

  /** What comes after the length. */
  method WriteSized(d: seq<Field>, m: seq<Slot>, size: nat, s: OStream) returns (ok: bool)
    requires s.Valid() && GoodDesc(d) && LaidOut(d) && TypedMsg(d, m) && StorableMsg(d, m)
    requires size == |EncMsg(d, m)| && Countable(s.Look(), size)
    modifies s, s.buf
    ensures Wrote(old(s.Look()), s.Look(), EncMsg(d, m), true, ok)
    decreases d, 4
  {
    if s.sizing {
      ok := s.Count(size, EncMsg(d, m));
    } else if (s.bytesWritten + size) % TWO_32 > s.maxSize {
      ok := false;
    } else {
      ok := WriteSubstream(d, m, size, s);
    }
  }

  /** What a substream with exactly the room it needs has put, its parent has put. */
  lemma SubPut(a: View, a': View, e: seq<byte>)
    requires Sound(a) && !a.sizing && Room(a, |e|) && a' == View(false, a.bytes, a.pos, 0, |e|)
    ensures var b' := Put(a', e);
            b'.written == |e| && Put(a, e) == View(false, b'.bytes, b'.pos, a.written + |e|, a.max)
  {
    hide Put;
    PutIs(a, e);
    PutIs(a', e);
  }

  /** The second pass. The size never differs from that of the first. */
  method WriteSubstream(d: seq<Field>, m: seq<Slot>, size: nat, s: OStream) returns (ok: bool)
    requires s.Valid() && !s.sizing && GoodDesc(d) && LaidOut(d) && TypedMsg(d, m) && StorableMsg(d, m)
    requires size == |EncMsg(d, m)| && s.bytesWritten + size <= s.maxSize
    modifies s, s.buf
    ensures ok && s.Look() == Put(old(s.Look()), EncMsg(d, m))
    decreases d, 3
  {
    hide Put, EncMsg, StorableMsg, GoodDesc, TypedMsg, LaidOut;
    ghost var a, e := s.Look(), EncMsg(d, m);
    var sub := new OStream(s.buf, s.pos, size);
    ghost var a' := sub.Look();
    var status := EncodeMessage(d, m, sub);
    ghost var b' := sub.Look();
    SubPut(a, a', e);
    s.bytesWritten := (s.bytesWritten + sub.bytesWritten) % TWO_32;
    s.pos := sub.pos;
    assert s.Look() == View(false, b'.bytes, b'.pos, a.written + |e|, a.max);
    var changed := sub.bytesWritten != size;
    assert !changed;
    ok := !changed && status;
  }

  /** encode_basic_field. */
  method EncodeBasic(f: Field, v: Value, s: OStream) returns (ok: bool)
    requires s.Valid() && GoodField(f) && LaidField(f) && TypedValue(f, v)
    requires Countable(s.Look(), |EncTag(f.tag, WireType(f.ltype)) + EncValue(f, v)|)
    modifies s, s.buf
    ensures Wrote(old(s.Look()), s.Look(), EncTag(f.tag, WireType(f.ltype)) + EncValue(f, v), StorableValue(f, v), ok)
    decreases f, 6
  {
    ghost var a, t, e := s.Look(), EncTag(f.tag, WireType(f.ltype)), EncValue(f, v);
    ok := s.EncodeTag(WireType(f.ltype), f.tag);
    if ok {
      if f.ltype.Submessage? {
        ok := EncodeSubmessage(f.sub, v.slots, s);
      } else {
        ok := EncodeScalar(f, v, s);
      }
      WroteBoth(a, t, s.Look(), e, StorableValue(f, v), ok);
    } else {
      WroteFails(a, s.Look(), t, e, true, StorableValue(f, v));
    }
  }

  // ----- arrays -----

  lemma {:induction false} FixedPackedSize(f: Field, vs: seq<Value>)
    requires GoodSize(f) && (f.ltype.Fixed32? || f.ltype.Fixed64?)
    requires forall i :: 0 <= i < |vs| ==> TypedValue(f, vs[i])
    ensures |EncPacked(f, vs)| == f.dataSize * |vs|
  {
    if vs != [] {
      FixedPackedSize(f, vs[1..]);
    }
  }

  lemma PackedStep(f: Field, vs: seq<Value>, i: nat)
    requires GoodSize(f) && Packable(f.ltype) && i < |vs| && forall j :: 0 <= j < |vs| ==> TypedValue(f, vs[j])
    ensures EncPacked(f, vs[i..]) == EncScalar(f, vs[i]) + EncPacked(f, vs[i + 1..])
  {
    assert vs[i..][1..] == vs[i + 1..];
  }

  lemma EachStep(f: Field, vs: seq<Value>, i: nat)
    requires GoodField(f) && i < |vs| && forall j :: 0 <= j < |vs| ==> TypedValue(f, vs[j])
    ensures EncEach(f, vs[i..]) == EncTag(f.tag, WireType(f.ltype)) + EncValue(f, vs[i]) + EncEach(f, vs[i + 1..])
  {
    assert vs[i..][1..] == vs[i + 1..];
  }

  /** done is written and todo is left, of the whole e. */
  predicate Partway(a: View, e: seq<byte>, done: seq<byte>, todo: seq<byte>) {
    Sound(a) && Room(a, |done|) && done + todo == e && Countable(a, |e|)
  }

  lemma PartwayStart(a: View, e: seq<byte>)
    requires Sound(a) && Countable(a, |e|)
    ensures Partway(a, e, [], e) && Put(a, []) == a
  {
  }

  lemma PartwayDone(a: View, e: seq<byte>, done: seq<byte>)
    requires Partway(a, e, done, [])
    ensures done == e && Room(a, |e|)
  {
  }

  /** There is room for the next part, if at all, to be counted. */
  lemma PartwayCounts(a: View, e: seq<byte>, done: seq<byte>, next: seq<byte>, todo: seq<byte>)
    requires Partway(a, e, done, next + todo)
    ensures Countable(Put(a, done), |next|)
  {
  }

  lemma PartwayStep(a: View, c: View, e: seq<byte>, done: seq<byte>, next: seq<byte>, todo: seq<byte>, can: bool)
    requires Partway(a, e, done, next + todo) && Wrote(Put(a, done), c, next, can, true)
    ensures Partway(a, e, done + next, todo) && c == Put(a, done + next)
  {
    PutTwice(a, done, next);
    assert done + (next + todo) == done + next + todo;
  }

  lemma PartwayFails(
    a: View, c: View, e: seq<byte>, done: seq<byte>, next: seq<byte>, todo: seq<byte>, can: bool, all: bool)
    requires Partway(a, e, done, next + todo) && Wrote(Put(a, done), c, next, can, false) && (all ==> can)
    ensures Wrote(a, c, e, all, false)
  {
    WroteBoth(a, done, c, next, can, false);
    WroteFails(a, c, done + next, todo, can, all);
    assert done + (next + todo) == done + next + todo;
  }

  /** One element of a packed array. */
  method EncodePackedElement(f: Field, v: Value, s: OStream) returns (ok: bool)
    requires s.Valid() && GoodField(f) && Packable(f.ltype) && TypedValue(f, v)
    requires Countable(s.Look(), |EncScalar(f, v)|)
    modifies s, s.buf
    ensures Wrote(old(s.Look()), s.Look(), EncScalar(f, v), true, ok)
  {
    if f.ltype.Fixed32? || f.ltype.Fixed64? {
      ok := s.EncodeFixed(v.i, f.dataSize);
    } else {
      ok := EncodeNumber(f, v, s);
    }
  }

  /** The elements of a packed array, written or only counted. */
  method EncodeElements(f: Field, vs: seq<Value>, s: OStream) returns (ok: bool)
    requires s.Valid() && GoodField(f) && Packable(f.ltype) && forall i :: 0 <= i < |vs| ==> TypedValue(f, vs[i])
    requires Countable(s.Look(), |EncPacked(f, vs)|)
    modifies s, s.buf
    ensures Wrote(old(s.Look()), s.Look(), EncPacked(f, vs), true, ok)
  {
    ghost var a, e := s.Look(), EncPacked(f, vs);
    ghost var done := [];
    PartwayStart(a, e);
    assert vs[0..] == vs;
    for i := 0 to |vs|
      invariant Partway(a, e, done, EncPacked(f, vs[i..])) && s.Look() == Put(a, done)
    {
      ghost var next, todo := EncScalar(f, vs[i]), EncPacked(f, vs[i + 1..]);
      PackedStep(f, vs, i);
      PartwayCounts(a, e, done, next, todo);
      ok := EncodePackedElement(f, vs[i], s);
      if !ok {
        PartwayFails(a, s.Look(), e, done, next, todo, true, true);
        return;
      }
      PartwayStep(a, s.Look(), e, done, next, todo, true);
      done := done + next;
    }
    PartwayDone(a, e, done);
    ok := true;
  }

  /** The packed size, before anything is written. */
  method PackedSize(f: Field, vs: seq<Value>) returns (size: nat)
    requires GoodField(f) && Packable(f.ltype) && forall i :: 0 <= i < |vs| ==> TypedValue(f, vs[i])
    requires |EncPacked(f, vs)| < TWO_32
    ensures size == |EncPacked(f, vs)|
  {
    if f.ltype.Fixed32? {
      FixedPackedSize(f, vs);
      size := 4 * |vs|;
    } else if f.ltype.Fixed64? {
      FixedPackedSize(f, vs);
      size := 8 * |vs|;
    } else {
      var sizer := new OStream.Sizing();
      var ok := EncodeElements(f, vs, sizer);
      size := sizer.bytesWritten;
    }
  }

  /** The packed branch of encode_array: tag, size, elements. */
  method EncodePackedArray(f: Field, vs: seq<Value>, s: OStream) returns (ok: bool)
    requires s.Valid() && GoodField(f) && Packable(f.ltype) && forall i :: 0 <= i < |vs| ==> TypedValue(f, vs[i])
    requires var e := EncPacked(f, vs); Countable(s.Look(), |EncTag(f.tag, PB_WT_STRING) + Encode(|e|) + e|)
    modifies s, s.buf
    ensures var e := EncPacked(f, vs);
            Wrote(old(s.Look()), s.Look(), EncTag(f.tag, PB_WT_STRING) + Encode(|e|) + e, true, ok)
  {
    ghost var a, e, t := s.Look(), EncPacked(f, vs), EncTag(f.tag, PB_WT_STRING);
    ghost var n := Encode(|e|);
    ok := s.EncodeTag(PB_WT_STRING, f.tag);
    if ok {
      ok := EncodePackedBody(f, vs, s);
      WroteBoth(a, t, s.Look(), n + e, true, ok);
    } else {
      WroteFails(a, s.Look(), t, n + e, true, true);
    }
    assert t + n + e == t + (n + e);
  }

  method EncodePackedBody(f: Field, vs: seq<Value>, s: OStream) returns (ok: bool)
    requires s.Valid() && GoodField(f) && Packable(f.ltype) && forall i :: 0 <= i < |vs| ==> TypedValue(f, vs[i])
    requires var e := EncPacked(f, vs); Countable(s.Look(), |Encode(|e|) + e|)
    modifies s, s.buf
    ensures var e := EncPacked(f, vs); Wrote(old(s.Look()), s.Look(), Encode(|e|) + e, true, ok)
  {
    ghost var a, e := s.Look(), EncPacked(f, vs);
    var size := PackedSize(f, vs);
    ok := s.EncodeVarint(size);
    if ok {
      if s.sizing {
        ok := s.Count(size, e);
      } else {
        ok := EncodeElements(f, vs, s);
      }
      WroteBoth(a, Encode(|e|), s.Look(), e, true, ok);
    } else {
      WroteFails(a, s.Look(), Encode(|e|), e, true, true);
    }
  }

  predicate AllStorable(f: Field, vs: seq<Value>) {
    forall i :: 0 <= i < |vs| ==> StorableValue(f, vs[i])
  }

  /** The other branch: one record per element. */
  method EncodeRecords(f: Field, vs: seq<Value>, s: OStream) returns (ok: bool)
    requires s.Valid() && GoodField(f) && LaidField(f) && forall i :: 0 <= i < |vs| ==> TypedValue(f, vs[i])
    requires Countable(s.Look(), |EncEach(f, vs)|)
    modifies s, s.buf
    ensures Wrote(old(s.Look()), s.Look(), EncEach(f, vs), AllStorable(f, vs), ok)
    decreases f, 7
  {
    ghost var a, e := s.Look(), EncEach(f, vs);
    ghost var done := [];
    PartwayStart(a, e);
    assert vs[0..] == vs;
    for i := 0 to |vs|
      invariant Partway(a, e, done, EncEach(f, vs[i..])) && s.Look() == Put(a, done)
      invariant forall j :: 0 <= j < i ==> StorableValue(f, vs[j])
    {
      ghost var next, todo := EncTag(f.tag, WireType(f.ltype)) + EncValue(f, vs[i]), EncEach(f, vs[i + 1..]);
      EachStep(f, vs, i);
      PartwayCounts(a, e, done, next, todo);
      ok := EncodeBasic(f, vs[i], s);
      if !ok {
        PartwayFails(a, s.Look(), e, done, next, todo, StorableValue(f, vs[i]), AllStorable(f, vs));
        return;
      }
      PartwayStep(a, s.Look(), e, done, next, todo, StorableValue(f, vs[i]));
      done := done + next;
    }
    PartwayDone(a, e, done);
    ok := true;
  }

  /** encode_field, with encode_array. */
  method EncodeField(f: Field, slot: Slot, s: OStream) returns (ok: bool)
    requires s.Valid() && GoodField(f) && LaidField(f) && TypedSlot(f, slot) && Countable(s.Look(), |EncSlot(f, slot)|)
    modifies s, s.buf
    ensures Wrote(old(s.Look()), s.Look(), EncSlot(f, slot), StorableSlot(f, slot), ok)
    decreases f, 8
  {
    match slot
    case One(v) => ok := EncodeBasic(f, v, s);
    case Maybe(has, v) =>
      if has {
        ok := EncodeBasic(f, v, s);
      } else {
        ok := true;
      }
    case Many(vs) =>
      if |vs| == 0 {
        ok := true;
      } else if |vs| > f.arraySize {
        ok := false;
      } else if Packable(f.ltype) {
        ok := EncodePackedArray(f, vs, s);
      } else {
        ok := EncodeRecords(f, vs, s);
      }
  }

  // ----- messages -----

  /** The encoding from field k on. */
  function EncFrom(d: seq<Field>, m: seq<Slot>, k: nat): seq<byte>
    requires GoodDesc(d) && TypedMsg(d, m) && k <= |d|
    decreases |d| - k
  {
    if k == |d| then [] else EncSlot(d[k], m[k]) + EncFrom(d, m, k + 1)
  }

  lemma {:induction false} EncFromSuffix(d: seq<Field>, m: seq<Slot>, k: nat)
    requires GoodDesc(d) && TypedMsg(d, m) && k <= |d|
    ensures GoodDesc(d[k..]) && TypedMsg(d[k..], m[k..]) && EncFrom(d, m, k) == EncMsg(d[k..], m[k..])
    decreases |d| - k
  {
    if k < |d| {
      EncFromSuffix(d, m, k + 1);
      assert d[k..][1..] == d[k + 1..] && m[k..][1..] == m[k + 1..];
    }
  }

  /** The encoding of the first k fields. */
  function EncUpto(d: seq<Field>, m: seq<Slot>, k: nat): seq<byte>
    requires GoodDesc(d) && TypedMsg(d, m) && k <= |d|
  {
    if k == 0 then [] else EncUpto(d, m, k - 1) + EncSlot(d[k - 1], m[k - 1])
  }

  lemma {:induction false} UptoFrom(d: seq<Field>, m: seq<Slot>, k: nat)
    requires GoodDesc(d) && TypedMsg(d, m) && k <= |d|
    ensures EncUpto(d, m, k) + EncFrom(d, m, k) == EncMsg(d, m)
  {
    if k == 0 {
      EncFromSuffix(d, m, 0);
      assert d[0..] == d && m[0..] == m;
    } else {
      UptoFrom(d, m, k - 1);
      Associate(EncUpto(d, m, k - 1), EncSlot(d[k - 1], m[k - 1]), EncFrom(d, m, k));
    }
  }

  predicate Prefix(d: seq<Field>, m: seq<Slot>, k: nat)
    requires k <= |d| == |m|
  {
    k == 0 || (Prefix(d, m, k - 1) && StorableSlot(d[k - 1], m[k - 1]))
  }

  lemma {:induction false} PrefixIs(d: seq<Field>, m: seq<Slot>, k: nat)
    requires k <= |d| == |m|
    ensures Prefix(d, m, k) <==> forall j :: 0 <= j < k ==> StorableSlot(d[j], m[j])
  {
    if k > 0 {
      PrefixIs(d, m, k - 1);
    }
  }

  /** The first k fields are storable and have found room in the stream. */
  predicate Reached(d: seq<Field>, m: seq<Slot>, k: nat, a: View)
    requires GoodDesc(d) && TypedMsg(d, m) && k <= |d|
  {
    Prefix(d, m, k) && Room(a, |EncUpto(d, m, k)|)
  }

  lemma ReachedStep(d: seq<Field>, m: seq<Slot>, k: nat, a: View, b: View, ok: bool)
    requires GoodDesc(d) && TypedMsg(d, m) && k < |d| && Sound(a) && Countable(a, |EncMsg(d, m)|) && Reached(d, m, k, a)
    requires Wrote(Put(a, EncUpto(d, m, k)), b, EncSlot(d[k], m[k]), StorableSlot(d[k], m[k]), ok)
    ensures ok ==> Reached(d, m, k + 1, a) && b == Put(a, EncUpto(d, m, k + 1))
    ensures !ok ==> Wrote(a, b, EncMsg(d, m), StorableMsg(d, m), false)
  {
    var done, next, todo := EncUpto(d, m, k), EncSlot(d[k], m[k]), EncFrom(d, m, k + 1);
    UptoFrom(d, m, k);
    if ok {
      PutTwice(a, done, next);
    } else {
      PartwayFails(a, b, EncMsg(d, m), done, next, todo, StorableSlot(d[k], m[k]), StorableMsg(d, m));
    }
  }

  /** One pass of the loop in pb_encode. */
  method EncodeNext(d: seq<Field>, m: seq<Slot>, k: nat, s: OStream, ghost a: View) returns (ok: bool)
    requires GoodDesc(d) && LaidOut(d) && TypedMsg(d, m) && k < |d|
    requires Sound(a) && Countable(a, |EncMsg(d, m)|) && Reached(d, m, k, a) && s.Look() == Put(a, EncUpto(d, m, k))
    modifies s, s.buf
    ensures ok ==> Reached(d, m, k + 1, a) && s.Look() == Put(a, EncUpto(d, m, k + 1))
    ensures !ok ==> Wrote(a, s.Look(), EncMsg(d, m), StorableMsg(d, m), false)
    decreases d, 0
  {
    LaidIs(d, |d|);
    UptoFrom(d, m, k);
    ok := EncodeField(d[k], m[k], s);
    ReachedStep(d, m, k, a, s.Look(), ok);
  }

  /** The loop of pb_encode. */
  method EncodeFields(d: seq<Field>, m: seq<Slot>, s: OStream, ghost a: View) returns (ok: bool)
    requires d != [] && GoodDesc(d) && LaidOut(d) && TypedMsg(d, m)
    requires Sound(a) && Countable(a, |EncMsg(d, m)|) && Reached(d, m, 0, a) && s.Look() == Put(a, EncUpto(d, m, 0))
    modifies s, s.buf
    ensures ok ==> Reached(d, m, |d|, a) && s.Look() == Put(a, EncUpto(d, m, |d|))
    ensures !ok ==> Wrote(a, s.Look(), EncMsg(d, m), StorableMsg(d, m), false)
    decreases d, 1
  {
    hide EncUpto, Standing, StorableMsg, Put;
    var iter := StartWalk(d);
    var more := true;
    ghost var k := 0;
    while more
      invariant fresh(iter) && (more ==> Standing(iter, d) == k) && if more then k < |d| else k == |d|
      invariant Reached(d, m, k, a) && s.Look() == Put(a, EncUpto(d, m, k))
      decreases |d| - k
    {
      var index := IndexOf(iter, d);
      ok := EncodeNext(d, m, index, s, a);
      if !ok {
        return;
      }
      more := StepWalk(iter, d);
      k := k + 1;
    }
    ok := true;
  }

  /** pb_encode: succeeds exactly when the struct is storable and its encoding fits, and then writes
      that encoding and nothing else. */
  method EncodeMessage(d: seq<Field>, m: seq<Slot>, s: OStream) returns (ok: bool)
    requires s.Valid() && GoodDesc(d) && LaidOut(d) && TypedMsg(d, m) && Countable(s.Look(), |EncMsg(d, m)|)
    modifies s, s.buf
    ensures Wrote(old(s.Look()), s.Look(), EncMsg(d, m), StorableMsg(d, m), ok)
    decreases d, 2
  {
    if d == [] {
      return true;
    }
    ok := EncodeFields(d, m, s, s.Look());
    UptoFrom(d, m, |d|);
    PrefixIs(d, m, |d|);
    assert EncUpto(d, m, |d|) + [] == EncUpto(d, m, |d|);
  }

  /** pb_get_encoded_size. */
  method GetEncodedSize(d: seq<Field>, m: seq<Slot>) returns (ok: bool, size: nat)
    requires GoodDesc(d) && LaidOut(d) && TypedMsg(d, m) && |EncMsg(d, m)| < TWO_32
    ensures ok <==> StorableMsg(d, m)
    ensures ok ==> size == |EncMsg(d, m)|
  {
    var s := new OStream.Sizing();
    ok := EncodeMessage(d, m, s);
    size := s.bytesWritten;
  }

  /** A size first, then an encoding into a buffer of that size: it fits exactly, and what is in the
      buffer decodes to the message. */
  method EncodeToNewBuffer(d: seq<Field>, m: seq<Slot>) returns (ok: bool, data: array<byte>)
    requires GoodDesc(d) && LaidOut(d) && TypedMsg(d, m) && |EncMsg(d, m)| < TWO_32
    ensures ok <==> StorableMsg(d, m)
    ensures ok ==> data[..] == EncMsg(d, m) && Decode(d, data[..]) == Some(CleanMsg(d, m))
  {
    var size;
    ok, size := GetEncodedSize(d, m);
    data := new byte[if ok then size else 0];
    if ok {
      var s := new OStream(data, 0, size);
      PutIs(s.Look(), EncMsg(d, m));
      ok := EncodeMessage(d, m, s);
      DecodeInvertsEncode(d, m);
      assert data[..] == data[0..size];
    }
  }
}
