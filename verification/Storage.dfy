/** What the bytes of a struct mean: the C representation of every field at its place in the struct. */
module Storage {
  import opened Varint
  import opened Schema
  import opened Codec

  /** The bytes from an offset on; bytes that are not there read as zero. */
  function Slice(mem: seq<byte>, off: int, n: nat): (s: seq<byte>)
    ensures |s| == n
    decreases n
  {
    if n == 0 then [] else [if 0 <= off < |mem| then mem[off] else 0] + Slice(mem, off + 1, n - 1)
  }

  function From(mem: seq<byte>, off: nat): seq<byte> {
    if off <= |mem| then mem[off..] else []
  }

  /** The value of a field whose storage starts at the first byte. */
  function ReadValue(f: Field, mem: seq<byte>): Value
    decreases f, 0
  {
    match f.ltype
    case Bool => Flag(Slice(mem, 0, 1) != [0])
    case Signed | ZigZagged => Number(ToSigned(FixedDecode(Slice(mem, 0, f.dataSize)), Pow256(f.dataSize)))
    case Unsigned => Number(FixedDecode(Slice(mem, 0, f.dataSize)))
    case Fixed32 => Number(FixedDecode(Slice(mem, 0, 4)))
    case Fixed64 => Number(FixedDecode(Slice(mem, 0, 8)))
    case Bytes => Text(Slice(mem, BYTES_HEADER, FixedDecode(Slice(mem, 0, 2))))
    case String => Text(CString(Slice(mem, 0, f.dataSize)))
    case Submessage => Struct(ReadMsg(f.sub, mem))
    case FixedBytes => Text(Slice(mem, 0, f.dataSize))
  }

  function ReadItems(f: Field, mem: seq<byte>, n: nat): seq<Value>
    decreases f, 1, n
  {
    if n == 0 then [] else [ReadValue(f, mem)] + ReadItems(f, From(mem, f.dataSize), n - 1)
  }

  /** A field of a struct, with its has-flag or its 16-bit count before it. */
  function ReadSlot(f: Field, mem: seq<byte>): Slot
    decreases f, 2
  {
    var data, before := From(mem, f.layout.dataOffset), f.layout.dataOffset - f.layout.sizeOffset;
    match f.rule
    case Required => One(ReadValue(f, data))
    case Optional => Maybe(Slice(mem, before, 1) != [0], ReadValue(f, data))
    case Repeated => Many(ReadItems(f, data, FixedDecode(Slice(mem, before, 2))))
  }

  function ReadMsg(d: seq<Field>, mem: seq<byte>): seq<Slot>
    decreases d
  {
    if d == [] then [] else [ReadSlot(d[0], mem)] + ReadMsg(d[1..], mem)
  }

  // ----- storage that is all zeros -----

  predicate AllZero(mem: seq<byte>) {
    forall i :: 0 <= i < |mem| ==> mem[i] == 0
  }

  lemma {:induction false} ZeroSlice(mem: seq<byte>, off: int, n: nat)
    requires AllZero(mem)
    ensures Slice(mem, off, n) == Zeros(n)
    decreases n
  {
    if n > 0 {
      ZeroSlice(mem, off + 1, n - 1);
    }
  }

  lemma {:induction false} ZeroDecode(n: nat)
    ensures FixedDecode(Zeros(n)) == 0
  {
    if n > 0 {
      ZeroDecode(n - 1);
    }
  }

  lemma {:induction false} ZerosAreZero(n: nat)
    ensures AllZero(Zeros(n))
  {
    if n > 0 {
      ZerosAreZero(n - 1);
    }
  }

  /** Zeroed storage of any type, of any nesting depth, reads as the default of the type. */
  lemma {:induction false} ZeroValue(f: Field, mem: seq<byte>)
    requires AllZero(mem) && GoodField(f)
    ensures ReadValue(f, mem) == DefaultValue(f)
    decreases f, 0
  {
    ZeroSlice(mem, 0, 1);
    ZeroSlice(mem, 0, 2);
    ZeroSlice(mem, 0, 4);
    ZeroSlice(mem, 0, 8);
    ZeroSlice(mem, 0, f.dataSize);
    ZeroDecode(2);
    ZeroDecode(4);
    ZeroDecode(8);
    ZeroDecode(f.dataSize);
    Pow256Values();
    assert Zeros(1) == [0];
    assert CString(Zeros(f.dataSize)) == [];
    if f.ltype.Submessage? {
      ZeroMsg(f.sub, mem);
    }
  }

  lemma {:induction false} ZeroSlot(f: Field, mem: seq<byte>)
    requires AllZero(mem) && GoodField(f)
    ensures ReadSlot(f, mem) == DefaultSlot(f)
    decreases f, 2
  {
    var before := f.layout.dataOffset - f.layout.sizeOffset;
    ZeroSlice(mem, before, 1);
    ZeroSlice(mem, before, 2);
    ZeroDecode(2);
    assert Zeros(1) == [0];
    ZeroValue(f, From(mem, f.layout.dataOffset));
  }

  lemma {:induction false} ZeroMsg(d: seq<Field>, mem: seq<byte>)
    requires AllZero(mem) && GoodDesc(d)
    ensures ReadMsg(d, mem) == Default(d)
    decreases d
  {
    if d != [] {
      assert GoodField(d[0]) && GoodDesc(d[1..]) by {
        forall i | 0 <= i < |d|
          ensures GoodField(d[i])
        {
        }
      }
      ZeroSlot(d[0], mem);
      ZeroMsg(d[1..], mem);
    }
  }
}
