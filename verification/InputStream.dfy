/** pb_istream_t over a memory buffer, and the readers that move its cursor. Each reader is proved
    against the function on byte strings that says what it accepts and consumes. */
module InputStream {
  import opened Varint
  import opened Codec

  // ----- the shifts of the varint loops, on unbounded integers -----

  function Pow2(n: nat): (p: nat)
    ensures p > 0
  {
    if n == 0 then 1 else 2 * Pow2(n - 1)
  }

  /** x << n in an unsigned type with this modulus. */
  function ShiftLeft(x: nat, n: nat, modulus: nat): (y: nat)
    requires modulus > 0
    ensures y < modulus
  {
    x * Pow2(n) % modulus
  }

  lemma {:induction false} Pow2By7(k: nat)
    ensures Pow2(7 * k) == Pow128(k)
  {
    if k > 0 {
      Pow2By7(k - 1);
      var n := 7 * (k - 1);
      assert Pow2(n + 1) == 2 * Pow2(n);
      assert Pow2(n + 2) == 4 * Pow2(n);
      assert Pow2(n + 3) == 8 * Pow2(n);
      assert Pow2(n + 4) == 16 * Pow2(n);
      assert Pow2(n + 5) == 32 * Pow2(n);
      assert Pow2(n + 6) == 64 * Pow2(n);
      assert Pow2(n + 7) == 128 * Pow2(n);
    }
  }

  lemma ValueNext(s: seq<byte>, k: nat)
    requires k < |s|
    ensures Value(s[..k + 1]) == Value(s[..k]) + Pow128(k) * (s[k] % 128)
  {
    assert s[..k + 1] == s[..k] + [s[k]];
    ValueAppend(s[..k], [s[k]]);
    assert Value([s[k]]) == s[k] % 128 by {
      assert [s[k]][1..] == [];
    }
  }

  lemma {:induction false} Pow128Monotone(a: nat, b: nat)
    requires a <= b
    ensures Pow128(a) <= Pow128(b)
    decreases b
  {
    if a < b {
      Pow128Monotone(a, b - 1);
    }
  }

  lemma SumFits(low: nat, g: nat, p: nat, modulus: nat)
    requires low + p * g < modulus
    ensures low + g * p % modulus == (low + p * g) % modulus
  {
    assert g * p == p * g;
    Small(g * p, modulus);
    Small(low + p * g, modulus);
  }

  lemma Small(x: nat, modulus: nat)
    requires x < modulus
    ensures x % modulus == x
  {
  }

  lemma LastGroup64(low: nat, g: nat)
    requires low < TWO_63
    ensures low + g * TWO_63 % TWO_64 == (low + TWO_63 * g) % TWO_64
  {
    var k, r := g / 2, g % 2;
    Divide(g * TWO_63, TWO_64, k, r * TWO_63);
    Divide(low + TWO_63 * g, TWO_64, k, low + r * TWO_63);
  }

  lemma LastGroup32(low: nat, g: nat)
    requires low < 0x1000_0000
    ensures low + g * 0x1000_0000 % TWO_32 == (low + 0x1000_0000 * g) % TWO_32
  {
    var k, r := g / 16, g % 16;
    Divide(g * 0x1000_0000, TWO_32, k, r * 0x1000_0000);
    Divide(low + 0x1000_0000 * g, TWO_32, k, low + r * 0x1000_0000);
  }

  /** Or-ing the next group into an accumulator: the set bits do not meet, so it is a sum, and only
      the last group that starts inside the word loses bits. */
  lemma Accumulate64(s: seq<byte>, k: nat)
    requires k < |s| && k < 10
    ensures Value(s[..k]) < TWO_63
    ensures Value(s[..k]) + ShiftLeft(s[k] % 128, 7 * k, TWO_64) == Value(s[..k + 1]) % TWO_64
  {
    ValueNext(s, k);
    ValueBound(s[..k]);
    Pow2By7(k);
    Pow128Values();
    Pow128Monotone(k, 9);
    if k == 9 {
      LastGroup64(Value(s[..9]), s[9] % 128);
    } else {
      Pow128Monotone(k + 1, 9);
      ValueBound(s[..k + 1]);
      SumFits(Value(s[..k]), s[k] % 128, Pow128(k), TWO_64);
    }
  }

  lemma Accumulate32(s: seq<byte>, k: nat)
    requires k < |s| && k < 5
    ensures Value(s[..k]) < 0x1000_0000
    ensures Value(s[..k]) + ShiftLeft(s[k] % 128, 7 * k, TWO_32) == Value(s[..k + 1]) % TWO_32
  {
    ValueNext(s, k);
    ValueBound(s[..k]);
    Pow2By7(k);
    Pow128Values();
    Pow128Monotone(k, 4);
    if k == 4 {
      LastGroup32(Value(s[..4]), s[4] % 128);
    } else {
      Pow128Monotone(k + 1, 4);
      ValueBound(s[..k + 1]);
      SumFits(Value(s[..k]), s[k] % 128, Pow128(k), TWO_32);
    }
  }

  /** The first n bytes all announce another byte. */
  predicate Continues(s: seq<byte>, n: nat) {
    n <= |s| && forall i :: 0 <= i < n ==> s[i] >= 128
  }

  lemma RunOf(s: seq<byte>, n: nat)
    requires Continues(s, n)
    ensures Run(s) >= n
    ensures n < |s| && s[n] < 128 ==> Run(s) == n
  {
  }

  /** What the 32-bit reader has after k bytes: the low 32 bits, and nothing to object to. */
  predicate Gathered32(s: seq<byte>, k: nat, result: nat)
    requires k <= |s|
  {
    result == Value(if k < 5 then s[..k] else s[..5]) % TWO_32 &&
    forall i :: 5 <= i < k ==> Extends(s[i], i, Value(s[..5]) % TWO_32)
  }

  lemma GatherLow(s: seq<byte>, k: nat, result: nat)
    requires k < |s| && k < 5 && Gathered32(s, k, result)
    ensures Gathered32(s, k + 1, result + ShiftLeft(s[k] % 128, 7 * k, TWO_32))
  {
    Accumulate32(s, k);
    Small(Value(s[..k]), TWO_32);
  }

  lemma GatherHigh(s: seq<byte>, k: nat, result: nat)
    requires 5 <= k < |s| && Gathered32(s, k, result) && Extends(s[k], k, result)
    ensures Gathered32(s, k + 1, result)
  {
  }

  /** A byte past the fifth that is neither padding nor sign extension is fatal, and so is an
      eleventh byte. */
  lemma Rejects32(s: seq<byte>, k: nat)
    requires 5 <= k < |s| && Continues(s, k)
    requires k >= 10 || !Extends(s[k], k, Value(s[..5]) % TWO_32)
    ensures Decode32(s) == Fail
  {
    RunOf(s, k);
    var n := Run(s);
    if n < |s| && n < 10 {
      var w := s[..n + 1];
      assert w[..5] == s[..5] && w[k] == s[k];
    }
  }

  /** Otherwise the top bits of a final fifth byte decide. */
  lemma Decides32(s: seq<byte>, k: nat)
    requires 0 < k <= |s| && k <= 10 && Continues(s, k - 1) && s[k - 1] < 128
    requires forall i :: 5 <= i < k ==> Extends(s[i], i, Value(s[..5]) % TWO_32)
    ensures Decode32(s) ==
            if k == 5 && s[4] % 128 / 16 != 0 then Fail
            else Got(Value(if k < 5 then s[..k] else s[..5]) % TWO_32, k)
  {
    RunOf(s, k - 1);
    var w := s[..k];
    if k >= 5 {
      assert w[..5] == s[..5];
    }
    assert forall i :: 0 <= i < k ==> w[i] == s[i];
  }

  class IStream {
    const buf: seq<byte>
    /** `state`: the position of the next byte. */
    var pos: nat
    var bytesLeft: nat

    ghost predicate Valid()
      reads this
    {
      pos + bytesLeft <= |buf|
    }

    /** What is still to be read. */
    ghost function Rest(): seq<byte>
      requires Valid()
      reads this
    {
      buf[pos..pos + bytesLeft]
    }

    /** state + bytes_left, which every reader keeps. */
    ghost function End(): nat
      reads this
    {
      pos + bytesLeft
    }

    constructor (data: seq<byte>, start: nat, length: nat)
      requires start + length <= |data|
      ensures Valid() && buf == data && pos == start && bytesLeft == length
      ensures Rest() == data[start..start + length]
    {
      buf := data;
      pos := start;
      bytesLeft := length;
    }

    /** pb_read. */
    method Read(count: nat) returns (ok: bool, data: seq<byte>)
      requires Valid()
      modifies this
      ensures Valid() && End() == old(End())
      ensures ok <==> count <= |old(Rest())|
      ensures ok ==> data == old(Rest())[..count] && Rest() == old(Rest())[count..]
    {
      data := [];
      if count == 0 {
        return true, data;
      }
      if bytesLeft < count {
        return false, data;
      }
      data := buf[pos..pos + count];
      pos := pos + count;
      bytesLeft := bytesLeft - count;
      ok := true;
    }

    method ReadByte() returns (ok: bool, b: byte)
      requires Valid()
      modifies this
      ensures Valid() && End() == old(End())
      ensures ok <==> old(Rest()) != []
      ensures ok ==> b == old(Rest())[0] && Rest() == old(Rest())[1..] && bytesLeft + 1 == old(bytesLeft)
      ensures !ok ==> Rest() == old(Rest())
    {
      if bytesLeft == 0 {
        return false, 0;
      }
      b := buf[pos];
      pos := pos + 1;
      bytesLeft := bytesLeft - 1;
      ok := true;
    }

    /** pb_decode_varint. */
    method DecodeVarint() returns (ok: bool, v: nat)
      requires Valid()
      modifies this
      ensures Valid() && End() == old(End())
      ensures Agrees(Decode64(old(Rest())), old(Rest()), ok, v, Rest())
    {
      ghost var s := Rest();
      var bitpos, result, more := 0, 0, true;
      v := 0;
      ghost var k := 0;
      while more
        invariant Valid() && End() == old(End())
        invariant k <= |s| && k <= 10 && bitpos == 7 * k && Rest() == s[k..]
        invariant if more then Continues(s, k) else k > 0 && Continues(s, k - 1) && s[k - 1] < 128
        invariant result == Value(s[..k]) % TWO_64
        decreases bytesLeft, more
      {
        if bitpos >= 64 {
          RunOf(s, k);
          return false, 0;
        }
        var got, b := ReadByte();
        if !got {
          RunOf(s, k);
          return false, 0;
        }
        assert b == s[k];
        Accumulate64(s, k);
        result := result + ShiftLeft(b % 128, bitpos, TWO_64);
        bitpos := bitpos + 7;
        more := b >= 128;
        k := k + 1;
      }
      RunOf(s, k - 1);
      v := result;
      ok := true;
    }

    /** pb_decode_varint32_eof. */
    method DecodeVarint32() returns (ok: bool, v: nat, eof: bool)
      requires Valid()
      modifies this
      ensures Valid() && End() == old(End())
      ensures Agrees(Decode32(old(Rest())), old(Rest()), ok, v, Rest())
      ensures eof <==> old(Rest()) == []
    {
      ghost var s := Rest();
      var got, b := ReadByte();
      eof := !got && bytesLeft == 0;
      v := 0;
      if !got {
        return false, 0, eof;
      }
      Accumulate32(s, 0);
      assert Value(s[..0]) == 0 && ShiftLeft(b % 128, 0, TWO_32) == b % 128;
      if b < 128 {
        Decides32(s, 1);
        v := b;
        return true, v, eof;
      }
      ok, v := DecodeMultibyte32(b, s);
    }

    /** The multibyte case of pb_decode_varint32_eof, after the first byte. */
    method DecodeMultibyte32(first: byte, ghost s: seq<byte>) returns (ok: bool, v: nat)
      requires Valid() && s != [] && s[0] == first >= 128 && Rest() == s[1..]
      requires Value(s[..1]) % TWO_32 == first % 128
      modifies this
      ensures Valid() && End() == old(End())
      ensures Agrees(Decode32(s), s, ok, v, Rest())
    {
      v := 0;
      var b, bitpos, more := first, 7, true;
      var result: nat := first % 128;
      ghost var k := 1;
      while more
        invariant Valid() && End() == old(End())
        invariant 1 <= k <= |s| && k <= 10 && bitpos == 7 * k && Rest() == s[k..]
        invariant if more then Continues(s, k) else Continues(s, k - 1) && s[k - 1] < 128
        invariant Gathered32(s, k, result)
        invariant b == s[k - 1]
        decreases bytesLeft, more
      {
        var got;
        got, b := ReadByte();
        if !got {
          RunOf(s, k);
          return false, 0;
        }
        assert b == s[k];
        if bitpos >= 32 {
          var signExtension: byte := if bitpos < 63 then 0xFF else 0x01;
          var validExtension := b % 128 == 0 || (result >= TWO_31 && b == signExtension);
          if bitpos >= 64 || !validExtension {
            Rejects32(s, k);
            return false, 0;
          }
          GatherHigh(s, k, result);
        } else {
          GatherLow(s, k, result);
          result := result + ShiftLeft(b % 128, bitpos, TWO_32);
        }
        bitpos := bitpos + 7;
        more := b >= 128;
        k := k + 1;
      }
      Decides32(s, k);
      if bitpos == 35 && b % 128 / 16 != 0 {
        return false, 0;
      }
      v := result;
      ok := true;
    }

    /** pb_decode_tag. */
    method DecodeTag() returns (ok: bool, tag: nat, wireType: nat, eof: bool)
      requires Valid()
      modifies this
      ensures Valid() && End() == old(End())
      ensures Agrees(DecTag(old(Rest())), old(Rest()), ok, (tag, wireType), Rest())
      ensures eof <==> old(Rest()) == []
    {
      tag, wireType := 0, 0;
      var v;
      ok, v, eof := DecodeVarint32();
      if ok {
        tag, wireType := v / 8, v % 8;
      }
    }

    /** pb_skip_varint: no limit on the length. */
    method SkipVarint() returns (ok: bool)
      requires Valid()
      modifies this
      ensures Valid() && End() == old(End())
      ensures ok <==> Run(old(Rest())) < |old(Rest())|
      ensures ok ==> Rest() == old(Rest())[Run(old(Rest())) + 1..]
    {
      ghost var s := Rest();
      ghost var k := 0;
      var more := true;
      while more
        invariant Valid() && End() == old(End())
        invariant k <= |s| && Rest() == s[k..]
        invariant if more then Continues(s, k) else k > 0 && Continues(s, k - 1) && s[k - 1] < 128
        decreases bytesLeft, more
      {
        var got, data := Read(1);
        if !got {
          RunOf(s, k);
          return false;
        }
        assert data[0] == s[k];
        more := data[0] >= 128;
        k := k + 1;
      }
      RunOf(s, k - 1);
      ok := true;
    }

    /** pb_make_string_substream. The parent's cursor stays at the payload until the substream is
        closed; its bytes_left already excludes the payload. */
    method MakeStringSubstream() returns (ok: bool, sub: IStream)
      requires Valid()
      modifies this
      ensures ok <==> DecString(old(Rest())).Got?
      ensures fresh(sub) && sub.Valid() && sub.buf == buf
      ensures Valid()
      ensures ok ==> sub.Rest() == DecString(old(Rest())).value && sub.pos == pos
      ensures ok ==> sub.End() + bytesLeft == old(End())
      ensures ok ==> bytesLeft + DecString(old(Rest())).used == old(bytesLeft)
      ensures !ok ==> End() == old(End())
    {
      ghost var s := Rest();
      var size, eof;
      ok, size, eof := DecodeVarint32();
      sub := new IStream(buf, pos, bytesLeft);
      if !ok {
        return;
      }
      ghost var n := Decode32(s).used;
      assert sub.Rest() == s[n..];
      if sub.bytesLeft < size {
        return false, sub;
      }
      sub.bytesLeft := size;
      bytesLeft := bytesLeft - size;
      assert sub.Rest() == s[n..][..size] == s[n..n + size];
    }

    /** pb_close_string_substream: skips what is left of the payload and moves the parent past it, so
        that state + bytes_left is what it was before the substream was opened. */
    method CloseStringSubstream(sub: IStream)
      requires sub != this && sub.Valid() && sub.buf == buf && sub.End() + bytesLeft <= |buf|
      modifies this, sub
      ensures Valid() && bytesLeft == old(bytesLeft) && pos == old(sub.End())
    {
      if sub.bytesLeft != 0 {
        var ok, data := sub.Read(sub.bytesLeft);
      }
      pos := sub.pos;
    }

    method SkipString() returns (ok: bool)
      requires Valid()
      modifies this
      ensures Valid() && End() == old(End())
      ensures ok <==> DecString(old(Rest())).Got?
      ensures ok ==> Rest() == old(Rest())[DecString(old(Rest())).used..]
    {
      var length, eof, data;
      ok, length, eof := DecodeVarint32();
      if ok {
        ok, data := Read(length);
      }
    }

    /** pb_skip_field. */
    method SkipField(wireType: nat) returns (ok: bool)
      requires Valid()
      modifies this
      ensures Valid() && End() == old(End())
      ensures Agrees(Skip(wireType, old(Rest())), old(Rest()), ok, (), Rest())
    {
      var data;
      if wireType == PB_WT_VARINT {
        ok := SkipVarint();
      } else if wireType == PB_WT_64BIT {
        ok, data := Read(8);
      } else if wireType == PB_WT_STRING {
        ok := SkipString();
      } else if wireType == PB_WT_32BIT {
        ok, data := Read(4);
      } else {
        ok := false;
      }
    }
  }
}
