/** Packed field tables (the PB_FIELDINFO macros of pb.h) and the iterator of pb_common.c that walks
    and searches them. Masks and shifts are written as remainders, products and quotients. */
module FieldIter {
  import opened Varint
  import opened Schema

  // ----- the type byte -----

  const PB_LTYPE_SUBMESSAGE: nat := 0x08
  const PB_LTYPE_SUBMSG_W_CB: nat := 0x09
  const PB_LTYPE_EXTENSION: nat := 0x0A
  const PB_HTYPE_REQUIRED: nat := 0x00
  const PB_HTYPE_REPEATED: nat := 0x20
  const PB_ATYPE_CALLBACK: nat := 0x40

  function PbLType(t: nat): nat {
    t % 16
  }

  function PbHType(t: nat): nat {
    t / 16 % 4 * 16
  }

  function PbAType(t: nat): nat {
    t / 64 % 4 * 64
  }

  predicate IsSubmsg(t: nat) {
    PbLType(t) == PB_LTYPE_SUBMESSAGE || PbLType(t) == PB_LTYPE_SUBMSG_W_CB
  }

  // ----- packing -----

  function Words(w: Width): (n: nat)
    ensures n > 0
  {
    match w case W1 => 1 case W2 => 2 case W4 => 4 case W8 => 8
  }

  datatype Info = Info(
    tag: nat, ftype: nat, dataOffset: nat, dataSize: nat, sizeOffset: nat, arraySize: nat, width: Width)

  /** PB_FIELDINFO_ASSERT_1/2/4/8: the entry fits its width. The one-word form has no room for an
      array size, which is then one. */
  predicate Fits(i: Info) {
    0 < i.tag && i.ftype < 256 &&
    match i.width
    case W1 => i.tag < 64 && i.dataOffset < 256 && i.sizeOffset < 16 && i.dataSize < 16 && i.arraySize == 1
    case W2 => i.tag < 1024 && i.dataOffset < 0x1_0000 && i.sizeOffset < 16 && i.dataSize < 4096 && i.arraySize < 4096
    case W4 => i.tag < 0x1_0000 && i.dataOffset < 0x1_0000 && i.sizeOffset < 128 && i.dataSize < 0x1_0000 && i.arraySize < 0x1_0000
    case W8 => i.tag < 0x1_0000 && i.dataOffset < 0x1_0000 && i.sizeOffset < 128 && i.dataSize < 0x1_0000 && i.arraySize < 0x1_0000
  }

  /** PB_FIELDINFO_1/2/4/8. */
  function Pack(i: Info): (ws: seq<nat>)
    ensures |ws| == Words(i.width)
  {
    var low := i.tag * 4 % 256 + i.ftype * 256;
    var high := i.sizeOffset % 256 + i.tag / 64 * 256;
    match i.width
    case W1 => [0 + low + i.dataOffset % 256 * 0x1_0000 + i.sizeOffset % 16 * 0x100_0000 + i.dataSize % 16 * 0x1000_0000]
    case W2 =>
      [1 + low + i.arraySize % 4096 * 0x1_0000 + i.sizeOffset % 16 * 0x1000_0000,
       i.dataOffset % 0x1_0000 + i.dataSize % 4096 * 0x1_0000 + i.tag / 64 % 16 * 0x1000_0000]
    case W4 => [2 + low + i.arraySize % 0x1_0000 * 0x1_0000, high, i.dataOffset, i.dataSize]
    case W8 => [3 + low, high, i.dataOffset, i.dataSize, i.arraySize, 0, 0, 0]
  }

  /** What load_descriptor_values reads back from an entry starting at word p. */
  function Unpack(ws: seq<nat>, p: nat): Info
    requires p + 8 <= |ws| || (p < |ws| && p + Words(WidthOf(ws[p])) <= |ws|)
  {
    var w0 := ws[p];
    var ftype := w0 / 256 % 256;
    match WidthOf(w0)
    case W1 =>
      Info(w0 / 4 % 64, ftype, w0 / 0x1_0000 % 256, w0 / 0x1000_0000 % 16, w0 / 0x100_0000 % 16, 1, W1)
    case W2 =>
      var w1 := ws[p + 1];
      Info(w0 / 4 % 64 + w1 / 0x1000_0000 * 64, ftype, w1 % 0x1_0000, w1 / 0x1_0000 % 4096,
           w0 / 0x1000_0000 % 16, w0 / 0x1_0000 % 4096, W2)
    case W4 =>
      Info(w0 / 4 % 64 + ws[p + 1] / 256 * 64, ftype, ws[p + 2], ws[p + 3], ws[p + 1] % 256, w0 / 0x1_0000, W4)
    case W8 =>
      Info(w0 / 4 % 64 + ws[p + 1] / 256 * 64, ftype, ws[p + 2], ws[p + 3], ws[p + 1] % 256, ws[p + 4], W8)
  }

  function WidthOf(w0: nat): Width {
    match w0 % 4 case 0 => W1 case 1 => W2 case 2 => W4 case _ => W8
  }

  /** A word is its parts: two bits, six bits, eight bits, and the upper half. */
  lemma Halves(a: nat, b: nat, c: nat, e: nat)
    requires a < 4 && b < 64 && c < 256
    ensures var w := a + 4 * b + 256 * c + 0x1_0000 * e;
            w % 4 == a && w / 4 % 64 == b && w / 256 % 256 == c && w / 0x1_0000 == e
  {
    var w := a + 4 * b + 256 * c + 0x1_0000 * e;
    Divide(w, 4, b + 64 * (c + 256 * e), a);
    Divide(w / 4, 64, c + 256 * e, b);
    Divide(w, 256, c + 256 * e, a + 4 * b);
    Divide(w / 256, 256, e, c);
    Divide(w, 0x1_0000, e, a + 4 * b + 256 * c);
  }

  lemma UpperOne(w: nat, x: nat, y: nat, z: nat)
    requires w / 0x1_0000 == x + 256 * y + 4096 * z && x < 256 && y < 16 && z < 16
    ensures w / 0x1_0000 % 256 == x && w / 0x100_0000 % 16 == y && w / 0x1000_0000 % 16 == z
  {
    assert w / 0x100_0000 == y + 16 * z;
    assert w / 0x1000_0000 == z;
  }

  lemma UpperTwo(w: nat, x: nat, y: nat)
    requires w / 0x1_0000 == x + 4096 * y && x < 4096 && y < 16
    ensures w / 0x1_0000 % 4096 == x && w / 0x1000_0000 == y
  {
  }

  lemma TagParts(tag: nat)
    ensures tag * 4 % 256 == tag % 64 * 4
    ensures tag == tag % 64 + tag / 64 * 64
  {
  }

  /** The upper half of the first word. */
  function Upper(i: Info): nat {
    match i.width
    case W1 => i.dataOffset % 256 + 256 * (i.sizeOffset % 16) + 4096 * (i.dataSize % 16)
    case W2 => i.arraySize % 4096 + 4096 * (i.sizeOffset % 16)
    case W4 => i.arraySize % 0x1_0000
    case W8 => 0
  }

  /** The bits every format has in its first word: length, low tag bits, type. */
  lemma FirstWord(i: Info)
    requires Fits(i)
    ensures WidthOf(Pack(i)[0]) == i.width
    ensures Pack(i)[0] / 256 % 256 == i.ftype
    ensures Pack(i)[0] / 4 % 64 == i.tag % 64
    ensures Pack(i)[0] / 0x1_0000 == Upper(i)
  {
    TagParts(i.tag);
    var bits := match i.width case W1 => 0 case W2 => 1 case W4 => 2 case W8 => 3;
    Halves(bits, i.tag % 64, i.ftype, Upper(i));
    assert Pack(i)[0] == bits + 4 * (i.tag % 64) + 256 * i.ftype + 0x1_0000 * Upper(i);
  }

  lemma UnpackOne(i: Info)
    requires Fits(i) && i.width.W1?
    ensures WidthOf(Pack(i)[0]) == W1 && Unpack(Pack(i), 0) == i
  {
    FirstWord(i);
    assert i.tag % 64 == i.tag;
    assert Upper(i) == i.dataOffset + 256 * i.sizeOffset + 4096 * i.dataSize;
    UpperOne(Pack(i)[0], i.dataOffset, i.sizeOffset, i.dataSize);
    hide Pack, Upper;
  }

  /** The second word of the two-word format. */
  lemma SecondWord(i: Info)
    requires Fits(i) && i.width.W2?
    ensures var w := Pack(i)[1];
            w % 0x1_0000 == i.dataOffset && w / 0x1_0000 % 4096 == i.dataSize && w / 0x1000_0000 == i.tag / 64
  {
    var w := Pack(i)[1];
    assert w == i.dataOffset + 0x1_0000 * (i.dataSize + 4096 * (i.tag / 64));
    hide Pack, Fits;
    Divide(w, 0x1_0000, i.dataSize + 4096 * (i.tag / 64), i.dataOffset);
    UpperTwo(w, i.dataSize, i.tag / 64);
  }

  lemma UnpackTwo(i: Info)
    requires Fits(i) && i.width.W2?
    ensures WidthOf(Pack(i)[0]) == W2 && Unpack(Pack(i), 0) == i
  {
    FirstWord(i);
    SecondWord(i);
    TagParts(i.tag);
    assert Upper(i) == i.arraySize + 4096 * i.sizeOffset;
    UpperTwo(Pack(i)[0], i.arraySize, i.sizeOffset);
    hide Pack, Upper;
  }

  lemma UnpackMany(i: Info)
    requires Fits(i) && (i.width.W4? || i.width.W8?)
    ensures WidthOf(Pack(i)[0]) == i.width && Unpack(Pack(i), 0) == i
  {
    FirstWord(i);
    TagParts(i.tag);
    var w1 := Pack(i)[1];
    assert w1 == i.sizeOffset + 256 * (i.tag / 64);
    assert w1 % 256 == i.sizeOffset && w1 / 256 == i.tag / 64;
  }

  /** Unpacking inverts packing for every entry that fits its width. */
  lemma UnpackInvertsPack(i: Info)
    requires Fits(i)
    ensures WidthOf(Pack(i)[0]) == i.width
    ensures Unpack(Pack(i), 0) == i
  {
    match i.width
    case W1 => UnpackOne(i);
    case W2 => UnpackTwo(i);
    case W4 => UnpackMany(i);
    case W8 => UnpackMany(i);
  }

  /** The words of an entry, bit by bit as pb.h tabulates them: width code, tag, type, and the offsets and sizes of
      each format. */
  lemma FirstWordBits(i: Info)
    requires Fits(i)
    ensures var w := Pack(i)[0];
            w % 4 == (match i.width case W1 => 0 case W2 => 1 case W4 => 2 case W8 => 3) &&
            w / 4 % 64 == i.tag % 64 && w / 0x100 % 256 == i.ftype &&
            match i.width
            case W1 => w / 0x1_0000 % 256 == i.dataOffset && w / 0x100_0000 % 16 == i.sizeOffset && w / 0x1000_0000 == i.dataSize
            case W2 => w / 0x1_0000 % 4096 == i.arraySize && w / 0x1000_0000 == i.sizeOffset
            case W4 => w / 0x1_0000 == i.arraySize
            case W8 => w / 0x1_0000 == 0
  {
    FirstWord(i);
    UpperIs(i);
    var w := Pack(i)[0];
    hide Pack, Upper, Fits;
    match i.width
    case W1 => TopOne(w, i.dataOffset, i.sizeOffset, i.dataSize);
    case W2 => UpperTwo(w, i.arraySize, i.sizeOffset);
    case _ =>
  }

  lemma UpperIs(i: Info)
    requires Fits(i)
    ensures match i.width
            case W1 =>
              Upper(i) == i.dataOffset + 256 * i.sizeOffset + 4096 * i.dataSize &&
              i.dataOffset < 256 && i.sizeOffset < 16 && i.dataSize < 16
            case W2 => Upper(i) == i.arraySize + 4096 * i.sizeOffset && i.arraySize < 4096 && i.sizeOffset < 16
            case W4 => Upper(i) == i.arraySize
            case W8 => Upper(i) == 0
  {
    match i.width
    case W1 =>
      SmallRemainder(i.dataOffset, 256);
      SmallRemainder(i.sizeOffset, 16);
      SmallRemainder(i.dataSize, 16);
    case W2 =>
      SmallRemainder(i.arraySize, 4096);
      SmallRemainder(i.sizeOffset, 16);
    case W4 => SmallRemainder(i.arraySize, 0x1_0000);
    case W8 =>
  }

  lemma SmallRemainder(x: nat, m: nat)
    requires x < m
    ensures x % m == x
  {
  }

  lemma TopOne(w: nat, x: nat, y: nat, z: nat)
    requires w / 0x1_0000 == x + 256 * y + 4096 * z && x < 256 && y < 16 && z < 16
    ensures w / 0x1_0000 % 256 == x && w / 0x100_0000 % 16 == y && w / 0x1000_0000 == z
  {
    UpperOne(w, x, y, z);
  }

  /** The other words. */
  lemma LaterWordBits(i: Info)
    requires Fits(i) && !i.width.W1?
    ensures var w := Pack(i);
            if i.width.W2? then
              |w| == 2 && w[1] % 0x1_0000 == i.dataOffset && w[1] / 0x1_0000 % 4096 == i.dataSize && w[1] / 0x1000_0000 == i.tag / 64
            else
              w[1] % 256 == i.sizeOffset && w[1] / 256 == i.tag / 64 &&
              w[2..] == [i.dataOffset, i.dataSize] + if i.width.W4? then [] else [i.arraySize, 0, 0, 0]
  {
    if i.width.W2? {
      SecondWord(i);
      hide Pack;
    } else {
      ManyWords(i);
    }
  }

  lemma ManyWords(i: Info)
    requires Fits(i) && (i.width.W4? || i.width.W8?)
    ensures Pack(i)[1] % 256 == i.sizeOffset && Pack(i)[1] / 256 == i.tag / 64
  {
    assert Pack(i)[1] == i.sizeOffset + 256 * (i.tag / 64);
  }

  // ----- tables -----

  /** PB_BIND: the entries one after the other, and a zero. */
  function Table(xs: seq<Info>): seq<nat> {
    if xs == [] then [0] else Pack(xs[0]) + Table(xs[1..])
  }

  predicate GoodEntry(xs: seq<Info>, k: nat)
    requires k < |xs|
  {
    Fits(xs[k]) && PbLType(xs[k].ftype) != PB_LTYPE_EXTENSION
  }

  predicate InOrder(xs: seq<Info>, j: nat, k: nat)
    requires j < k < |xs|
  {
    xs[j].tag < xs[k].tag
  }

  /** Strictly ascending tags, no extension placeholder, and every entry starts at a word that the 16-bit
      field_info_index can name. */
  predicate GoodTable(xs: seq<Info>) {
    |xs| < PB_SIZE_MAX && IndexFits(xs) &&
    (forall k :: 0 <= k < |xs| ==> GoodEntry(xs, k)) &&
    forall j, k :: 0 <= j < k < |xs| ==> InOrder(xs, j, k)
  }

  function WordsBefore(xs: seq<Info>, k: nat): nat
    requires k <= |xs|
  {
    if k == 0 then 0 else WordsBefore(xs, k - 1) + Words(xs[k - 1].width)
  }

  function RequiredInfosBefore(xs: seq<Info>, k: nat): nat
    requires k <= |xs|
  {
    if k == 0 then 0
    else RequiredInfosBefore(xs, k - 1) + if PbHType(xs[k - 1].ftype) == PB_HTYPE_REQUIRED then 1 else 0
  }

  function SubmsgsBefore(xs: seq<Info>, k: nat): nat
    requires k <= |xs|
  {
    if k == 0 then 0 else SubmsgsBefore(xs, k - 1) + if IsSubmsg(xs[k - 1].ftype) then 1 else 0
  }

  /** The last entry, and so every entry, starts within 16 bits. */
  predicate IndexFits(xs: seq<Info>) {
    xs != [] ==> WordsBefore(xs, |xs| - 1) <= PB_SIZE_MAX
  }

  lemma {:induction false} WordsGrow(xs: seq<Info>, j: nat, k: nat)
    requires j <= k <= |xs|
    ensures WordsBefore(xs, j) <= WordsBefore(xs, k)
  {
    if j < k {
      WordsGrow(xs, j, k - 1);
    }
  }

  /** The index the code keeps: a pb_size_t, cast after every addition. */
  function WalkIndex(xs: seq<Info>, k: nat): nat
    requires k <= |xs|
  {
    if k == 0 then 0 else (WalkIndex(xs, k - 1) + Words(xs[k - 1].width)) % (PB_SIZE_MAX + 1)
  }

  lemma {:induction false} WalkIndexWraps(xs: seq<Info>, k: nat)
    requires k <= |xs|
    ensures WalkIndex(xs, k) == WordsBefore(xs, k) % (PB_SIZE_MAX + 1)
  {
    if k > 0 {
      WalkIndexWraps(xs, k - 1);
      var a, w, m := WordsBefore(xs, k - 1), Words(xs[k - 1].width), PB_SIZE_MAX + 1;
      AddModulo(a, w, m);
    }
  }

  lemma AddModulo(a: nat, w: nat, m: nat)
    requires m > 0
    ensures (a % m + w) % m == (a + w) % m
  {
    var q, r := (a % m + w) / m, (a % m + w) % m;
    assert a == m * (a / m) + a % m;
    assert a % m + w == m * q + r;
    assert m * (a / m) + m * q == m * (a / m + q);
    Divide(a + w, m, a / m + q, r);
  }

  /** The walk is at every entry's own words exactly if the last entry starts within 16 bits. */
  lemma WalkIsExact(xs: seq<Info>)
    ensures (forall k :: 0 <= k < |xs| ==> WalkIndex(xs, k) == WordsBefore(xs, k)) <==> IndexFits(xs)
  {
    if IndexFits(xs) {
      forall k | 0 <= k < |xs|
        ensures WalkIndex(xs, k) == WordsBefore(xs, k)
      {
        WordsGrow(xs, k, |xs| - 1);
        WalkIndexWraps(xs, k);
      }
    } else {
      WalkIndexWraps(xs, |xs| - 1);
      assert WalkIndex(xs, |xs| - 1) != WordsBefore(xs, |xs| - 1);
    }
  }

  lemma {:induction false} CountsBelow(xs: seq<Info>, k: nat)
    requires k <= |xs|
    ensures RequiredInfosBefore(xs, k) <= k && SubmsgsBefore(xs, k) <= k
  {
    if k > 0 {
      CountsBelow(xs, k - 1);
    }
  }

  /** A cast to pb_size_t. */
  function Cast(x: nat): nat {
    x % (PB_SIZE_MAX + 1)
  }

  /** Where pSize points: nowhere, at the iterator's own array size (fixed-count arrays), or into the
      struct, before the field. */
  datatype SizePtr = NoSize | OwnArraySize | Before(addr: int)

  /** load_descriptor_values' pointers, for a struct at an address, or for no struct. */
  function FieldPtr(message: Option<nat>, i: Info): Option<nat> {
    if message.None? then None else Some(message.value + i.dataOffset)
  }

  function SizePtrOf(message: Option<nat>, i: Info): SizePtr {
    if message.None? then NoSize
    else if i.sizeOffset != 0 then Before(message.value + i.dataOffset - i.sizeOffset)
    else if PbHType(i.ftype) == PB_HTYPE_REPEATED && PbAType(i.ftype) != PB_ATYPE_CALLBACK then OwnArraySize
    else NoSize
  }

  lemma {:induction false} WordsBeforeTail(xs: seq<Info>, k: nat)
    requires 0 < k <= |xs|
    ensures WordsBefore(xs, k) == Words(xs[0].width) + WordsBefore(xs[1..], k - 1)
  {
    if k > 1 {
      WordsBeforeTail(xs, k - 1);
    }
  }

  lemma Beyond<T>(p: seq<T>, t: seq<T>, a: nat, n: nat)
    requires a + n <= |t|
    ensures (p + t)[|p| + a..|p| + a + n] == t[a..a + n]
  {
  }

  lemma FirstEntry(xs: seq<Info>)
    requires xs != []
    ensures WordsBefore(xs, 0) == 0 && Words(xs[0].width) <= |Table(xs)|
    ensures Table(xs)[0..Words(xs[0].width)] == Pack(xs[0])
  {
    hide Pack, Words;
  }

  /** The k-th entry is where the word index of the k-th field says. */
  lemma {:induction false} TableAt(xs: seq<Info>, k: nat)
    requires k < |xs|
    ensures WordsBefore(xs, k) + Words(xs[k].width) <= |Table(xs)|
    ensures Table(xs)[WordsBefore(xs, k)..WordsBefore(xs, k) + Words(xs[k].width)] == Pack(xs[k])
  {
    hide Pack, Words, WordsBefore;
    if k > 0 {
      TableAt(xs[1..], k - 1);
      WordsBeforeTail(xs, k);
      Beyond(Pack(xs[0]), Table(xs[1..]), WordsBefore(xs[1..], k - 1), Words(xs[k].width));
    } else {
      FirstEntry(xs);
    }
  }

  /** The words hold the k-th entry where the walk expects it. */
  predicate EntryAt(ws: seq<nat>, xs: seq<Info>, k: nat)
    requires k < |xs|
  {
    var p := WordsBefore(xs, k);
    p + Words(xs[k].width) <= |ws| && ws[p..p + Words(xs[k].width)] == Pack(xs[k])
  }

  predicate Packs(ws: seq<nat>, xs: seq<Info>) {
    forall k :: 0 <= k < |xs| ==> EntryAt(ws, xs, k)
  }

  lemma TablePacks(xs: seq<Info>)
    ensures Packs(Table(xs), xs)
  {
    forall k | 0 <= k < |xs|
      ensures EntryAt(Table(xs), xs, k)
    {
      TableAt(xs, k);
    }
  }

  /** What the walk reads at the k-th entry. */
  lemma EntryReads(ws: seq<nat>, xs: seq<Info>, k: nat)
    requires k < |xs| && GoodEntry(xs, k) && EntryAt(ws, xs, k)
    ensures var p := WordsBefore(xs, k);
            p < |ws| && p + Words(WidthOf(ws[p])) <= |ws| && Unpack(ws, p) == xs[k] &&
            WidthOf(ws[p]) == xs[k].width && ws[p] / 256 % 256 == xs[k].ftype && ws[p] / 4 % 64 == xs[k].tag % 64
  {
    var p := WordsBefore(xs, k);
    var e := ws[p..p + Words(xs[k].width)];
    UnpackInvertsPack(xs[k]);
    FirstWord(xs[k]);
    assert forall j :: 0 <= j < |e| ==> ws[p + j] == e[j];
  }

  lemma CastSmall(x: nat)
    requires x <= PB_SIZE_MAX
    ensures Cast(x) == x
  {
  }

  /** What advance_iterator reads from the entry it leaves takes the three indices to the next one. */
  lemma NextIndices(ws: seq<nat>, xs: seq<Info>, k: nat)
    requires GoodTable(xs) && Packs(ws, xs) && k + 1 < |xs|
    ensures WordsBefore(xs, k) < |ws|
    ensures var prev := ws[WordsBefore(xs, k)];
            var t := prev / 256 % 256;
            Cast(WordsBefore(xs, k) + Words(WidthOf(prev))) == WordsBefore(xs, k + 1) &&
            Cast(RequiredInfosBefore(xs, k) + if PbHType(t) == PB_HTYPE_REQUIRED then 1 else 0) ==
            RequiredInfosBefore(xs, k + 1) &&
            Cast(SubmsgsBefore(xs, k) + if IsSubmsg(t) then 1 else 0) == SubmsgsBefore(xs, k + 1)
  {
    assert GoodEntry(xs, k) && EntryAt(ws, xs, k);
    EntryReads(ws, xs, k);
    WordsGrow(xs, k + 1, |xs| - 1);
    CountsBelow(xs, k + 1);
    CastSmall(WordsBefore(xs, k + 1));
    CastSmall(RequiredInfosBefore(xs, k + 1));
    CastSmall(SubmsgsBefore(xs, k + 1));
  }

  // ----- the iterator -----

  /** No field in this range has the tag. */
  predicate Absent(xs: seq<Info>, lo: nat, hi: nat, wanted: nat) {
    forall k :: lo <= k < hi && k < |xs| ==> xs[k].tag != wanted
  }

  lemma AbsentAbove(xs: seq<Info>, start: nat, wanted: nat)
    requires GoodTable(xs) && start < |xs| && wanted <= xs[start].tag
    ensures Absent(xs, start + 1, |xs|, wanted)
  {
    forall k | start < k < |xs|
      ensures xs[k].tag != wanted
    {
      assert InOrder(xs, start, k);
    }
  }

  lemma LargestIsLast(xs: seq<Info>, wanted: nat)
    requires GoodTable(xs) && (xs == [] || wanted > xs[|xs| - 1].tag)
    ensures Absent(xs, 0, |xs|, wanted)
  {
    forall k | 0 <= k < |xs|
      ensures xs[k].tag != wanted
    {
      assert k < |xs| - 1 ==> InOrder(xs, k, |xs| - 1);
    }
  }

  class Iter {
    /** The descriptor: field_info, field_count and largest_tag. */
    const words: seq<nat>
    const fieldCount: nat
    const largestTag: nat
    /** The struct the iterator walks, if any. */
    const message: Option<nat>
    /** The entries the words pack. */
    ghost const infos: seq<Info>

    var index: nat
    var fieldInfoIndex: nat
    var requiredFieldIndex: nat
    var submessageIndex: nat
    var tag: nat
    var ftype: nat
    var dataSize: nat
    var arraySize: nat
    /** pField, which is also pData for static fields, pSize, and the index of submsg_desc. */
    var pField: Option<nat>
    var pSize: SizePtr
    var submsg: Option<nat>

    ghost predicate Bound() {
      GoodTable(infos) && Packs(words, infos) && fieldCount == |infos| &&
      largestTag == if infos == [] then 0 else infos[|infos| - 1].tag
    }

    /** The four indices agree on the field they name. */
    ghost predicate At(k: nat)
      reads this
    {
      Bound() && k < |infos| && index == k && fieldInfoIndex == WordsBefore(infos, k) &&
      requiredFieldIndex == RequiredInfosBefore(infos, k) && submessageIndex == SubmsgsBefore(infos, k)
    }

    /** The loaded values are those of field k. */
    ghost predicate Holds(k: nat)
      reads this
    {
      k < |infos| && tag == infos[k].tag && ftype == infos[k].ftype &&
      dataSize == infos[k].dataSize && arraySize == infos[k].arraySize &&
      pField == FieldPtr(message, infos[k]) && pSize == SizePtrOf(message, infos[k]) &&
      submsg == if IsSubmsg(infos[k].ftype) then Some(SubmsgsBefore(infos, k)) else None
    }

    ghost predicate Valid()
      reads this
    {
      Bound() && if infos == [] then tag == 0 else At(index) && Holds(index)
    }

    constructor (ghost xs: seq<Info>, ws: seq<nat>, count: nat, largest: nat, at: Option<nat>)
      requires GoodTable(xs) && ws == Table(xs) && count == |xs|
      requires largest == if xs == [] then 0 else xs[|xs| - 1].tag
      ensures Valid() && infos == xs && message == at
      ensures xs != [] ==> index == 0
    {
      TablePacks(xs);
      infos, words, fieldCount, largestTag, message := xs, ws, count, largest, at;
      index, fieldInfoIndex, requiredFieldIndex, submessageIndex := 0, 0, 0, 0;
      tag, ftype, dataSize, arraySize := 0, 0, 0, 0;
      pField, pSize, submsg := None, NoSize, None;
      new;
      var ok := Load();
    }

    /** load_descriptor_values. */
    method Load() returns (ok: bool)
      requires Bound() && (index < |infos| ==> At(index))
      modifies this`tag, this`ftype, this`dataSize, this`arraySize, this`pField, this`pSize, this`submsg
      ensures ok <==> index < |infos|
      ensures ok ==> Holds(index)
      ensures !ok ==> tag == old(tag)
    {
      if index >= fieldCount {
        return false;
      }
      EntryReads(words, infos, index);
      var i := Unpack(words, fieldInfoIndex);
      tag, ftype, dataSize, arraySize := i.tag, i.ftype, i.dataSize, i.arraySize;
      pField, pSize := FieldPtr(message, i), SizePtrOf(message, i);
      submsg := if IsSubmsg(ftype) then Some(submessageIndex) else None;
      ok := true;
    }

    /** advance_iterator: one field on, or back to the first. */
    method Advance()
      requires Bound() && |infos| > 0
      requires index < |infos| ==> At(index)
      modifies this`index, this`fieldInfoIndex, this`requiredFieldIndex, this`submessageIndex
      ensures At(if old(index) + 1 < |infos| then old(index) + 1 else 0)
    {
      index := index + 1;
      if index >= fieldCount {
        index, fieldInfoIndex, submessageIndex, requiredFieldIndex := 0, 0, 0, 0;
      } else {
        NextIndices(words, infos, index - 1);
        var prev := words[fieldInfoIndex];
        var prevType := prev / 256 % 256;
        fieldInfoIndex := Cast(fieldInfoIndex + Words(WidthOf(prev)));
        requiredFieldIndex := Cast(requiredFieldIndex + if PbHType(prevType) == PB_HTYPE_REQUIRED then 1 else 0);
        submessageIndex := Cast(submessageIndex + if IsSubmsg(prevType) then 1 else 0);
      }
    }

    /** pb_field_iter_next: false exactly when the walk has come round. */
    method Next() returns (more: bool)
      requires Valid() && infos != []
      modifies this
      ensures Valid()
      ensures more <==> old(index) + 1 < |infos|
      ensures index == if more then old(index) + 1 else 0
    {
      Advance();
      var ok := Load();
      more := index != 0;
    }

    /** pb_field_iter_find: from any position, found exactly when some field has the tag, and then
        the iterator stands on it with all its indices consistent; otherwise it is still usable. */
    method Find(wanted: nat) returns (found: bool)
      requires Valid() && (wanted > 0 || infos != [])
      modifies this
      ensures Valid()
      ensures found ==> infos != [] && infos[index].tag == wanted && Holds(index)
      ensures !found ==> index == old(index) && Absent(infos, 0, |infos|, wanted)
    {
      if tag == wanted {
        return true;
      }
      if wanted > largestTag {
        LargestIsLast(infos, wanted);
        return false;
      }
      var start := index;
      if wanted < tag {
        index := fieldCount;
        AbsentAbove(infos, start, wanted);
      }
      found := SearchFrom(start, wanted);
    }

    /** The fast check on the six tag bits of the first word. */
    method MatchesLowBits(wanted: nat) returns (yes: bool)
      requires At(index)
      ensures yes <==> infos[index].tag % 64 == wanted % 64
    {
      EntryReads(words, infos, index);
      var fieldinfo := words[fieldInfoIndex];
      yes := fieldinfo / 4 % 64 == wanted % 64;
    }

    /** One turn of that loop: advance, compare the low bits, and only then load and compare the tag. */
    method Probe(wanted: nat) returns (hit: bool)
      requires Bound() && |infos| > 0
      requires index < |infos| ==> At(index)
      modifies this
      ensures At(index) && index == if old(index) + 1 < |infos| then old(index) + 1 else 0
      ensures hit <==> infos[index].tag == wanted
      ensures hit ==> Holds(index)
    {
      Advance();
      hit := false;
      var candidate := MatchesLowBits(wanted);
      if candidate {
        var ok := Load();
        assert GoodEntry(infos, index);
        hit := tag == wanted && PbLType(ftype) != PB_LTYPE_EXTENSION;
      }
    }

    /** The loop of pb_field_iter_find: walks round to where it started. */
    method SearchFrom(start: nat, wanted: nat) returns (found: bool)
      requires Bound() && start < |infos|
      requires if index < |infos| then At(start) else index == |infos| && Absent(infos, start + 1, |infos|, wanted)
      modifies this
      ensures At(index) && Holds(index)
      ensures found ==> infos[index].tag == wanted
      ensures !found ==> index == start && Absent(infos, 0, |infos|, wanted)
    {
      var going := true;
      ghost var wrapped := false;
      while going
        invariant index < |infos| ==> At(index)
        invariant if wrapped then index <= start && Absent(infos, 0, index + 1, wanted)
                  else start <= index <= |infos|
        invariant Absent(infos, start + 1, if wrapped then |infos| else index + 1, wanted)
        invariant going <==> !(wrapped && index == start)
        decreases if wrapped then start - index else start + 1 + |infos| - index
      {
        wrapped := wrapped || index + 1 >= |infos|;
        var hit := Probe(wanted);
        if hit {
          return true;
        }
        going := index != start;
      }
      var ok := Load();
      found := false;
    }
  }
}
