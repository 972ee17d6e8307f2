/** A descriptor as the packed table that the field iterator walks, in any mixture of entry widths. */
module FieldTable {
  import opened Schema
  import FieldIter

  /** Offsets are counted from the start of the struct. */
  const STRUCT: Option<nat> := Some(0)

  function TypeByte(f: Field): (t: nat)
    ensures t < 256 && FieldIter.PbLType(t) != FieldIter.PB_LTYPE_EXTENSION
    ensures FieldIter.PbHType(t) == FieldIter.PB_HTYPE_REQUIRED <==> f.rule.Required?
  {
    (match f.rule case Required => 0x00 case Optional => 0x10 case Repeated => 0x20) +
    match f.ltype
    case Bool => 0 case Signed => 1 case Unsigned => 2 case ZigZagged => 3 case Fixed32 => 4 case Fixed64 => 5
    case Bytes => 6 case String => 7 case Submessage => 8 case FixedBytes => 11
  }

  function InfoOf(f: Field): FieldIter.Info {
    FieldIter.Info(
      f.tag, TypeByte(f), f.layout.dataOffset, f.dataSize, f.layout.sizeOffset, f.arraySize, f.layout.width)
  }

  function Infos(d: seq<Field>): (xs: seq<FieldIter.Info>)
    ensures |xs| == |d|
    ensures forall i :: 0 <= i < |d| ==> xs[i] == InfoOf(d[i])
  {
    seq(|d|, i requires 0 <= i < |d| => InfoOf(d[i]))
  }

  /** The row passes its width's assertion; optional and repeated fields have a has-flag or a count
      before them (without one the code takes them for singular fields and fixed-count arrays). */
  predicate LaidField(f: Field)
    decreases f
  {
    FieldIter.Fits(InfoOf(f)) && (!f.rule.Required? ==> f.layout.sizeOffset > 0) && LaidOut(f.sub)
  }

  /** A descriptor that the iterator can walk, and so for all its submessages. */
  predicate LaidOut(d: seq<Field>)
    decreases d, 1, 0
  {
    LaidFields(d, |d|)
  }

  predicate LaidFields(d: seq<Field>, k: nat)
    requires k <= |d|
    decreases d, 0, k
  {
    if k == 0 then FieldIter.IndexFits(Infos(d)) else LaidField(d[k - 1]) && LaidFields(d, k - 1)
  }

  lemma {:induction false} LaidIs(d: seq<Field>, k: nat)
    requires k <= |d|
    ensures LaidFields(d, k) <==> FieldIter.IndexFits(Infos(d)) && forall i :: 0 <= i < k ==> LaidField(d[i])
  {
    if k > 0 {
      LaidIs(d, k - 1);
    }
  }

  lemma InfosGood(d: seq<Field>)
    requires GoodDesc(d) && LaidOut(d)
    ensures FieldIter.GoodTable(Infos(d))
  {
    LaidIs(d, |d|);
    var xs := Infos(d);
    forall k | 0 <= k < |xs|
      ensures FieldIter.GoodEntry(xs, k)
    {
      assert GoodField(d[k]) && LaidField(d[k]);
    }
  }

  lemma {:induction false} InfosRequired(d: seq<Field>, k: nat)
    requires k <= |d|
    ensures FieldIter.RequiredInfosBefore(Infos(d), k) == RequiredBefore(d, k)
  {
    if k > 0 {
      InfosRequired(d, k - 1);
    }
  }

  /** A found tag is the field that the lookup function names. */
  lemma FoundIs(d: seq<Field>, tag: nat, k: nat)
    requires GoodDesc(d) && k < |d| && Infos(d)[k].tag == tag
    ensures Find(d, tag) == k
  {
    FindAscending(d, k);
  }

  /** pb_field_iter_begin. */
  method NewIter(d: seq<Field>, message: Option<nat>) returns (iter: FieldIter.Iter)
    requires GoodDesc(d) && LaidOut(d)
    ensures fresh(iter) && iter.Valid() && iter.infos == Infos(d) && iter.message == message
    ensures d != [] ==> iter.index == 0
  {
    InfosGood(d);
    var xs := Infos(d);
    var words := FieldIter.Table(xs);
    var largest := if d == [] then 0 else d[|d| - 1].tag;
    iter := new FieldIter.Iter(xs, words, |d|, largest, message);
  }

  /** The field that a walk over the descriptor stands on, with all indices of the iterator consistent;
      negative for an iterator that is not on any. */
  ghost function Standing(iter: FieldIter.Iter, d: seq<Field>): int
    reads iter
  {
    if d != [] && iter.Valid() && iter.infos == Infos(d) then iter.index else -1
  }

  /** The real index of that field. */
  method IndexOf(iter: FieldIter.Iter, ghost d: seq<Field>) returns (k: nat)
    requires Standing(iter, d) >= 0
    ensures k == Standing(iter, d) < |d|
  {
    k := iter.index;
  }

  method StartWalk(d: seq<Field>) returns (iter: FieldIter.Iter)
    requires GoodDesc(d) && LaidOut(d) && d != []
    ensures fresh(iter) && Standing(iter, d) == 0
  {
    iter := NewIter(d, STRUCT);
  }

  method StepWalk(iter: FieldIter.Iter, ghost d: seq<Field>) returns (more: bool)
    requires Standing(iter, d) >= 0
    modifies iter
    ensures more <==> old(Standing(iter, d)) + 1 < |d|
    ensures Standing(iter, d) == if more then old(Standing(iter, d)) + 1 else 0
  {
    more := iter.Next();
  }
}
