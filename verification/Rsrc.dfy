/** The resource pools of rsrc.c: a free list, an active list, and 16-bit counters beside them. */
module Rsrc {
  import opened Schema
  import opened Lists
  import opened PoolCounts

  /** sizeof (size_t), and the four pointers in front of a payload, on the 32-bit target. */
  const RES_ALIGN_TO: int := 4
  const HEADER: nat := 16

  /** privuxRsrcAlignUp. */
  function AlignUp(size: nat): nat {
    if size % RES_ALIGN_TO != 0 then size + (RES_ALIGN_TO - size % RES_ALIGN_TO) else size
  }

  /** The least multiple of the alignment that is not below the size. */
  lemma AlignUpIsLeast(size: nat, k: nat)
    ensures AlignUp(size) % RES_ALIGN_TO == 0 && size <= AlignUp(size)
    ensures size <= RES_ALIGN_TO * k ==> AlignUp(size) <= RES_ALIGN_TO * k
  {
    var q := size / 4;
    assert AlignUp(size) == if size % 4 == 0 then 4 * q else 4 * (q + 1);
  }

  /** A struct rsrc in memory: where it is, and the bytes it was allocated with. */
  datatype Block = Block(id: nat, size: nat)

  lemma Wrap16Next(x: nat)
    ensures Wrap16(Wrap16(x) + 1) == Wrap16(x + 1)
    ensures x > 0 ==> Wrap16(Wrap16(x) - 1) == Wrap16(x - 1)
  {
  }

  /** The n blocks carved from one piece of memory, the last one in front. */
  function Carve(id: nat, n: nat, size: nat): (s: seq<Block>)
    ensures |s| == n
  {
    if n == 0 then [] else [Block(id + n - 1, size)] + Carve(id, n - 1, size)
  }

  lemma {:induction false} CarveSized(id: nat, n: nat, size: nat)
    ensures Sized(Carve(id, n, size), size)
  {
    if n > 0 {
      CarveSized(id, n - 1, size);
    }
  }

  lemma CarveNext(id: nat, n: nat, size: nat, rest: seq<Block>)
    ensures [Block(id + n, size)] + (Carve(id, n, size) + rest) == Carve(id, n + 1, size) + rest
  {
  }

  predicate Below(live: set<Block>, id: nat) {
    forall b :: b in live ==> b.id < id
  }

  predicate Sized(s: seq<Block>, size: nat) {
    forall i :: 0 <= i < |s| ==> s[i].size == size
  }

  lemma SizedAfter(s: seq<Block>, b: Block, size: nat)
    ensures Sized([b] + s, size) <==> b.size == size && Sized(s, size)
  {
    var all := [b] + s;
    assert all[0] == b && forall i :: 0 <= i < |s| ==> all[i + 1] == s[i];
  }

  lemma BelowLess(live: set<Block>, b: Block, id: nat)
    requires Below(live, id)
    ensures Below(live - {b}, id)
  {
  }

  lemma {:induction false} WithoutSized(s: seq<Block>, b: Block, size: nat)
    requires b in s && Sized(s, size)
    ensures Sized(Without(s, b), size) && b.size == size
  {
    if s[0] != b {
      WithoutSized(s[1..], b, size);
    }
  }

  // ----- the water marks, on numbers -----

  /** What a 16-bit mark that only follows the counter upwards can reach. */
  function Cap(x: nat): nat {
    if x > UINT16_MAX then UINT16_MAX else x
  }

  /** f free and a active blocks, at most `peak` active so far: what the marks say of them. */
  predicate MarksOf(f: nat, a: nat, low: nat, hi: nat, peak: nat, max: nat) {
    a <= peak && low <= f && low <= UINT16_MAX && hi == Cap(peak) && (max != 0 ==> peak <= max)
  }

  lemma MarksTake(f: nat, a: nat, low: nat, hi: nat, peak: nat, max: nat)
    requires MarksOf(f, a, low, hi, peak, max) && f > 0 && max <= UINT16_MAX && (max != 0 ==> a < max)
    ensures var nf, nu := Wrap16(f - 1), Wrap16(a + 1);
            MarksOf(f - 1, a + 1, if nf < low then nf else low, if nu > hi then nu else hi,
                    if a + 1 > peak then a + 1 else peak, max)
  {
    WrapBelow(f - 1);
    WrapBelow(a + 1);
  }

  // ----- pools -----

  /** The free list after one block has been freed. */
  function FreeListAfter<T>(freeOnFree: bool, free: seq<T>, b: T): seq<T> {
    if freeOnFree then free else [b] + free
  }

  class Pool {
    const sizeEach: nat
    const initAlloc: nat
    const increment: nat
    const freeOnFree: bool
    const maxNumRes: nat

    var free: seq<Block>
    var active: seq<Block>
    var numInUse: nat
    var numFree: nat
    var lowWater: nat
    var hiWater: nat
    /** Addresses the heap has not handed out yet. */
    var nextId: nat

    /** The most blocks ever active, and how often the pool has grown. */
    ghost var peak: nat
    ghost var grown: nat
    /** The blocks that exist. */
    ghost var live: set<Block>

    /** The arguments the pool was made with. */
    function Arguments(): Config {
      Config(sizeEach, initAlloc, increment, maxNumRes)
    }

    ghost predicate Configured() {
      Accepted(Arguments()) && freeOnFree == Dynamic(Arguments())
    }

    /** The pool as its two list lengths. */
    ghost function Lengths(): Counts
      reads this
    {
      Counts(|free|, |active|)
    }

    /** The lists are disjoint and the counters are their lengths, modulo 2^16. */
    ghost predicate Counted()
      reads this
    {
      Apart(free, active, live) && Below(live, nextId) && numFree == Wrap16(|free|) && numInUse == Wrap16(|active|)
    }

    ghost predicate Lists()
      reads this
    {
      Counted() && (sizeEach != 0 ==> Sized(active, AlignUp(HEADER + sizeEach))) &&
      Sized(free, AlignUp(HEADER + sizeEach)) && (freeOnFree && initAlloc == 0 ==> free == [])
    }

    /** The limit, hi-water and low-water; and a pool that starts at its limit never moves. */
    ghost predicate Marks()
      reads this
    {
      MarksOf(|free|, |active|, lowWater, hiWater, peak, maxNumRes) && Stage(Arguments(), Lengths(), grown) &&
      (initAlloc >= maxNumRes > 0 ==> active == [] && |free| == initAlloc)
    }

    ghost predicate Valid()
      reads this
    {
      Configured() && Lists() && Marks() && (maxNumRes != 0 ==> numInUse == |active|)
    }

    /** prviRsrcInitPool, before the first blocks. */
    constructor (size: nat, init: nat, inc: nat, max: nat)
      requires init <= UINT16_MAX && inc <= UINT16_MAX && max <= UINT16_MAX && init + inc > 0
      requires size == 0 ==> init <= 1 && inc <= 1
      ensures Configured() && Lists() && free == [] && active == [] && lowWater == initAlloc && hiWater == 0
      ensures sizeEach == size && initAlloc == init && increment == inc && maxNumRes == max
      ensures peak == 0 && grown == 0 && nextId == 0 && live == {}
    {
      sizeEach, initAlloc, increment, maxNumRes := size, init, inc, max;
      freeOnFree := FreesOnFree(size, init, inc);
      free, active, numFree, numInUse, nextId := [], [], 0, 0, 0;
      lowWater, hiWater := init, 0;
      peak, grown, live := 0, 0, {};
    }

    /** prvvFreeResTail. */
    method FreeTail(b: Block)
      modifies this`free, this`numFree
      ensures free == [b] + old(free) && numFree == Wrap16(old(numFree) + 1)
    {
      free := [b] + free;
      numFree := Wrap16(numFree + 1);
    }

    /** The carving loop of prviRsrcAdd2Pool. */
    method CarveInto(count: nat, size: nat)
      requires Counted()
      modifies this`free, this`numFree, this`nextId, this`live
      ensures free == Carve(old(nextId), count, size) + old(free)
      ensures Counted()
    {
      ghost var start := nextId;
      for i := 0 to count
        invariant nextId == start + i && free == Carve(start, i, size) + old(free)
        invariant Counted()
      {
        var b := Block(nextId, size);
        CarveNext(start, i, size, old(free));
        PushFresh(free, active, live, b);
        Wrap16Next(|free|);
        FreeTail(b);
        live := live + {b};
        nextId := nextId + 1;
      }
    }

    /** prviRsrcAdd2Pool, where the memory request may fail. */
    method Add2Pool(count: nat, size: nat, oom: bool) returns (added: int)
      requires Counted()
      modifies this`free, this`numFree, this`lowWater, this`nextId, this`live
      ensures added == if count == 0 then 0 else if oom then -1 else count
      ensures added <= 0 ==> unchanged(this)
      ensures added > 0 ==> free == Carve(old(nextId), count, size) + old(free)
      ensures added > 0 ==> lowWater == if old(numInUse + numFree) == 0 then count else old(lowWater)
      ensures Counted()
    {
      if count == 0 {
        return 0;
      }
      if oom {
        return -1;
      }
      if numInUse + numFree == 0 {
        lowWater := count;
      }
      CarveInto(count, size);
      added := count;
    }

    /** The tests at the head of pxRsrcVarAlloc. */
    predicate Refuses(len: nat)
      reads this
    {
      len == 0 || (maxNumRes != 0 && numInUse + numFree >= maxNumRes) || (sizeEach != 0 && len != sizeEach)
    }

    /** The first free block leaves the free list. */
    method Unlink() returns (b: Block)
      requires free != [] && numFree == Wrap16(|free|)
      modifies this`free, this`numFree, this`lowWater
      ensures b == old(free[0]) && free == old(free[1..]) && numFree == Wrap16(|free|)
      ensures lowWater == if numFree < old(lowWater) then numFree else old(lowWater)
    {
      Wrap16Next(|free|);
      b := free[0];
      free := free[1..];
      numFree := Wrap16(numFree - 1);
      if numFree < lowWater {
        lowWater := numFree;
      }
    }

    /** And enters the active list. */
    method Enlist(b: Block)
      requires numInUse == Wrap16(|active|)
      modifies this`active, this`numInUse, this`hiWater, this`peak
      ensures active == [b] + old(active) && numInUse == Wrap16(|active|)
      ensures hiWater == if numInUse > old(hiWater) then numInUse else old(hiWater)
      ensures peak == if |active| > old(peak) then |active| else old(peak)
    {
      Wrap16Next(|active|);
      active := [b] + active;
      numInUse := Wrap16(numInUse + 1);
      if numInUse > hiWater {
        hiWater := numInUse;
      }
      peak := if |active| > peak then |active| else peak;
    }

    /** The tail of pxRsrcVarAlloc: the first free block becomes active. */
    method TakeFirst() returns (b: Block)
      requires free != [] && Counted() && maxNumRes <= UINT16_MAX && (maxNumRes != 0 ==> |active| < maxNumRes)
      requires MarksOf(|free|, |active|, lowWater, hiWater, peak, maxNumRes)
      modifies this`free, this`numFree, this`lowWater, this`active, this`numInUse, this`hiWater, this`peak
      ensures b == old(free[0]) && free == old(free[1..]) && active == [b] + old(active)
      ensures lowWater == if numFree < old(lowWater) then numFree else old(lowWater)
      ensures Counted() && MarksOf(|free|, |active|, lowWater, hiWater, peak, maxNumRes)
      ensures peak == if |active| > old(peak) then |active| else old(peak)
    {
      Activate(free, active, live);
      MarksTake(|free|, |active|, lowWater, hiWater, peak, maxNumRes);
      b := Unlink();
      Enlist(b);
    }

    /** The middle of pxRsrcVarAlloc: more blocks if there are none. */
    method Grow(len: nat, oom: bool) returns (ok: bool)
      requires Valid() && !Refuses(len)
      modifies this`free, this`numFree, this`lowWater, this`nextId, this`live
      ensures ok <==> old(free) != [] || (increment > 0 && !oom)
      ensures !ok || old(free) != [] ==> unchanged(this)
      ensures ok && old(free) == [] ==> free == Carve(old(nextId), increment, AlignUp(HEADER + len))
      ensures ok && old(free) == [] ==> lowWater == if old(numInUse + numFree) == 0 then increment else old(lowWater)
      ensures ok ==> free != [] && Counted() && (maxNumRes != 0 ==> |active| < maxNumRes && initAlloc < maxNumRes)
      ensures ok ==> MarksOf(|free|, |active|, lowWater, hiWater, peak, maxNumRes)
    {
      WrapBelow(|free|);
      if free != [] {
        return true;
      }
      var added := Add2Pool(increment, AlignUp(HEADER + len), oom);
      ok := added > 0;
    }

    /** What an allocation of len bytes left behind when the free list was `had`. */
    ghost predicate Fitting(had: seq<Block>, b: Block, len: nat)
      reads this
    {
      Sized(free, AlignUp(HEADER + sizeEach)) && (sizeEach != 0 ==> b.size == AlignUp(HEADER + sizeEach)) &&
      (freeOnFree && initAlloc == 0 ==> free == []) &&
      (b.size == AlignUp(HEADER + len) <==> had == [] || sizeEach != 0)
    }

    lemma Fits(had: seq<Block>, id: nat, b: Block, len: nat)
      requires Configured() && len > 0 && (sizeEach != 0 ==> len == sizeEach) && Sized(had, AlignUp(HEADER + sizeEach))
      requires freeOnFree && initAlloc == 0 ==> had == []
      requires if had != [] then had == [b] + free else [b] + free == Carve(id, increment, AlignUp(HEADER + len))
      ensures Fitting(had, b, len)
    {
      CarveSized(id, increment, AlignUp(HEADER + len));
      var all := [b] + free;
      assert all[0] == b && forall i :: 0 <= i < |free| ==> free[i] == all[i + 1];
      assert AlignUp(HEADER + len) > AlignUp(HEADER);
    }

    /** pxRsrcVarAlloc. It refuses a pool that has reached its limit even if blocks are free; a block
        it returns has room for the request unless it is the initial block of a variable pool. */
    method VarAlloc(len: nat, oom: bool) returns (r: Option<Block>)
      requires Valid()
      modifies this
      ensures Valid()
      ensures r.Some? <==> !old(Refuses(len)) && (old(free) != [] || (increment > 0 && !oom))
      ensures r.None? ==> unchanged(this)
      ensures r.Some? ==> active == [r.value] + old(active)
      ensures r.Some? ==> if old(free) != [] then old(free) == [r.value] + free
                          else [r.value] + free == Carve(old(nextId), increment, AlignUp(HEADER + len))
      ensures r.Some? ==> (r.value.size == AlignUp(HEADER + len) <==> old(free) == [] || sizeEach != 0)
      ensures r.Some? ==> Lengths() == Next(Arguments(), old(Lengths()), Take)
      ensures r.Some? ==> peak == if |active| > old(peak) then |active| else old(peak)
      ensures r.Some? ==> var low := if old(free) == [] && old(numInUse + numFree) == 0 then increment else old(lowWater);
                          lowWater == if numFree < low then numFree else low
    {
      hide Apart, AlignUp, Stage, Sized, Below, Wrap16, Carve, MarksOf;
      r := None;
      if !Refuses(len) {
        var ok := Grow(len, oom);
        if ok {
          var b := TakeFirst();
          Fits(old(free), old(nextId), b, len);
          WrapBelow(|active|);
          StageNext(Arguments(), old(Lengths()), grown, Take);
          grown := if Grows(Arguments(), old(Lengths()), Take) then grown + 1 else grown;
          assert Lengths() == Next(Arguments(), old(Lengths()), Take);
          SizedAfter(old(active), b, AlignUp(HEADER + sizeEach));
          r := Some(b);
        }
      }
    }

    /** vRsrcFree takes a block out of the active list. */
    method Retire(b: Block)
      requires Counted() && b in active
      modifies this`active, this`numInUse
      ensures active == Without(old(active), b) && numInUse == Wrap16(|active|)
    {
      Wrap16Next(|active|);
      WrapBelow(|active| - 1);
      active := Without(active, b);
      numInUse := Wrap16(numInUse - 1);
    }

    /** vRsrcFree of a block of this pool: a block that is free already aborts. A block goes back to the heap exactly
        if the pool never asks the heap for more than one at a time. */
    method Free(b: Block) returns (aborted: bool)
      requires Valid() && (b in free || b in active)
      modifies this
      ensures Valid()
      ensures aborted <==> b in old(free)
      ensures aborted ==> unchanged(this)
      ensures !aborted ==> active == Without(old(active), b)
      ensures !aborted ==> free == if initAlloc > 1 || increment > 1 then [b] + old(free) else old(free)
      ensures !aborted ==> Lengths() == Next(Arguments(), old(Lengths()), Give) && peak == old(peak)
      ensures lowWater == old(lowWater) && hiWater == old(hiWater)
    {
      hide Apart, AlignUp, Stage, Sized, Below, Wrap16, Without;
      aborted := b in free;
      if !aborted {
        StageNext(Arguments(), Lengths(), grown, Give);
        Deactivate(free, active, live, b);
        if sizeEach != 0 {
          WithoutSized(active, b, AlignUp(HEADER + sizeEach));
        }
        Retire(b);
        if !freeOnFree {
          Wrap16Next(|free|);
          SizedAfter(free, b, AlignUp(HEADER + sizeEach));
          FreeTail(b);
        } else {
          BelowLess(live, b, nextId);
          live := live - {b};
        }
        WrapBelow(|active|);
        assert Lengths() == Next(Arguments(), old(Lengths()), Give);
      }
    }
  }

  datatype Created = Abort | Null | Made(pool: Pool)

  /** pxRsrcNewPool, given memory for the pool struct itself. */
  method NewPool(size: nat, init: nat, inc: nat, max: nat, oom: bool) returns (r: Created)
    ensures r.Abort? <==> init > UINT16_MAX || inc > UINT16_MAX || max > UINT16_MAX || init + inc == 0
    ensures r.Null? <==> !r.Abort? && ((size == 0 && (init > 1 || inc > 1)) || (init > 0 && oom))
    ensures r.Made? ==> var p := r.pool;
                        fresh(p) && p.Valid() && p.sizeEach == size && p.initAlloc == init && p.increment == inc &&
                        p.maxNumRes == max && |p.free| == init && p.active == [] && p.peak == 0 &&
                        p.lowWater == init && p.hiWater == 0
  {
    hide Apart, AlignUp, Stage;
    if init > UINT16_MAX || inc > UINT16_MAX || max > UINT16_MAX || init + inc == 0 {
      return Abort;
    }
    if size == 0 && (init > 1 || inc > 1) {
      return Null;
    }
    var p := new Pool(size, init, inc, max);
    StageStart(p.Arguments());
    if init > 0 {
      CarveSized(0, init, AlignUp(HEADER + size));
      var added := p.Add2Pool(init, AlignUp(HEADER + size), oom);
      if added < 0 {
        return Null;
      }
    }
    r := Made(p);
  }

  /** pxRsrcNewVarPool: with no initial block the free list is empty between calls, so every block was
      allocated for the request it serves. */
  method NewVarPool(max: nat) returns (r: Created)
    ensures r.Abort? <==> max > UINT16_MAX
    ensures r.Made? <==> max <= UINT16_MAX
    ensures r.Made? ==> var p := r.pool;
                        fresh(p) && p.Valid() && p.sizeEach == 0 && p.initAlloc == 0 && p.increment == 1 &&
                        p.maxNumRes == max && p.active == []
  {
    r := NewPool(0, 0, 1, max, false);
  }

  /** Between calls, for any reachable variable pool. */
  lemma VarPoolHasNoFreeList(p: Pool)
    requires p.Valid() && p.sizeEach == 0 && p.initAlloc == 0
    ensures p.free == []
  {
  }

  /** A block that VarAlloc returns has the size that was asked for (see its contract) in every state of a
      pool with a fixed size or without an initial block. */
  lemma BlocksFit(p: Pool)
    requires p.Valid() && (p.sizeEach != 0 || p.initAlloc == 0)
    ensures p.free == [] || p.sizeEach != 0
  {
  }

  /** Any other pool that hands out blocks at all is for variable sizes and has one initial block; it hands
      out that block, which has no payload at all, for the first request. */
  method InitialBlockIsTooSmall(inc: nat, max: nat, len: nat) returns (b: Block)
    requires Accepted(Config(0, 1, inc, max)) && max != 1 && len > 0
    ensures b.size < HEADER + len
  {
    var r := NewPool(0, 1, inc, max, false);
    var p := r.pool;
    WrapBelow(1);
    assert p.free[0].size == HEADER && !p.Refuses(len);
    hide Apart, AlignUp, Stage, Sized, Below, Wrap16, Carve, FreesOnFree;
    var got := p.VarAlloc(len, false);
    b := got.value;
  }

  /** A pool that starts with as many blocks as its limit refuses every request, in every state it can
      ever reach, and none of its blocks is ever handed out. */
  lemma FullFromTheStart(p: Pool, len: nat)
    requires p.Valid() && p.initAlloc >= p.maxNumRes > 0
    ensures p.Refuses(len) && p.active == []
  {
    WrapBelow(|p.free|);
  }

  /** A limited pool never has more blocks than its limit, free and in use, if whole increments lead to it
      from the initial allocation (PoolCounts.LimitExactly: and only then). */
  lemma LimitKept(p: Pool)
    requires p.Valid() && p.maxNumRes != 0 && KeepsLimit(p.Arguments())
    ensures |p.free| + |p.active| <= p.maxNumRes
  {
    StageWithin(p.Arguments(), p.Lengths(), p.grown);
  }

  /** Any other limited pool can be driven past its limit. */
  method LimitPassed(size: nat, init: nat, inc: nat, max: nat) returns (p: Pool)
    requires Accepted(Config(size, init, inc, max)) && max != 0 && !KeepsLimit(Config(size, init, inc, max))
    ensures p.Valid() && p.Arguments() == Config(size, init, inc, max) && |p.free| + |p.active| > max
  {
    var r := NewPool(size, init, inc, max, false);
    p := r.pool;
    while |p.free| + |p.active| <= max
      invariant p.Valid() && fresh(p) && p.Arguments() == Config(size, init, inc, max)
      decreases max - |p.active|
    {
      if init <= max && !p.freeOnFree {
        NeverEqual(p.Arguments(), p.grown);
      }
      WrapBelow(|p.free|);
      var b := p.VarAlloc(size, false);
    }
  }

  /** A counter is the length of its list while that fits 16 bits, and so in every run for the arguments
      that bound it there (PoolCounts.FreeCounterExactly and InUseCounterExactly: and only for those). */
  lemma CountersAreLengths(p: Pool)
    requires p.Valid()
    ensures p.numFree == |p.free| <==> |p.free| <= UINT16_MAX
    ensures p.numInUse == |p.active| <==> |p.active| <= UINT16_MAX
    ensures FreeFits(p.Arguments()) ==> p.numFree == |p.free|
    ensures p.maxNumRes != 0 || p.increment == 0 ==> p.numInUse == |p.active|
  {
    var c, s := p.Arguments(), p.Lengths();
    WrapBelow(|p.free|);
    WrapBelow(|p.active|);
    if c.max != 0 && c.inc > 0 && !Dynamic(c) {
      StageMost(c, s, p.grown);
    }
  }

  /** A pool without a limit outgrows its in-use counter: the 65536th block takes it back to zero. */
  method CounterOutgrown(size: nat) returns (p: Pool)
    requires size > 0
    ensures p.Valid() && |p.active| == UINT16_MAX + 1 && p.numInUse == 0 && p.hiWater == UINT16_MAX
  {
    var r := NewPool(size, 1, 1, 0, false);
    p := r.pool;
    for i := 0 to UINT16_MAX + 1
      invariant p.Valid() && fresh(p) && p.Arguments() == Config(size, 1, 1, 0) && |p.active| == i
    {
      var b := p.VarAlloc(size, false);
    }
  }
}
