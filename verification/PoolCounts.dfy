/** How many free and active blocks a resource pool of rsrc.c can come to have, from its arguments alone:
    when the limit is kept, and when the 16-bit counters stay exact. */
module PoolCounts {
  import Varint

  const UINT16_MAX: int := 0xFFFF

  function Wrap16(x: int): nat {
    x % 0x1_0000
  }

  lemma WrapBelow(x: nat)
    ensures Wrap16(x) <= x && Wrap16(x) <= UINT16_MAX
    ensures Wrap16(x) == x <==> x <= UINT16_MAX
  {
  }

  /** The arguments of pxRsrcNewPool. */
  datatype Config = Config(size: nat, init: nat, inc: nat, max: nat)

  /** Those that it accepts. */
  predicate Accepted(c: Config) {
    c.init <= UINT16_MAX && c.inc <= UINT16_MAX && c.max <= UINT16_MAX && c.init + c.inc > 0 &&
    (c.size == 0 ==> c.init <= 1 && c.inc <= 1)
  }

  /** When a pool has no standing free list: freed blocks go back to the heap. */
  predicate FreesOnFree(size: nat, init: nat, inc: nat) {
    size == 0 || (inc <= 1 && init <= 1)
  }

  predicate Dynamic(c: Config) {
    FreesOnFree(c.size, c.init, c.inc)
  }

  // ----- the pool as two numbers -----

  datatype Counts = Counts(free: nat, active: nat)

  function Total(s: Counts): nat {
    s.free + s.active
  }

  /** The limit test of pxRsrcVarAlloc, on the 16-bit counters. */
  predicate Full(c: Config, s: Counts) {
    c.max != 0 && Wrap16(s.active) + Wrap16(s.free) >= c.max
  }

  /** A request of the right size with memory to be had, and a release. */
  datatype Op = Take | Give

  function Next(c: Config, s: Counts, op: Op): Counts {
    match op
    case Take =>
      if Full(c, s) || (s.free == 0 && c.inc == 0) then s
      else Counts((if s.free == 0 then c.inc else s.free) - 1, s.active + 1)
    case Give =>
      if s.active == 0 then s else Counts(if Dynamic(c) then s.free else s.free + 1, s.active - 1)
  }

  /** A released block joins the free list exactly if the pool gets blocks several at a time; on its own it goes
      back to the heap. */
  lemma ReleaseReturns(c: Config, s: Counts)
    requires Accepted(c) && s.active > 0
    ensures Next(c, s, Give) == Counts(if c.init > 1 || c.inc > 1 then s.free + 1 else s.free, s.active - 1)
  {
  }

  function Run(c: Config, s: Counts, ops: seq<Op>): Counts
    decreases |ops|
  {
    if ops == [] then s else Run(c, Next(c, s, ops[0]), ops[1..])
  }

  function Start(c: Config): Counts {
    Counts(c.init, 0)
  }

  // ----- what every run keeps -----

  /** After g increments. A pool with a standing free list never loses blocks, and grew only while it was
      below its limit. */
  predicate Stage(c: Config, s: Counts, g: nat) {
    (c.max != 0 ==> s.active <= c.max) &&
    if Dynamic(c) then s.free <= c.init && (c.max != 0 ==> Total(s) <= c.max) && (c.inc == 0 ==> Total(s) <= c.init)
    else Total(s) == c.init + g * c.inc && (c.max != 0 && g > 0 ==> c.init + (g - 1) * c.inc < c.max)
  }

  predicate Grows(c: Config, s: Counts, op: Op) {
    op.Take? && !Full(c, s) && s.free == 0 && c.inc > 0
  }

  lemma StageStart(c: Config)
    requires Accepted(c)
    ensures Stage(c, Start(c), 0)
  {
    assert 0 * c.inc == 0;
  }

  lemma StageNext(c: Config, s: Counts, g: nat, op: Op)
    requires Accepted(c) && Stage(c, s, g)
    ensures Stage(c, Next(c, s, op), if Grows(c, s, op) then g + 1 else g)
  {
    WrapBelow(s.active);
    WrapBelow(s.free);
    if Grows(c, s, op) {
      assert (g + 1) * c.inc == g * c.inc + c.inc;
    }
  }

  lemma {:induction false} StageRun(c: Config, s: Counts, g: nat, ops: seq<Op>) returns (g': nat)
    requires Accepted(c) && Stage(c, s, g)
    ensures Stage(c, Run(c, s, ops), g')
    decreases |ops|
  {
    g' := g;
    if ops != [] {
      StageNext(c, s, g, ops[0]);
      g' := StageRun(c, Next(c, s, ops[0]), if Grows(c, s, ops[0]) then g + 1 else g, ops[1..]);
    }
  }

  // ----- the limit -----

  /** Whole increments lead from the initial allocation exactly to the limit. */
  predicate KeepsLimit(c: Config) {
    c.init <= c.max && (c.inc == 0 || (c.max - c.init) % c.inc == 0)
  }

  lemma PositiveFactor(d: int, m: nat)
    requires d * m > 0
    ensures d > 0
  {
  }

  lemma Multiples(a: nat, b: nat, m: nat)
    requires m > 0 && a * m < b * m
    ensures (a + 1) * m <= b * m
  {
    assert (b - a) * m == b * m - a * m;
    PositiveFactor(b - a, m);
    assert (b - (a + 1)) * m >= 0;
  }

  lemma StageWithin(c: Config, s: Counts, g: nat)
    requires Accepted(c) && Stage(c, s, g) && c.max != 0 && KeepsLimit(c)
    ensures Total(s) <= c.max
  {
    if !Dynamic(c) && g > 0 && c.inc > 0 {
      var q := (c.max - c.init) / c.inc;
      assert c.max - c.init == q * c.inc;
      Multiples(g - 1, q, c.inc);
    }
  }

  /** Not exactly at the limit means that it will be stepped over. */
  lemma NeverEqual(c: Config, g: nat)
    requires c.init <= c.max && c.inc > 0 && (c.max - c.init) % c.inc != 0
    ensures c.init + g * c.inc != c.max
  {
    if c.init + g * c.inc == c.max {
      assert g * c.inc == c.max - c.init;
      MultipleRemainder(g, c.inc);
    }
  }

  lemma StageTotal(c: Config, s: Counts, g: nat)
    requires !Dynamic(c) && Stage(c, s, g)
    ensures Total(s) == c.init + g * c.inc
  {
  }

  lemma MultipleRemainder(g: nat, m: nat)
    requires m > 0
    ensures g * m % m == 0
  {
    Varint.Divide(g * m, m, g, 0);
  }

  // ----- runs to the extremes -----

  lemma {:induction false} RunBoth(c: Config, s: Counts, a: seq<Op>, b: seq<Op>)
    ensures Run(c, s, a + b) == Run(c, Run(c, s, a), b)
    decreases |a|
  {
    if a == [] {
      assert a + b == b;
    } else {
      assert (a + b)[0] == a[0] && (a + b)[1..] == a[1..] + b;
      RunBoth(c, Next(c, s, a[0]), a[1..], b);
    }
  }

  lemma RunFirst(c: Config, s: Counts, op: Op, ops: seq<Op>)
    ensures Run(c, s, [op] + ops) == Run(c, Next(c, s, op), ops)
  {
    assert ([op] + ops)[1..] == ops;
  }

  /** Requests alone bring a limited pool that can grow to its limit or past it. */
  lemma {:induction false} Climb(c: Config, s: Counts, g: nat) returns (ops: seq<Op>, g': nat)
    requires Accepted(c) && c.max != 0 && c.inc > 0 && !Dynamic(c) && Stage(c, s, g)
    ensures var t := Run(c, s, ops); Stage(c, t, g') && Total(t) >= c.max
    decreases c.max - s.active
  {
    if Total(s) >= c.max {
      ops, g' := [], g;
    } else {
      WrapBelow(s.active);
      WrapBelow(s.free);
      StageNext(c, s, g, Take);
      var rest;
      rest, g' := Climb(c, Next(c, s, Take), if Grows(c, s, Take) then g + 1 else g);
      RunFirst(c, s, Take, rest);
      ops := [Take] + rest;
    }
  }

  /** The limit, documented as the most that in-use plus free may reach, is kept in every run if and only
      if whole increments lead from the initial allocation exactly to it. */
  lemma LimitExactly(c: Config)
    requires Accepted(c) && c.max != 0
    ensures (forall ops :: Total(Run(c, Start(c), ops)) <= c.max) <==> KeepsLimit(c)
  {
    hide Stage, Next;
    if KeepsLimit(c) {
      forall ops
        ensures Total(Run(c, Start(c), ops)) <= c.max
      {
        StageStart(c);
        var g := StageRun(c, Start(c), 0, ops);
        StageWithin(c, Run(c, Start(c), ops), g);
      }
    } else if c.init > c.max {
      assert Run(c, Start(c), []) == Start(c);
    } else {
      StageStart(c);
      var ops, g := Climb(c, Start(c), 0);
      StageTotal(c, Run(c, Start(c), ops), g);
      NeverEqual(c, g);
      assert Total(Run(c, Start(c), ops)) > c.max;
    }
  }

  // ----- the counters -----

  /** The most blocks a limited pool with a standing free list comes to. */
  function Most(c: Config): nat
    requires c.inc > 0
  {
    if c.init >= c.max then c.init else c.init + RoundedUp(c.max - c.init, c.inc)
  }

  /** The arguments for which the free counter can always hold the length of the free list. */
  predicate FreeFits(c: Config) {
    Dynamic(c) || c.inc == 0 || (c.max != 0 && Most(c) <= UINT16_MAX)
  }

  /** x rounded up to a multiple of m. */
  function RoundedUp(x: nat, m: nat): nat
    requires m > 0
  {
    (x + m - 1) / m * m
  }

  lemma RoundedUpAtLeast(x: nat, m: nat)
    requires m > 0
    ensures RoundedUp(x, m) >= x
  {
    var q := (x + m - 1) / m;
    assert x + m - 1 == m * q + (x + m - 1) % m;
  }

  lemma RoundUp(x: nat, m: nat, g: nat)
    requires m > 0 && g > 0 && (g - 1) * m < x
    ensures g * m <= RoundedUp(x, m)
    ensures g * m >= x ==> g * m == RoundedUp(x, m)
  {
    var p := (g - 1) * m;
    assert g * m == p + m;
    if g * m >= x {
      Varint.Divide(x + m - 1, m, g, x - 1 - p);
    } else {
      RoundedUpAtLeast(x, m);
    }
  }

  lemma StageMost(c: Config, s: Counts, g: nat)
    requires Accepted(c) && c.max != 0 && c.inc > 0 && !Dynamic(c) && Stage(c, s, g)
    ensures Total(s) <= Most(c) && (Total(s) >= c.max ==> Total(s) == Most(c))
  {
    hide RoundedUp;
    if g > 0 {
      BelowLimit(c, g);
      RoundUp(c.max - c.init, c.inc, g);
    }
  }

  lemma BelowLimit(c: Config, g: nat)
    requires g > 0 && c.init + (g - 1) * c.inc < c.max
    ensures c.init < c.max && (g - 1) * c.inc < c.max - c.init
  {
    assert (g - 1) * c.inc >= 0;
  }

  /** Releases alone bring every active block into the free list. */
  lemma {:induction false} GiveAll(c: Config, s: Counts) returns (ops: seq<Op>)
    requires !Dynamic(c)
    ensures Run(c, s, ops) == Counts(Total(s), 0)
    decreases s.active
  {
    ops := [];
    if s.active > 0 {
      var rest := GiveAll(c, Next(c, s, Give));
      RunFirst(c, s, Give, rest);
      ops := [Give] + rest;
    }
  }

  /** A pool without a limit that can grow has as many active blocks as are asked for. */
  lemma {:induction false} TakeMany(c: Config, s: Counts, k: nat) returns (ops: seq<Op>)
    requires c.max == 0 && c.inc > 0
    ensures Run(c, s, ops).active == s.active + k
    decreases k
  {
    ops := [];
    if k > 0 {
      var rest := TakeMany(c, Next(c, s, Take), k - 1);
      RunFirst(c, s, Take, rest);
      ops := [Take] + rest;
    }
  }

  /** The free counter is exact in every run if and only if the arguments bound the pool within 16 bits. */
  lemma FreeCounterExactly(c: Config)
    requires Accepted(c)
    ensures (forall ops :: Wrap16(Run(c, Start(c), ops).free) == Run(c, Start(c), ops).free) <==> FreeFits(c)
  {
    if FreeFits(c) {
      forall ops
        ensures Wrap16(Run(c, Start(c), ops).free) == Run(c, Start(c), ops).free
      {
        var s := Run(c, Start(c), ops);
        StageStart(c);
        var g := StageRun(c, Start(c), 0, ops);
        if !Dynamic(c) && c.inc > 0 {
          StageMost(c, s, g);
        }
        WrapBelow(s.free);
      }
    } else {
      var up;
      if c.max != 0 {
        var g;
        StageStart(c);
        up, g := Climb(c, Start(c), 0);
        StageMost(c, Run(c, Start(c), up), g);
      } else {
        up := TakeMany(c, Start(c), UINT16_MAX + 1);
      }
      var s := Run(c, Start(c), up);
      var down := GiveAll(c, s);
      RunBoth(c, Start(c), up, down);
      WrapBelow(Total(s));
      assert Wrap16(Run(c, Start(c), up + down).free) != Run(c, Start(c), up + down).free;
    }
  }

  /** The in-use counter is exact in every run if and only if the pool has a limit or cannot grow. */
  lemma InUseCounterExactly(c: Config)
    requires Accepted(c)
    ensures (forall ops :: Wrap16(Run(c, Start(c), ops).active) == Run(c, Start(c), ops).active) <==>
            c.max != 0 || c.inc == 0
  {
    if c.max != 0 || c.inc == 0 {
      forall ops
        ensures Wrap16(Run(c, Start(c), ops).active) == Run(c, Start(c), ops).active
      {
        var s := Run(c, Start(c), ops);
        StageStart(c);
        var g := StageRun(c, Start(c), 0, ops);
        WrapBelow(s.active);
      }
    } else {
      var ops := TakeMany(c, Start(c), UINT16_MAX + 1);
      WrapBelow(UINT16_MAX + 1);
      assert Wrap16(Run(c, Start(c), ops).active) != Run(c, Start(c), ops).active;
    }
  }

  lemma {:induction false} StaysFull(c: Config, ops: seq<Op>)
    requires Accepted(c) && c.init >= c.max > 0
    ensures Run(c, Start(c), ops) == Start(c)
    decreases |ops|
  {
    if ops != [] {
      WrapBelow(c.init);
      StaysFull(c, ops[1..]);
    }
  }

  /** A pool never hands out a block if and only if it starts at its limit or beyond. */
  lemma UselessExactly(c: Config)
    requires Accepted(c)
    ensures (forall ops :: Run(c, Start(c), ops).active == 0) <==> c.max != 0 && c.init >= c.max
  {
    if c.max != 0 && c.init >= c.max {
      forall ops
        ensures Run(c, Start(c), ops).active == 0
      {
        StaysFull(c, ops);
      }
    } else {
      WrapBelow(c.init);
      RunFirst(c, Start(c), Take, []);
      assert Run(c, Start(c), [Take] + []).active == 1;
    }
  }
}
