/** The network buffer allocator of BufferManagement.c: a semaphore that counts descriptors, and a
    descriptor pool behind a mutex, with the calls of all threads interleaved step by step. */
module Buffers {
  import opened Semaphore
  import PoolCounts
  import Rsrc

  /** The allocator at one moment. Nothing in this representation keeps a descriptor from being in two
      places, or twice in one. */
  datatype Buffers = Buffers(
    sem: State,
    /** The free list of the descriptor pool, first to be taken first. */
    free: seq<nat>,
    /** Descriptors that a get has taken from the pool and is attaching a payload to. */
    filling: multiset<nat>,
    /** Descriptors returned by a get and not yet given to a release. */
    held: multiset<nat>,
    /** Descriptors inside a release that has not yet reached the pool. */
    releasing: multiset<nat>,
    /** Gets whose wait succeeded and that have not yet called the pool. */
    granted: nat,
    /** Releases that have freed their descriptor and have not yet posted. */
    freed: nat,
    /** The descriptor pool gives freed blocks back to the heap. */
    freeOnFree: bool,
    /** A get went on with the NULL that the pool returned. */
    crashed: bool)

  datatype Action =
    | GetWait(t: Thread) | GetTake(t: Thread) | GetTimeout(t: Thread)
    | GetAlloc | PayloadReady(d: nat) | PayloadFails(d: nat)
    | Release(d: nat) | Free(d: nat) | FreePost(t: Thread) | FreeGive(t: Thread)

  /** sizeof (NetworkBufferDescriptor_t), which is not zero, and the increment of the pool. */
  const DESCRIPTOR_SIZE: nat := 1
  const INCREMENT: nat := 0

  /** xNetworkBuffersInitialise, for n descriptors; without any, making the pool aborts. */
  function Start(n: nat): Buffers
    requires 0 < n <= SEM_VALUE_MAX
  {
    Buffers(Init(n), Upto(n), multiset{}, multiset{}, multiset{}, 0, 0,
            PoolCounts.FreesOnFree(DESCRIPTOR_SIZE, n, INCREMENT), false)
  }

  /** The pool carves its block and pushes each item in front. */
  function Upto(n: nat): (s: seq<nat>)
    ensures |s| == n
  {
    if n == 0 then [] else [n - 1] + Upto(n - 1)
  }

  /** When a step can be taken. A descriptor may be released by any thread, but once for each time it
      was returned. */
  predicate Can(s: Buffers, a: Action) {
    !s.crashed &&
    match a
    case GetWait(t) => Enabled(s.sem, Wait(t))
    case GetTake(t) => Enabled(s.sem, Take(t))
    case GetTimeout(t) => Enabled(s.sem, Timeout(t))
    case GetAlloc => s.granted > 0
    case PayloadReady(d) => d in s.filling
    case PayloadFails(d) => d in s.filling
    case Release(d) => d in s.held
    case Free(d) => d in s.releasing
    case FreePost(t) => s.freed > 0 && Enabled(s.sem, Post(t))
    case FreeGive(t) => Enabled(s.sem, Give(t))
  }

  function Do(s: Buffers, a: Action): Buffers
    requires Can(s, a)
  {
    match a
    case GetWait(t) =>
      s.(sem := Step(s.sem, Wait(t)), granted := if s.sem.value > 0 then s.granted + 1 else s.granted)
    case GetTake(t) => s.(sem := Step(s.sem, Take(t)), granted := s.granted + 1)
    case GetTimeout(t) => s.(sem := Step(s.sem, Timeout(t)))
    case GetAlloc =>
      if s.free == [] then s.(crashed := true)
      else s.(free := s.free[1..], granted := s.granted - 1, filling := s.filling + multiset{s.free[0]})
    case PayloadReady(d) => s.(filling := s.filling - multiset{d}, held := s.held + multiset{d})
    case PayloadFails(d) => s.(filling := s.filling - multiset{d}, releasing := s.releasing + multiset{d})
    case Release(d) => s.(held := s.held - multiset{d}, releasing := s.releasing + multiset{d})
    case Free(d) =>
      s.(releasing := s.releasing - multiset{d}, free := Rsrc.FreeListAfter(s.freeOnFree, s.free, d), freed := s.freed + 1)
    case FreePost(t) => s.(sem := Step(s.sem, Post(t)), freed := s.freed - 1)
    case FreeGive(t) => s.(sem := Step(s.sem, Give(t)))
  }

  // ----- the invariant -----

  /** All descriptors, wherever they are. */
  function Everywhere(s: Buffers): multiset<nat> {
    multiset(s.free) + s.filling + s.held + s.releasing
  }

  /** A free descriptor for every semaphore unit, for every get between its wait and its call of the
      pool, and for every release between its free and its post. */
  predicate FreeCovers(s: Buffers) {
    |s.free| == Tokens(s.sem) + s.granted + s.freed
  }

  predicate Good(s: Buffers, all: multiset<nat>) {
    !s.crashed && !s.freeOnFree && Inv(s.sem) && Everywhere(s) == all && |all| <= SEM_VALUE_MAX && FreeCovers(s)
  }

  lemma StartGood(n: nat)
    requires 0 < n <= SEM_VALUE_MAX
    ensures Good(Start(n), multiset(Upto(n))) <==> n >= 2
  {
    InitInv(n);
  }

  lemma {:induction false} UptoOnce(n: nat, d: nat)
    ensures multiset(Upto(n))[d] == if d < n then 1 else 0
  {
    if n > 0 {
      UptoOnce(n - 1, d);
    }
  }

  /** No descriptor is in two places, or twice in one: not twice in the free list, not free and held,
      not returned by two gets without a release between them. */
  ghost predicate NeverShared(s: Buffers, n: nat) {
    forall d: nat :: multiset(s.free)[d] + s.filling[d] + s.held[d] + s.releasing[d] == if d < n then 1 else 0
  }

  lemma OnePlaceEach(s: Buffers, n: nat)
    requires Everywhere(s) == multiset(Upto(n))
    ensures NeverShared(s, n)
  {
    forall d: nat
      ensures multiset(s.free)[d] + s.filling[d] + s.held[d] + s.releasing[d] == if d < n then 1 else 0
    {
      UptoOnce(n, d);
      assert Everywhere(s)[d] == multiset(s.free)[d] + s.filling[d] + s.held[d] + s.releasing[d];
    }
  }

  lemma Sizes(s: Buffers)
    ensures |Everywhere(s)| == |s.free| + |s.filling| + |s.held| + |s.releasing|
  {
  }

  // ----- the steps -----

  /** The counter and the kernel semaphore never hold more than there are descriptors. */
  lemma FewTokens(s: Buffers, all: multiset<nat>)
    requires Good(s, all)
    ensures Tokens(s.sem) <= SEM_VALUE_MAX
  {
    Sizes(s);
  }

  /** The step of the semaphore in an action, if it has one. */
  predicate Signals(a: Action, e: Event) {
    match a
    case GetWait(t) => e == Wait(t)
    case GetTake(t) => e == Take(t)
    case GetTimeout(t) => e == Timeout(t)
    case FreePost(t) => e == Post(t)
    case FreeGive(t) => e == Give(t)
    case _ => false
  }

  lemma SemaphoreGood(s: Buffers, all: multiset<nat>, a: Action, e: Event)
    requires Good(s, all) && Can(s, a) && Signals(a, e)
    ensures Good(Do(s, a), all) <==> !(a.GetWait? && s.sem.value == INT32_MIN)
  {
    hide Upto;
    FewTokens(s, all);
    var s' := Do(s, a);
    assert s'.sem == Step(s.sem, e) && Everywhere(s') == Everywhere(s) && s'.free == s.free;
    StepKeeps(s.sem, e);
    if Overflows(s.sem, e) && !e.Wait? {
      OverflowNeeds(s.sem, e);
    } else if !Overflows(s.sem, e) {
      assert Conserved(s'.sem) && Conserved(s.sem);
    }
  }

  lemma AllocGood(s: Buffers, all: multiset<nat>)
    requires Good(s, all) && s.granted > 0
    ensures Good(Do(s, GetAlloc), all)
  {
    assert s.free == [s.free[0]] + s.free[1..];
    assert Everywhere(Do(s, GetAlloc)) == Everywhere(s);
  }

  lemma MoveGood(s: Buffers, all: multiset<nat>, a: Action)
    requires Good(s, all) && Can(s, a) && (a.PayloadReady? || a.PayloadFails? || a.Release? || a.Free?)
    ensures Good(Do(s, a), all)
  {
    assert Everywhere(Do(s, a)) == Everywhere(s);
  }

  /** The get that comes when 2^31 more gets than there were units have already waited. */
  predicate Wraps(s: Buffers, a: Action) {
    a.GetWait? && s.sem.waits == s.sem.initial + s.sem.posts - INT32_MIN
  }

  /** A step keeps the invariant exactly if it is not a wait that wraps the counter. */
  lemma StepGood(s: Buffers, all: multiset<nat>, a: Action)
    requires Good(s, all) && Can(s, a)
    ensures Good(Do(s, a), all) <==> !Wraps(s, a)
  {
    CounterEquation(s.sem);
    match a
    case GetWait(t) => SemaphoreGood(s, all, a, Wait(t));
    case GetTake(t) => SemaphoreGood(s, all, a, Take(t));
    case GetTimeout(t) => SemaphoreGood(s, all, a, Timeout(t));
    case FreePost(t) => SemaphoreGood(s, all, a, Post(t));
    case FreeGive(t) => SemaphoreGood(s, all, a, Give(t));
    case GetAlloc => AllocGood(s, all);
    case _ => MoveGood(s, all, a);
  }

  // ----- whole runs -----

  predicate Possible(s: Buffers, az: seq<Action>)
    decreases |az|
  {
    az == [] || (Can(s, az[0]) && Possible(Do(s, az[0]), az[1..]))
  }

  function After(s: Buffers, az: seq<Action>): Buffers
    requires Possible(s, az)
    decreases |az|
  {
    if az == [] then s else After(Do(s, az[0]), az[1..])
  }

  function Gets(az: seq<Action>): nat {
    if az == [] then 0 else (if az[0].GetWait? then 1 else 0) + Gets(az[1..])
  }

  predicate NeverWraps(s: Buffers, az: seq<Action>)
    requires Possible(s, az)
    decreases |az|
  {
    az == [] || (!Wraps(s, az[0]) && NeverWraps(Do(s, az[0]), az[1..]))
  }

  predicate AlwaysGood(s: Buffers, all: multiset<nat>, az: seq<Action>)
    requires Possible(s, az)
    decreases |az|
  {
    Good(s, all) && (az == [] || AlwaysGood(Do(s, az[0]), all, az[1..]))
  }

  /** The invariant holds all along a run exactly if the counter never wraps. */
  lemma {:induction false} RunGood(s: Buffers, all: multiset<nat>, az: seq<Action>)
    requires Good(s, all) && Possible(s, az)
    ensures AlwaysGood(s, all, az) <==> NeverWraps(s, az)
    ensures NeverWraps(s, az) ==> Good(After(s, az), all)
    decreases |az|
  {
    if az != [] {
      StepGood(s, all, az[0]);
      if Wraps(s, az[0]) {
        assert !AlwaysGood(Do(s, az[0]), all, az[1..]);
      } else {
        RunGood(Do(s, az[0]), all, az[1..]);
      }
    }
  }

  lemma {:induction false} FewGets(s: Buffers, all: multiset<nat>, az: seq<Action>)
    requires Good(s, all) && Possible(s, az) && s.sem.waits + Gets(az) <= s.sem.initial + s.sem.posts - INT32_MIN
    ensures NeverWraps(s, az)
    decreases |az|
  {
    if az != [] {
      StepGood(s, all, az[0]);
      FewGets(Do(s, az[0]), all, az[1..]);
    }
  }

  /** With two descriptors or more, in every interleaving of at most 2^31 + n gets with any number of
      releases: descriptors are never lost or shared, the free ones are exactly those promised to
      someone, and whoever was granted a unit finds the pool non-empty. */
  lemma EveryInterleaving(n: nat, az: seq<Action>)
    requires 2 <= n <= SEM_VALUE_MAX && Possible(Start(n), az) && Gets(az) <= n - INT32_MIN
    ensures var s := After(Start(n), az);
            NeverShared(s, n) && FreeCovers(s) && !s.crashed && (s.granted > 0 ==> s.free != []) &&
            |s.free| + |s.filling| + |s.held| + |s.releasing| == n
  {
    StartGood(n);
    FewGets(Start(n), multiset(Upto(n)), az);
    RunGood(Start(n), multiset(Upto(n)), az);
    OnePlaceEach(After(Start(n), az), n);
    Sizes(After(Start(n), az));
  }

  // ----- what has been returned, by what was done -----

  lemma HeadCounts(az: seq<Action>, a: Action)
    requires az != []
    ensures multiset(az)[a] == multiset(az[1..])[a] + if az[0] == a then 1 else 0
  {
    assert az == [az[0]] + az[1..];
  }

  lemma DoCounts(s: Buffers, a: Action, d: nat)
    requires Can(s, a)
    ensures Do(s, a).held[d] + (if a == Release(d) then 1 else 0) == s.held[d] + if a == PayloadReady(d) then 1 else 0
    ensures Do(s, a).releasing[d] + (if a == Free(d) then 1 else 0) ==
            s.releasing[d] + if a == Release(d) || a == PayloadFails(d) then 1 else 0
  {
  }

  /** A descriptor is held exactly as often as it was given a payload more than it was released: a get whose
      payload cannot be had returns none. On its way back to the pool it is exactly for each release, and for
      each payload that could not be had, that has not got there. */
  lemma {:induction false} HeldExactly(s: Buffers, az: seq<Action>, d: nat)
    requires Possible(s, az)
    ensures var t := After(s, az);
            t.held[d] + multiset(az)[Release(d)] == s.held[d] + multiset(az)[PayloadReady(d)] &&
            t.releasing[d] + multiset(az)[Free(d)] ==
            s.releasing[d] + multiset(az)[Release(d)] + multiset(az)[PayloadFails(d)]
    decreases |az|
  {
    if az != [] {
      hide Do, Can;
      DoCounts(s, az[0], d);
      HeadCounts(az, Release(d));
      HeadCounts(az, PayloadReady(d));
      HeadCounts(az, PayloadFails(d));
      HeadCounts(az, Free(d));
      HeldExactly(Do(s, az[0]), az[1..], d);
    }
  }

  // ----- both conditions are needed -----

  /** The actions can be taken one after the other from s, end in t, and contain this many gets. */
  predicate Leads(s: Buffers, az: seq<Action>, t: Buffers, gets: nat) {
    Possible(s, az) && After(s, az) == t && Gets(az) == gets
  }

  lemma Stay(s: Buffers)
    ensures Leads(s, [], s, 0)
  {
  }

  lemma First(s: Buffers, a: Action, az: seq<Action>, t: Buffers, gets: nat)
    requires Can(s, a) && Leads(Do(s, a), az, t, gets)
    ensures Leads(s, [a] + az, t, gets + if a.GetWait? then 1 else 0)
  {
    assert ([a] + az)[1..] == az;
  }

  lemma {:induction false} Then(s: Buffers, a: seq<Action>, t: Buffers, g: nat, b: seq<Action>, u: Buffers, h: nat)
    requires Leads(s, a, t, g) && Leads(t, b, u, h)
    ensures Leads(s, a + b, u, g + h)
    decreases |a|
  {
    if a == [] {
      assert a + b == b;
    } else {
      var k := if a[0].GetWait? then 1 else 0;
      Then(Do(s, a[0]), a[1..], t, g - k, b, u, h);
      First(s, a[0], a[1..] + b, u, g - k + h);
      assert a + b == [a[0]] + (a[1..] + b);
    }
  }

  predicate Resting(s: Buffers) {
    !s.crashed && s.sem.blocked == {} && s.sem.giving == {} && s.sem.kernel == 0 && s.granted == 0 && s.freed == 0 &&
    s.filling == multiset{}
  }

  /** A thread takes all the descriptors. */
  lemma {:induction false} Drain(s: Buffers) returns (az: seq<Action>, t: Buffers)
    requires Resting(s) && s.sem.value == |s.free| <= SEM_VALUE_MAX
    ensures Leads(s, az, t, |s.free|) && Resting(t) && t.free == [] && t.sem.value == 0
    decreases |s.free|
  {
    if s.free == [] {
      Stay(s);
      az, t := [], s;
    } else {
      var d := s.free[0];
      var s1 := Do(s, GetWait(0));
      var s2 := Do(s1, GetAlloc);
      var s3 := Do(s2, PayloadReady(d));
      assert s3.filling == multiset{};
      var rest;
      rest, t := Drain(s3);
      First(s2, PayloadReady(d), rest, t, |s3.free|);
      First(s1, GetAlloc, [PayloadReady(d)] + rest, t, |s3.free|);
      az := [GetWait(0)] + ([GetAlloc] + ([PayloadReady(d)] + rest));
      First(s, GetWait(0), [GetAlloc] + ([PayloadReady(d)] + rest), t, |s3.free|);
    }
  }

  /** Each poll that finds nothing takes one more from the counter. */
  lemma {:induction false} Poll(s: Buffers, k: nat) returns (az: seq<Action>, t: Buffers)
    requires Resting(s) && s.free == [] && s.sem.value <= 0 && INT32_MIN <= s.sem.value - k
    ensures Leads(s, az, t, k) && Resting(t) && t.free == [] && t.sem.value == s.sem.value - k
    decreases k
  {
    if k == 0 {
      Stay(s);
      az, t := [], s;
    } else {
      var s1 := Do(s, GetWait(0));
      var s2 := Do(s1, GetTimeout(0));
      assert s2.sem.blocked == {};
      var rest;
      rest, t := Poll(s2, k - 1);
      First(s1, GetTimeout(0), rest, t, k - 1);
      First(s, GetWait(0), [GetTimeout(0)] + rest, t, k - 1);
      az := [GetWait(0)] + ([GetTimeout(0)] + rest);
    }
  }

  /** All descriptors held and the counter at its lowest, after exactly 2^31 + n gets. */
  lemma Lowest(n: nat) returns (az: seq<Action>, t: Buffers)
    requires 0 < n <= SEM_VALUE_MAX
    ensures Leads(Start(n), az, t, n - INT32_MIN) && Resting(t) && t.free == [] && t.sem.value == INT32_MIN
  {
    var drain, s := Drain(Start(n));
    var polls;
    polls, t := Poll(s, -INT32_MIN);
    Then(Start(n), drain, s, n, polls, t, -INT32_MIN);
    az := drain + polls;
  }

  /** One get more and the counter wraps: it promises 2^31 - 1 descriptors and there is none. */
  lemma OneGetMore(n: nat) returns (az: seq<Action>, t: Buffers)
    requires 0 < n <= SEM_VALUE_MAX
    ensures Leads(Start(n), az, t, n - INT32_MIN + 1) && !FreeCovers(t)
  {
    var before, s := Lowest(n);
    t := Do(s, GetWait(0));
    Stay(t);
    First(s, GetWait(0), [], t, 0);
    Then(Start(n), before, s, n - INT32_MIN, [GetWait(0)] + [], t, 1);
    az := before + ([GetWait(0)] + []);
  }

  /** That get times out, the next is granted a descriptor that does not exist and goes on with NULL. */
  lemma PollingCrashes(n: nat) returns (az: seq<Action>, t: Buffers)
    requires 0 < n <= SEM_VALUE_MAX
    ensures Leads(Start(n), az, t, n - INT32_MIN + 2) && t.crashed
  {
    var before, s := Lowest(n);
    var s1 := Do(s, GetWait(0));
    var s2 := Do(s1, GetTimeout(0));
    var s3 := Do(s2, GetWait(0));
    t := Do(s3, GetAlloc);
    Stay(t);
    First(s3, GetAlloc, [], t, 0);
    First(s2, GetWait(0), [GetAlloc] + [], t, 0);
    First(s1, GetTimeout(0), [GetWait(0)] + ([GetAlloc] + []), t, 1);
    var last := [GetWait(0)] + ([GetTimeout(0)] + ([GetWait(0)] + ([GetAlloc] + [])));
    First(s, GetWait(0), [GetTimeout(0)] + ([GetWait(0)] + ([GetAlloc] + [])), t, 1);
    Then(Start(n), before, s, n - INT32_MIN, last, t, 2);
    az := before + last;
  }

  /** One get of the only descriptor. */
  lemma GetOnly() returns (t: Buffers)
    ensures Leads(Start(1), [GetWait(0)] + ([GetAlloc] + ([PayloadReady(0)] + [])), t, 1)
    ensures t == Start(1).(sem := Step(Init(1), Wait(0)), free := [], held := multiset{0})
  {
    var s := Start(1);
    assert s.free == [0];
    hide Leads, Upto;
    var s1 := Do(s, GetWait(0));
    var s2 := Do(s1, GetAlloc);
    t := Do(s2, PayloadReady(0));
    assert t.filling == multiset{} && t.held == multiset{0};
    Stay(t);
    First(s2, PayloadReady(0), [], t, 0);
    First(s1, GetAlloc, [PayloadReady(0)] + [], t, 0);
    First(s, GetWait(0), [GetAlloc] + ([PayloadReady(0)] + []), t, 0);
  }

  /** Its release, which gives the descriptor to the heap and still posts. */
  lemma ReleaseOnly(s: Buffers) returns (t: Buffers)
    requires s == Start(1).(sem := Step(Init(1), Wait(0)), free := [], held := multiset{0})
    ensures Leads(s, [Release(0)] + ([Free(0)] + ([FreePost(0)] + [])), t, 0)
    ensures !t.crashed && t.free == [] && t.granted == 0 && t.sem.value == 1 && Idle(t.sem, 0)
  {
    hide Leads, Upto;
    var s1 := Do(s, Release(0));
    assert s1.releasing == multiset{0};
    var s2 := Do(s1, Free(0));
    assert s2.free == [] && s2.freed == 1;
    t := Do(s2, FreePost(0));
    Stay(t);
    First(s2, FreePost(0), [], t, 0);
    First(s1, Free(0), [FreePost(0)] + [], t, 0);
    First(s, Release(0), [Free(0)] + ([FreePost(0)] + []), t, 0);
  }

  /** A single descriptor makes a pool without a free list: released once, the descriptor is gone, but
      its release still posts, and the second get goes on with NULL. */
  lemma SingleDescriptorCrashes() returns (az: seq<Action>, t: Buffers)
    ensures Leads(Start(1), az, t, 2) && t.crashed
  {
    hide Leads, Start, Gets;
    var get := [GetWait(0)] + ([GetAlloc] + ([PayloadReady(0)] + []));
    var s := GetOnly();
    var release := [Release(0)] + ([Free(0)] + ([FreePost(0)] + []));
    var s' := ReleaseOnly(s);
    Then(Start(1), get, s, 1, release, s', 0);
    var s1 := Do(s', GetWait(0));
    t := Do(s1, GetAlloc);
    Stay(t);
    First(s1, GetAlloc, [], t, 0);
    First(s', GetWait(0), [GetAlloc] + [], t, 0);
    Then(Start(1), get + release, s', 1, [GetWait(0)] + ([GetAlloc] + []), t, 1);
    az := get + release + ([GetWait(0)] + ([GetAlloc] + []));
  }

  /** The allocator is safe for all runs of up to 2^31 + n gets exactly if there are at least two
      descriptors. */
  lemma SafeExactly(n: nat)
    requires 0 < n <= SEM_VALUE_MAX
    ensures (forall az :: Possible(Start(n), az) && Gets(az) <= n - INT32_MIN ==> !After(Start(n), az).crashed) <==> n >= 2
  {
    if n >= 2 {
      forall az | Possible(Start(n), az) && Gets(az) <= n - INT32_MIN
        ensures !After(Start(n), az).crashed
      {
        EveryInterleaving(n, az);
      }
    } else {
      var az, t := SingleDescriptorCrashes();
      assert Possible(Start(n), az) && Gets(az) <= n - INT32_MIN && After(Start(n), az).crashed;
    }
  }
}
