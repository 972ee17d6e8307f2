/** The counting semaphore of FreeRTOS_POSIX_semaphore.c: an atomic 32-bit counter and a kernel
    semaphore that only queues threads, as a machine whose steps any threads may interleave.

    A wait that times out never gives back what it took from the counter, so the counter is not the
    number of free units. What is conserved instead is stated by `Inv`. */
module Semaphore {

  type Thread = nat

  const SEM_VALUE_MAX: int := 0x7FFF
  const INT32_MAX: int := 0x7FFF_FFFF
  const INT32_MIN: int := -0x8000_0000

  /** The semaphore, the threads inside its calls, and a record of what has happened. */
  datatype State = State(
    value: int,
    kernel: nat,
    /** Decremented a counter that was not positive and now wait in xSemaphoreTake. */
    blocked: set<Thread>,
    /** Incremented a negative counter and have not yet called xSemaphoreGive. */
    giving: set<Thread>,
    initial: nat,
    waits: nat,
    posts: nat,
    grants: nat,
    timeouts: nat)

  datatype Event = Wait(t: Thread) | Take(t: Thread) | Timeout(t: Thread) | Post(t: Thread) | Give(t: Thread)

  /** sem_init, where it succeeds. */
  function Init(value: nat): State
    requires value <= SEM_VALUE_MAX
  {
    State(value, 0, {}, {}, value, 0, 0, 0, 0)
  }

  predicate Idle(s: State, t: Thread) {
    t !in s.blocked && t !in s.giving
  }

  /** When a step can be taken. A wait may time out at any moment, also at once. */
  predicate Enabled(s: State, e: Event) {
    match e
    case Wait(t) => Idle(s, t)
    case Take(t) => t in s.blocked && s.kernel > 0
    case Timeout(t) => t in s.blocked
    case Post(t) => Idle(s, t)
    case Give(t) => t in s.giving
  }

  /** The counter as a signed 32-bit word. */
  function Wrap(v: int): int {
    if v > INT32_MAX then v - 0x1_0000_0000 else if v < INT32_MIN then v + 0x1_0000_0000 else v
  }

  function Step(s: State, e: Event): State
    requires Enabled(s, e)
  {
    match e
    case Wait(t) =>
      var s' := s.(value := Wrap(s.value - 1), waits := s.waits + 1);
      if s.value > 0 then s'.(grants := s.grants + 1) else s'.(blocked := s.blocked + {t})
    case Take(t) => s.(kernel := s.kernel - 1, blocked := s.blocked - {t}, grants := s.grants + 1)
    case Timeout(t) => s.(blocked := s.blocked - {t}, timeouts := s.timeouts + 1)
    case Post(t) =>
      var s' := s.(value := Wrap(s.value + 1), posts := s.posts + 1);
      if s.value < 0 then s'.(giving := s.giving + {t}) else s'
    case Give(t) =>
      // A give to a full kernel semaphore fails, and the failure is ignored.
      s.(giving := s.giving - {t}, kernel := if s.kernel < SEM_VALUE_MAX then s.kernel + 1 else s.kernel)
  }

  function Positive(x: int): nat {
    if x > 0 then x else 0
  }

  /** Units that a wait can still get: in the counter, in the kernel, or on the way to it. */
  function Tokens(s: State): nat {
    Positive(s.value) + s.kernel + |s.giving|
  }

  /** Every unit is granted or can still be granted. */
  predicate Conserved(s: State) {
    s.grants + Tokens(s) == s.initial + s.posts
  }

  /** Kernel units made or in the making match the waiters, present and timed out, that asked for
      them, less those the counter still owes. */
  predicate Paired(s: State) {
    |s.blocked| + s.timeouts == s.kernel + |s.giving| + Positive(-s.value)
  }

  predicate Inv(s: State) {
    INT32_MIN <= s.value <= INT32_MAX && s.kernel <= SEM_VALUE_MAX && s.blocked !! s.giving &&
    Conserved(s) && Paired(s) && s.grants + |s.blocked| + s.timeouts == s.waits
  }

  /** A step that leaves the range of the counter or of the kernel semaphore. */
  predicate Overflows(s: State, e: Event) {
    match e
    case Wait(_) => s.value == INT32_MIN
    case Post(_) => s.value == INT32_MAX
    case Give(_) => s.kernel == SEM_VALUE_MAX
    case _ => false
  }

  lemma InitInv(value: nat)
    requires value <= SEM_VALUE_MAX
    ensures Inv(Init(value))
  {
  }

  lemma Added<T>(a: set<T>, x: T)
    requires x !in a
    ensures |a + {x}| == |a| + 1
  {
  }

  lemma Removed<T>(a: set<T>, x: T)
    requires x in a
    ensures |a - {x}| == |a| - 1
  {
  }

  lemma WaitKeeps(s: State, t: Thread)
    requires Inv(s) && Idle(s, t)
    ensures Inv(Step(s, Wait(t))) <==> s.value != INT32_MIN
  {
    Added(s.blocked, t);
  }

  lemma PostKeeps(s: State, t: Thread)
    requires Inv(s) && Idle(s, t)
    ensures Inv(Step(s, Post(t))) <==> s.value != INT32_MAX
  {
    Added(s.giving, t);
  }

  lemma TakeKeeps(s: State, t: Thread)
    requires Inv(s) && Enabled(s, Take(t))
    ensures Inv(Step(s, Take(t)))
  {
    Removed(s.blocked, t);
  }

  lemma TimeoutKeeps(s: State, t: Thread)
    requires Inv(s) && t in s.blocked
    ensures Inv(Step(s, Timeout(t)))
  {
    Removed(s.blocked, t);
  }

  lemma GiveKeeps(s: State, t: Thread)
    requires Inv(s) && t in s.giving
    ensures Inv(Step(s, Give(t))) <==> s.kernel != SEM_VALUE_MAX
  {
    Removed(s.giving, t);
  }

  /** A step keeps the invariant exactly if it does not overflow. */
  lemma StepKeeps(s: State, e: Event)
    requires Inv(s) && Enabled(s, e)
    ensures Inv(Step(s, e)) <==> !Overflows(s, e)
  {
    hide Inv, Step;
    match e
    case Wait(t) => WaitKeeps(s, t);
    case Post(t) => PostKeeps(s, t);
    case Take(t) => TakeKeeps(s, t);
    case Timeout(t) => TimeoutKeeps(s, t);
    case Give(t) => GiveKeeps(s, t);
  }

  // ----- whole runs -----

  /** Every step can be taken when its turn comes. */
  predicate Feasible(s: State, es: seq<Event>)
    decreases |es|
  {
    es == [] || (Enabled(s, es[0]) && Feasible(Step(s, es[0]), es[1..]))
  }

  function Run(s: State, es: seq<Event>): State
    requires Feasible(s, es)
    decreases |es|
  {
    if es == [] then s else Run(Step(s, es[0]), es[1..])
  }

  /** The invariant holds at the start and after every step. */
  predicate Always(s: State, es: seq<Event>)
    requires Feasible(s, es)
    decreases |es|
  {
    Inv(s) && (es == [] || Always(Step(s, es[0]), es[1..]))
  }

  predicate Clean(s: State, es: seq<Event>)
    requires Feasible(s, es)
    decreases |es|
  {
    es == [] || (!Overflows(s, es[0]) && Clean(Step(s, es[0]), es[1..]))
  }

  /** In every interleaving the invariant holds all along exactly if no step overflows. */
  lemma {:induction false} RunKeeps(s: State, es: seq<Event>)
    requires Inv(s) && Feasible(s, es)
    ensures Always(s, es) <==> Clean(s, es)
    ensures Clean(s, es) ==> Inv(Run(s, es))
    decreases |es|
  {
    if es != [] {
      StepKeeps(s, es[0]);
      if !Overflows(s, es[0]) {
        RunKeeps(Step(s, es[0]), es[1..]);
      } else {
        assert !Always(Step(s, es[0]), es[1..]);
      }
    }
  }

  /** So in every interleaving units are conserved and no wake-up is lost, although timeouts never
      restore the counter. */
  lemma EveryRun(initial: nat, es: seq<Event>)
    requires initial <= SEM_VALUE_MAX && Feasible(Init(initial), es) && Clean(Init(initial), es)
    ensures var s := Run(Init(initial), es); Conserved(s) && Paired(s) && NoLostWakeup(s)
  {
    InitInv(initial);
    RunKeeps(Init(initial), es);
    Wakeups(Run(Init(initial), es));
  }

  // ----- what it takes to overflow -----

  function Waits(es: seq<Event>): nat {
    if es == [] then 0 else (if es[0].Wait? then 1 else 0) + Waits(es[1..])
  }

  /** Never more units to be had than a semaphore may count. */
  predicate Modest(s: State, es: seq<Event>)
    requires Feasible(s, es)
    decreases |es|
  {
    Tokens(s) <= SEM_VALUE_MAX && (es == [] || Modest(Step(s, es[0]), es[1..]))
  }

  /** A history of calls in numbers: how many began to wait, posted, and gave up. */
  function Posts(es: seq<Event>): nat {
    if es == [] then 0 else (if es[0].Post? then 1 else 0) + Posts(es[1..])
  }

  function Timeouts(es: seq<Event>): nat {
    if es == [] then 0 else (if es[0].Timeout? then 1 else 0) + Timeouts(es[1..])
  }

  lemma {:induction false} Recorded(s: State, es: seq<Event>)
    requires Feasible(s, es)
    ensures var t := Run(s, es);
            t.initial == s.initial && t.waits == s.waits + Waits(es) && t.posts == s.posts + Posts(es) &&
            t.timeouts == s.timeouts + Timeouts(es)
    decreases |es|
  {
    if es != [] {
      Recorded(Step(s, es[0]), es[1..]);
    }
  }

  /** In every run without overflow, by what was called: as many waits have been granted as came and neither gave
      up nor still block, and that is never more than there were units; the counter is the initial units and the
      posts less the waits. */
  lemma GrantsExactly(initial: nat, es: seq<Event>)
    requires initial <= SEM_VALUE_MAX && Feasible(Init(initial), es) && Clean(Init(initial), es)
    ensures var s := Run(Init(initial), es);
            s.value == initial + Posts(es) - Waits(es) &&
            s.grants == Waits(es) - Timeouts(es) - |s.blocked| && s.grants <= initial + Posts(es)
  {
    InitInv(initial);
    RunKeeps(Init(initial), es);
    Recorded(Init(initial), es);
  }

  /** Who blocks and who is giving, thread by thread: a wait blocks exactly if the counter is not positive, and a
      post gives exactly if it is negative. */
  lemma ThreadStep(s: State, e: Event, t: Thread)
    requires Enabled(s, e)
    ensures var s' := Step(s, e);
            (t in s'.blocked <==> if e == Wait(t) then s.value <= 0 else t in s.blocked && e != Take(t) && e != Timeout(t)) &&
            (t in s'.giving <==> if e == Post(t) then s.value < 0 else t in s.giving && e != Give(t))
  {
  }

  /** The counter is what was there and came back, less what was taken, whoever got it. */
  lemma CounterEquation(s: State)
    requires Inv(s)
    ensures s.value == s.initial + s.posts - s.waits
  {
  }

  /** A wait overflows exactly when 2^31 more waits than units have come before it; upwards it takes more
      than SEM_VALUE_MAX units. */
  lemma OverflowNeeds(s: State, e: Event)
    requires Inv(s) && Enabled(s, e)
    ensures e.Wait? ==> (Overflows(s, e) <==> s.waits == s.initial + s.posts - INT32_MIN)
    ensures !e.Wait? && Overflows(s, e) ==> Tokens(s) > SEM_VALUE_MAX
  {
    CounterEquation(s);
    if e.Give? {
      assert s.giving != {};
    }
  }

  lemma {:induction false} ModestIsClean(s: State, es: seq<Event>)
    requires Inv(s) && Feasible(s, es) && Modest(s, es) && s.waits + Waits(es) <= s.initial + s.posts - INT32_MIN
    ensures Clean(s, es)
    decreases |es|
  {
    if es != [] {
      OverflowNeeds(s, es[0]);
      StepKeeps(s, es[0]);
      ModestIsClean(Step(s, es[0]), es[1..]);
    }
  }

  /** While the counter is not negative there is a kernel unit for every waiter, and a waiter for whom
      there is none in the kernel or on its way waits only because every unit has been granted. */
  predicate NoLostWakeup(s: State) {
    (s.value >= 0 ==> s.kernel + |s.giving| == |s.blocked| + s.timeouts) &&
    (s.blocked != {} && s.kernel == 0 && s.giving == {} ==> s.grants == s.initial + s.posts)
  }

  lemma Wakeups(s: State)
    requires Inv(s)
    ensures NoLostWakeup(s)
  {
    if s.blocked != {} && s.kernel == 0 && s.giving == {} {
      assert |s.blocked| > 0;
    }
  }

  /** A waiter gets the unit that is in the kernel or on its way there: the give, if it is still to come, and its take
      can be made at once. */
  lemma WaiterProceeds(s: State, t: Thread) returns (es: seq<Event>)
    requires Inv(s) && t in s.blocked && (s.kernel > 0 || s.giving != {})
    ensures |es| <= 2 && Feasible(s, es) && Clean(s, es)
    ensures var r := Run(s, es); t !in r.blocked && r.grants == s.grants + 1 && r.timeouts == s.timeouts
  {
    if s.kernel > 0 {
      es := [Take(t)];
      assert es[1..] == [];
      assert Run(Step(s, Take(t)), []) == Step(s, Take(t));
    } else {
      var g :| g in s.giving;
      var s1 := Step(s, Give(g));
      var s2 := Step(s1, Take(t));
      es := [Give(g), Take(t)];
      assert es[1..] == [Take(t)] && es[1..][1..] == [];
      assert Feasible(s1, [Take(t)]) && Clean(s1, [Take(t)]) && Run(s1, [Take(t)]) == Run(s2, []) == s2;
    }
  }

  /** The kernel semaphore never counts past 0x7FFF, in any run at all; a give that finds it full is lost. */
  lemma {:induction false} KernelBounded(s: State, es: seq<Event>)
    requires s.kernel <= 0x7FFF && Feasible(s, es)
    ensures Run(s, es).kernel <= 0x7FFF
    decreases |es|
  {
    if es != [] {
      KernelBounded(Step(s, es[0]), es[1..]);
    }
  }

  /** One step out of the range, the counter comes back as the 32-bit word with the same bits. */
  lemma WrapIs(v: int)
    requires -0x8000_0001 <= v <= 0x8000_0000
    ensures -0x8000_0000 <= Wrap(v) < 0x8000_0000 && (v - Wrap(v)) % 0x1_0000_0000 == 0
  {
  }

  /** The counter is the units to be had less the waiters exactly as long as no wait has timed out. */
  lemma CounterMeans(s: State)
    requires Inv(s)
    ensures s.value == Tokens(s) - |s.blocked| <==> s.timeouts == 0
  {
  }

  /** The obvious reading of the counter is wrong: a timeout leaves it negative with nobody waiting. */
  lemma CounterIsNotTheFreeUnits()
    ensures var es := [Wait(0), Timeout(0)];
            Feasible(Init(0), es) && Run(Init(0), es).blocked == {} && Run(Init(0), es).value == -1
  {
    var s0 := Init(0);
    var s1 := Step(s0, Wait(0));
    var s2 := Step(s1, Timeout(0));
    assert s2.blocked == {};
    var es := [Wait(0), Timeout(0)];
    assert es[1..] == [Timeout(0)] && es[1..][1..] == [];
    assert Feasible(s2, []) && Feasible(s1, [Timeout(0)]) && Feasible(s0, es);
    assert Run(s1, [Timeout(0)]) == Run(s2, []);
  }
}
