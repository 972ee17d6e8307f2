/** The id allocator of num_mgr.c: a bitmap over 1..n and a search that goes round from the id that
    was allocated last. */
module NumMgr {

  const UINT_MAX: int := 0xFFFF_FFFF

  /** xBitArrayGetBit: false outside the array. */
  predicate GetBit(bits: seq<bool>, p: nat) {
    p < |bits| && bits[p]
  }

  /** How many ids the search looks at before x, when n ids are in use and `last` was the last. */
  function Distance(n: nat, last: nat, x: nat): int {
    if x > last then x - last - 1 else n - last + x - 1
  }

  predicate AllHeld(bits: seq<bool>) {
    forall x :: 1 <= x < |bits| ==> bits[x]
  }

  /** Every id the search has passed after k probes is held. */
  predicate Passed(bits: seq<bool>, last: nat, k: int) {
    forall x :: 1 <= x < |bits| && Distance(|bits| - 1, last, x) < k ==> bits[x]
  }

  /** The value of p at the head of the loop after k probes; n + 1 stands for the wrap to 1. */
  function Probe(n: nat, last: nat, k: nat): int {
    if last + 1 + k <= n + 1 then last + 1 + k else last + 1 + k - n
  }

  lemma ProbeDistance(n: nat, last: nat, k: nat)
    requires n > 0 && last <= n && k < n
    ensures var p := if Probe(n, last, k) == n + 1 then 1 else Probe(n, last, k);
            1 <= p <= n && Distance(n, last, p) == k
  {
  }

  lemma PassedMore(bits: seq<bool>, last: nat, k: nat, p: nat)
    requires 1 <= p < |bits| && last < |bits| && Distance(|bits| - 1, last, p) == k && bits[p] && Passed(bits, last, k)
    ensures Passed(bits, last, k + 1)
  {
  }

  lemma PassedAll(bits: seq<bool>, last: nat)
    requires |bits| > 1 && last < |bits|
    ensures Passed(bits, last, |bits| - 1) <==> AllHeld(bits)
  {
    forall x | 1 <= x < |bits|
      ensures Distance(|bits| - 1, last, x) < |bits| - 1 && (bits[x] || !bits[x])
    {
    }
  }

  /** Every id but the last allocated is held. */
  predicate OthersHeld(bits: seq<bool>, last: nat) {
    forall x :: 1 <= x < |bits| && x != last ==> bits[x]
  }

  lemma PassedOthers(bits: seq<bool>, last: nat)
    requires 1 <= last < |bits|
    ensures Passed(bits, last, |bits| - 2) <==> OthersHeld(bits, last)
  {
    forall x | 1 <= x < |bits|
      ensures (Distance(|bits| - 1, last, x) < |bits| - 2 <==> x != last) && (bits[x] || !bits[x])
    {
    }
  }

  // ----- the loop as a machine, to say when it stops -----

  datatype Search = Looking(p: int) | Exhausted | Found(id: int)

  /** One pass of the loop of ulNumMgrAllocate. */
  function Pass(bits: seq<bool>, last: nat, s: Search): Search {
    match s
    case Looking(p) =>
      if p == last then Exhausted
      else
        var q := if p == |bits| then 1 else p;
        if q >= 0 && GetBit(bits, q) then Looking(q + 1) else Found(q)
    case _ => s
  }

  function Passes(bits: seq<bool>, last: nat, k: nat): Search {
    if k == 0 then Looking(last + 1) else Pass(bits, last, Passes(bits, last, k - 1))
  }

  /** With last == 1 and every id held the exit test always comes before the wrap that would meet it:
      the search goes round for ever. */
  lemma {:induction false} SearchNeverEnds(bits: seq<bool>, k: nat)
    requires |bits| > 1 && AllHeld(bits)
    ensures var s := Passes(bits, 1, k); s.Looking? && 2 <= s.p <= |bits|
  {
    if k > 0 {
      SearchNeverEnds(bits, k - 1);
    }
  }

  lemma {:induction false} PassesProbe(bits: seq<bool>, last: nat, k: nat)
    requires |bits| > 1 && last < |bits| && Passed(bits, last, k) && k < |bits| - 1 + (if last < 2 then 1 else 0)
    ensures Passes(bits, last, k) == Looking(Probe(|bits| - 1, last, k))
  {
    var n := |bits| - 1;
    if k > 0 {
      PassesProbe(bits, last, k - 1);
      ProbeDistance(n, last, k - 1);
    }
  }

  /** The search that starts from `last` ends exactly if that is not 1 or some id is free. (From 0, where
      nothing is held yet, it ends too.) */
  lemma SearchEnds(bits: seq<bool>, last: nat)
    requires |bits| > 1 && last < |bits| && (last == 0 ==> !AllHeld(bits))
    ensures (exists k :: !Passes(bits, last, k).Looking?) <==> last != 1 || !AllHeld(bits)
  {
    var n := |bits| - 1;
    if last == 1 && AllHeld(bits) {
      forall k: nat
        ensures Passes(bits, last, k).Looking?
      {
        SearchNeverEnds(bits, k);
      }
    } else if last >= 2 && Passed(bits, last, n - 1) {
      PassesProbe(bits, last, n - 1);
      assert Passes(bits, last, n) == Exhausted;
    } else {
      var k := FirstFree(bits, last, n);
      PassesProbe(bits, last, k);
      ProbeDistance(n, last, k);
      assert Passes(bits, last, k + 1).Found?;
    }
  }

  /** The number of probes before the first free id. */
  lemma FirstFree(bits: seq<bool>, last: nat, n: nat) returns (k: nat)
    requires n == |bits| - 1 > 0 && last <= n && !AllHeld(bits)
    requires last >= 2 ==> !Passed(bits, last, n - 1)
    ensures k < n && (last >= 2 ==> k < n - 1) && Passed(bits, last, k)
    ensures exists x :: 1 <= x <= n && Distance(n, last, x) == k && !bits[x]
  {
    PassedAll(bits, last);
    k := 0;
    while Passed(bits, last, k + 1)
      invariant k < n && Passed(bits, last, k) && (last >= 2 ==> k < n - 1)
      decreases n - k
    {
      k := k + 1;
    }
  }

  /** The search of ulNumMgrAllocate, in 32 bits. A manager made for no ids at all runs on past its
      bitmap, which reads as free. */
  method FindFree(bits: seq<bool>, last: nat) returns (r: nat)
    requires 0 < |bits| <= UINT_MAX && last < UINT_MAX
    requires |bits| > 1 ==> last < |bits| && (last < 2 ==> !AllHeld(bits))
    ensures |bits| == 1 ==> r == last + 1
    ensures |bits| > 1 ==> (r == UINT_MAX <==> last >= 2 && OthersHeld(bits, last))
    ensures |bits| > 1 && r != UINT_MAX ==>
              1 <= r < |bits| && !bits[r] && Passed(bits, last, Distance(|bits| - 1, last, r))
  {
    var n := |bits| - 1;
    ghost var k := 0;
    var p := (last + 1) % (UINT_MAX + 1);
    if n > 0 {
      PassedAll(bits, last);
      if last >= 1 {
        PassedOthers(bits, last);
      }
    }
    while true
      invariant if n == 0 then p == last + 1
                else p == Probe(n, last, k) && k < n && Passed(bits, last, k)
      decreases n - k
    {
      if p == last {
        return UINT_MAX;
      }
      if p == |bits| {
        p := 1;
      }
      if n > 0 {
        ProbeDistance(n, last, k);
      }
      if !GetBit(bits, p) {
        return p;
      }
      PassedMore(bits, last, k, p);
      k := k + 1;
      p := (p + 1) % (UINT_MAX + 1);
    }
  }

  class Manager {
    /** n + 1, and the bitmap; bit 0 is never used. */
    const numCnt: nat
    var bits: seq<bool>
    var lastAllocated: nat

    ghost predicate Valid()
      reads this
    {
      0 < numCnt == |bits| <= UINT_MAX && !bits[0] && lastAllocated <= UINT_MAX &&
      (numCnt > 1 ==> lastAllocated < numCnt) &&
      (lastAllocated == 0 ==> Held() == {})
    }

    ghost function Held(): set<nat>
      reads this
    {
      set i | 0 <= i < |bits| && bits[i]
    }

    /** xNumMgrInit, as pxNumMgrCreate calls it. */
    constructor (n: nat)
      requires n < UINT_MAX
      ensures Valid() && numCnt == n + 1 && Held() == {} && lastAllocated == 0
    {
      numCnt := n + 1;
      bits := AllClear(n + 1);
      lastAllocated := 0;
    }

    /** ulNumMgrAllocate, in every state in which it returns. The id is the first free one going round
        from the last allocated, which is itself passed over if it is 2 or more. */
    method Allocate() returns (r: nat)
      requires Valid() && lastAllocated < UINT_MAX && (numCnt > 1 && lastAllocated == 1 ==> !AllHeld(bits))
      modifies this
      ensures Valid()
      ensures numCnt > 1 ==> (r == UINT_MAX <==> old(lastAllocated) >= 2 && OthersHeld(old(bits), old(lastAllocated)))
      ensures numCnt > 1 && r == UINT_MAX ==> unchanged(this)
      ensures numCnt > 1 && r != UINT_MAX ==>
                1 <= r < numCnt && r !in old(Held()) && Held() == old(Held()) + {r} && lastAllocated == r
      ensures numCnt > 1 && r != UINT_MAX ==>
                Passed(old(bits), old(lastAllocated), Distance(numCnt - 1, old(lastAllocated), r))
      ensures numCnt == 1 ==> r == old(lastAllocated) + 1 == lastAllocated && Held() == {}
    {
      assert lastAllocated == 0 ==> 1 !in Held();
      r := FindFree(bits, lastAllocated);
      if numCnt == 1 || r != UINT_MAX {
        bits := if r < |bits| then bits[r := true] else bits;
        lastAllocated := r;
      }
    }

    /** xNumMgrRelease. */
    method Release(id: nat) returns (ok: bool)
      requires Valid()
      modifies this`bits
      ensures Valid()
      ensures ok <==> id in old(Held())
      ensures Held() == old(Held()) - {id}
    {
      if !GetBit(bits, id) {
        return false;
      }
      bits := bits[id := false];
      ok := true;
    }

    /** xNumMgrIsAllocated. */
    method IsAllocated(id: nat) returns (yes: bool)
      requires Valid()
      ensures yes <==> id in Held()
    {
      yes := GetBit(bits, id);
    }
  }

  function AllClear(n: nat): (s: seq<bool>)
    ensures |s| == n && forall i :: 0 <= i < n ==> !s[i]
  {
    if n == 0 then [] else [false] + AllClear(n - 1)
  }
}
