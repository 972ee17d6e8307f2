/** Two lists that share out a set of things between them, each thing once. */
module Lists {

  /** The two lists hold the live things, each of them once. */
  predicate Apart<T(==)>(free: seq<T>, active: seq<T>, live: set<T>) {
    if free != [] then free[0] in live && Apart(free[1..], active, live - {free[0]})
    else if active != [] then active[0] in live && Apart([], active[1..], live - {active[0]})
    else live == {}
  }

  lemma {:induction false} ApartIs<T>(free: seq<T>, active: seq<T>, live: set<T>)
    ensures Apart(free, active, live) <==> multiset(free) + multiset(active) == multiset(live)
    decreases |free| + |active|
  {
    if free != [] {
      Head(free, active, live);
      ApartIs(free[1..], active, live - {free[0]});
    } else if active != [] {
      Head(active, [], live);
      ApartIs([], active[1..], live - {active[0]});
    } else if live != {} {
      var b :| b in live;
      assert multiset(live)[b] == 1;
    }
  }

  lemma Cancel<T>(x: multiset<T>, y: multiset<T>, b: T)
    ensures x + multiset{b} == y + multiset{b} <==> x == y
  {
    assert x == x + multiset{b} - multiset{b} && y == y + multiset{b} - multiset{b};
  }

  lemma Head<T>(a: seq<T>, rest: seq<T>, live: set<T>)
    requires a != []
    ensures multiset(a) + multiset(rest) == multiset(live) <==>
            a[0] in live && multiset(a[1..]) + multiset(rest) == multiset(live - {a[0]})
  {
    var b := a[0];
    assert a == [b] + a[1..];
    assert multiset(a) == multiset{b} + multiset(a[1..]);
    if b in live {
      assert multiset(live) == multiset(live - {b}) + multiset{b};
      assert multiset(a) + multiset(rest) == multiset(a[1..]) + multiset(rest) + multiset{b};
      Cancel(multiset(a[1..]) + multiset(rest), multiset(live - {b}), b);
    } else {
      assert multiset(live)[b] == 0 && (multiset(a) + multiset(rest))[b] > 0;
    }
  }

  function Without<T(==)>(s: seq<T>, b: T): (r: seq<T>)
    requires b in s
    ensures |r| == |s| - 1
  {
    if s[0] == b then s[1..] else [s[0]] + Without(s[1..], b)
  }

  lemma {:induction false} WithoutBag<T>(s: seq<T>, b: T)
    requires b in s
    ensures multiset(Without(s, b)) == multiset(s) - multiset{b}
  {
    assert s == [s[0]] + s[1..];
    if s[0] != b {
      WithoutBag(s[1..], b);
    }
  }

  lemma ApartMeans<T>(free: seq<T>, active: seq<T>, live: set<T>, b: T)
    requires Apart(free, active, live)
    ensures multiset(free)[b] + multiset(active)[b] == if b in live then 1 else 0
    ensures !(b in free && b in active)
  {
    ApartIs(free, active, live);
    assert (multiset(free) + multiset(active))[b] == multiset(live)[b];
  }

  lemma PushFresh<T>(free: seq<T>, active: seq<T>, live: set<T>, b: T)
    requires Apart(free, active, live) && b !in live
    ensures Apart([b] + free, active, live + {b})
  {
    assert ([b] + free)[1..] == free && live + {b} - {b} == live;
  }

  lemma Activate<T>(free: seq<T>, active: seq<T>, live: set<T>)
    requires free != [] && Apart(free, active, live)
    ensures Apart(free[1..], [free[0]] + active, live)
  {
    ApartIs(free, active, live);
    ApartIs(free[1..], [free[0]] + active, live);
    assert free == [free[0]] + free[1..];
  }

  lemma Deactivate<T>(free: seq<T>, active: seq<T>, live: set<T>, b: T)
    requires b in active && Apart(free, active, live)
    ensures Apart([b] + free, Without(active, b), live)
    ensures Apart(free, Without(active, b), live - {b})
  {
    ApartMeans(free, active, live, b);
    WithoutBag(active, b);
    ApartIs(free, active, live);
    ApartIs([b] + free, Without(active, b), live);
    assert multiset([b] + free) == multiset{b} + multiset(free);
    assert ([b] + free)[1..] == free;
  }
}
