/** The chained hash table of hashtab.c with its own free list of entries, and its iterator.

    The table is generic in the key and the hash: integer keys and string keys use the same code, one
    kind per table. An entry has an identity, the address of its hashent_t. */
module HashTable {
  import opened Varint
  import opened Schema

  /** prvHashedInt, in 32-bit arithmetic. */
  function HashedInt(key: nat): nat {
    (277 * key + key + 12345) % TWO_32
  }

  datatype Entry<K, V> = Entry(id: nat, key: K, value: V)

  // ----- chains -----

  function Get<K(==), V>(chain: seq<Entry<K, V>>, k: K): Option<V> {
    if chain == [] then None else if chain[0].key == k then Some(chain[0].value) else Get(chain[1..], k)
  }

  /** Where the key is in the chain, or the length of the chain. */
  function Position<K(==), V>(chain: seq<Entry<K, V>>, k: K): (p: nat)
    ensures p <= |chain|
    ensures p < |chain| ==> chain[p].key == k
  {
    if chain == [] || chain[0].key == k then 0 else 1 + Position(chain[1..], k)
  }

  lemma {:induction false} GetPosition<K, V>(chain: seq<Entry<K, V>>, k: K)
    ensures var p := Position(chain, k); Get(chain, k) == if p < |chain| then Some(chain[p].value) else None
  {
    if chain != [] && chain[0].key != k {
      GetPosition(chain[1..], k);
    }
  }

  lemma {:induction false} PositionIs<K, V>(chain: seq<Entry<K, V>>, k: K, p: nat)
    requires p <= |chain| && forall i :: 0 <= i < p ==> chain[i].key != k
    ensures p < |chain| && chain[p].key == k ==> Position(chain, k) == p
    ensures p == |chain| ==> Position(chain, k) == p
  {
    if p > 0 {
      PositionIs(chain[1..], k, p - 1);
    }
  }

  /** No key twice. */
  predicate Unique<K(==), V>(chain: seq<Entry<K, V>>) {
    chain == [] || (Get(chain[1..], chain[0].key).None? && Unique(chain[1..]))
  }

  function RemoveAt<T>(s: seq<T>, p: nat): seq<T>
    requires p < |s|
  {
    s[..p] + s[p + 1..]
  }

  lemma RemoveLater<T>(s: seq<T>, p: nat)
    requires 0 < p < |s|
    ensures RemoveAt(s, p) == [s[0]] + RemoveAt(s[1..], p - 1)
  {
  }

  lemma UpdateLater<T>(s: seq<T>, p: nat, x: T)
    requires 0 < p < |s|
    ensures s[p := x] == [s[0]] + s[1..][p - 1 := x]
  {
  }

  lemma {:induction false} GetRemoved<K, V>(chain: seq<Entry<K, V>>, p: nat, k: K)
    requires p < |chain| && Unique(chain)
    ensures Get(RemoveAt(chain, p), k) == if k == chain[p].key then None else Get(chain, k)
  {
    if p > 0 {
      RemoveLater(chain, p);
      GetRemoved(chain[1..], p - 1, k);
      PositionOf(chain[1..], p - 1);
    } else {
      assert RemoveAt(chain, 0) == chain[1..];
    }
  }

  lemma {:induction false} PositionOf<K, V>(chain: seq<Entry<K, V>>, p: nat)
    requires p < |chain|
    ensures Get(chain, chain[p].key).Some?
  {
    if p > 0 {
      PositionOf(chain[1..], p - 1);
    }
  }

  lemma {:induction false} RemovedUnique<K, V>(chain: seq<Entry<K, V>>, p: nat)
    requires p < |chain| && Unique(chain)
    ensures Unique(RemoveAt(chain, p))
  {
    if p > 0 {
      RemoveLater(chain, p);
      RemovedUnique(chain[1..], p - 1);
      GetRemoved(chain[1..], p - 1, chain[0].key);
      assert RemoveAt(chain, p)[1..] == RemoveAt(chain[1..], p - 1);
    } else {
      assert RemoveAt(chain, 0) == chain[1..];
    }
  }

  lemma {:induction false} GetUpdated<K, V>(chain: seq<Entry<K, V>>, p: nat, v: V, k: K)
    requires p < |chain| && p == Position(chain, chain[p].key)
    ensures Get(chain[p := chain[p].(value := v)], k) == if k == chain[p].key then Some(v) else Get(chain, k)
  {
    if p > 0 {
      UpdateLater(chain, p, chain[p].(value := v));
      GetUpdated(chain[1..], p - 1, v, k);
    }
  }

  lemma {:induction false} UpdatedUnique<K, V>(chain: seq<Entry<K, V>>, p: nat, v: V)
    requires p < |chain| && Unique(chain)
    ensures Unique(chain[p := chain[p].(value := v)])
  {
    var e := chain[p].(value := v);
    if p > 0 {
      UpdateLater(chain, p, e);
      UpdatedUnique(chain[1..], p - 1, v);
      NoneUpdated(chain[1..], p - 1, v, chain[0].key);
      assert chain[p := e][1..] == chain[1..][p - 1 := e];
    } else {
      assert chain[0 := e][1..] == chain[1..];
    }
  }

  lemma {:induction false} NoneUpdated<K, V>(chain: seq<Entry<K, V>>, p: nat, v: V, k: K)
    requires p < |chain| && Get(chain, k).None?
    ensures Get(chain[p := chain[p].(value := v)], k).None?
  {
    if p > 0 {
      UpdateLater(chain, p, chain[p].(value := v));
      NoneUpdated(chain[1..], p - 1, v, k);
    }
  }

  // ----- all chains together -----

  /** Every entry in the order of a walk over the buckets. */
  function Flat<K, V>(chains: seq<seq<Entry<K, V>>>): seq<Entry<K, V>> {
    if chains == [] then [] else chains[0] + Flat(chains[1..])
  }

  lemma {:induction false} FlatExchange<K, V>(chains: seq<seq<Entry<K, V>>>, b: nat, chain: seq<Entry<K, V>>)
    requires b < |chains|
    ensures |Flat(chains[b := chain])| + |chains[b]| == |Flat(chains)| + |chain|
  {
    if b == 0 {
      assert chains[0 := chain][1..] == chains[1..];
    } else {
      UpdateLater(chains, b, chain);
      FlatExchange(chains[1..], b - 1, chain);
    }
  }

  /** The identities of the entries of a chain, of all chains, and of a free list. */
  function ChainIds<K, V>(es: seq<Entry<K, V>>): multiset<nat> {
    if es == [] then multiset{} else multiset{es[0].id} + ChainIds(es[1..])
  }

  function AllIds<K, V>(chains: seq<seq<Entry<K, V>>>): multiset<nat> {
    if chains == [] then multiset{} else ChainIds(chains[0]) + AllIds(chains[1..])
  }

  function FreeIds(free: seq<nat>): multiset<nat> {
    if free == [] then multiset{} else multiset{free[0]} + FreeIds(free[1..])
  }

  lemma AllIdsHead<K, V>(first: seq<Entry<K, V>>, rest: seq<seq<Entry<K, V>>>, id: nat)
    ensures AllIds([first] + rest)[id] == ChainIds(first)[id] + AllIds(rest)[id]
  {
    assert ([first] + rest)[1..] == rest;
  }

  /** Exchanging one chain exchanges its ids. */
  lemma {:induction false} IdsExchange<K, V>(chains: seq<seq<Entry<K, V>>>, b: nat, chain: seq<Entry<K, V>>, id: nat)
    requires b < |chains|
    ensures AllIds(chains[b := chain])[id] + ChainIds(chains[b])[id] == AllIds(chains)[id] + ChainIds(chain)[id]
  {
    var first, rest := chains[0], chains[1..];
    assert chains == [first] + rest;
    AllIdsHead(first, rest, id);
    if b == 0 {
      assert chains[0 := chain] == [chain] + rest;
      AllIdsHead(chain, rest, id);
    } else {
      UpdateLater(chains, b, chain);
      AllIdsHead(first, rest[b - 1 := chain], id);
      IdsExchange(rest, b - 1, chain, id);
    }
  }

  lemma {:induction false} IdsRemoved<K, V>(chain: seq<Entry<K, V>>, p: nat)
    requires p < |chain|
    ensures ChainIds(chain) == multiset{chain[p].id} + ChainIds(RemoveAt(chain, p))
  {
    if p > 0 {
      RemoveLater(chain, p);
      assert RemoveAt(chain, p)[1..] == RemoveAt(chain[1..], p - 1);
      IdsRemoved(chain[1..], p - 1);
    } else {
      assert RemoveAt(chain, 0) == chain[1..];
    }
  }

  lemma {:induction false} IdsUpdated<K, V>(chain: seq<Entry<K, V>>, p: nat, v: V)
    requires p < |chain|
    ensures ChainIds(chain[p := chain[p].(value := v)]) == ChainIds(chain)
  {
    var e := chain[p].(value := v);
    if p > 0 {
      UpdateLater(chain, p, e);
      assert chain[p := e][1..] == chain[1..][p - 1 := e];
      IdsUpdated(chain[1..], p - 1, v);
    } else {
      assert chain[0 := e][1..] == chain[1..];
    }
  }

  /** Chains and free list share out the live entries, each of them once. */
  predicate Shared<K, V>(free: seq<nat>, chains: seq<seq<Entry<K, V>>>, live: set<nat>) {
    if free == [] then AllIds(chains) == multiset(live)
    else free[0] in live && Shared(free[1..], chains, live - {free[0]})
  }

  lemma {:induction false} SharedIs<K, V>(free: seq<nat>, chains: seq<seq<Entry<K, V>>>, live: set<nat>)
    ensures Shared(free, chains, live) <==> FreeIds(free) + AllIds(chains) == multiset(live)
  {
    if free != [] {
      var id, rest := free[0], FreeIds(free[1..]) + AllIds(chains);
      SharedIs(free[1..], chains, live - {id});
      assert FreeIds(free) + AllIds(chains) == rest + multiset{id};
      if id in live {
        assert multiset(live) == multiset(live - {id}) + multiset{id};
        if rest + multiset{id} == multiset(live - {id}) + multiset{id} {
          CancelBag(rest, multiset(live - {id}), multiset{id});
        }
      } else {
        assert multiset(live)[id] == 0 && (rest + multiset{id})[id] > 0;
      }
    }
  }

  lemma SharedAdd<K, V>(free: seq<nat>, chains: seq<seq<Entry<K, V>>>, live: set<nat>, b: nat, e: Entry<K, V>)
    requires Shared(free, chains, live) && free != [] && e.id == free[0] && b < |chains|
    ensures Shared(free[1..], chains[b := [e] + chains[b]], live)
  {
    hide Shared, AllIds;
    var chain := [e] + chains[b];
    assert chain[1..] == chains[b];
    forall id
      ensures AllIds(chains[b := chain])[id] == AllIds(chains)[id] + multiset{e.id}[id]
    {
      IdsExchange(chains, b, chain, id);
    }
    SharedIs(free, chains, live);
    SharedIs(free[1..], chains[b := chain], live);
    assert FreeIds(free[1..]) + AllIds(chains[b := chain]) == FreeIds(free) + AllIds(chains);
  }

  lemma SharedRemove<K, V>(free: seq<nat>, chains: seq<seq<Entry<K, V>>>, live: set<nat>, b: nat, p: nat)
    requires Shared(free, chains, live) && b < |chains| && p < |chains[b]|
    ensures Shared([chains[b][p].id] + free, chains[b := RemoveAt(chains[b], p)], live)
  {
    var e, chain := chains[b][p], RemoveAt(chains[b], p);
    IdsRemoved(chains[b], p);
    forall id
      ensures AllIds(chains[b := chain])[id] + multiset{e.id}[id] == AllIds(chains)[id]
    {
      IdsExchange(chains, b, chain, id);
    }
    SharedIs(free, chains, live);
    SharedIs([e.id] + free, chains[b := chain], live);
    assert ([e.id] + free)[1..] == free;
    assert FreeIds([e.id] + free) + AllIds(chains[b := chain]) == FreeIds(free) + AllIds(chains);
  }

  lemma SharedUpdate<K, V>(free: seq<nat>, chains: seq<seq<Entry<K, V>>>, live: set<nat>, b: nat, p: nat, v: V)
    requires Shared(free, chains, live) && b < |chains| && p < |chains[b]|
    ensures Shared(free, chains[b := chains[b][p := chains[b][p].(value := v)]], live)
  {
    var chain := chains[b][p := chains[b][p].(value := v)];
    IdsUpdated(chains[b], p, v);
    forall id
      ensures AllIds(chains[b := chain])[id] == AllIds(chains)[id]
    {
      IdsExchange(chains, b, chain, id);
    }
    SharedIs(free, chains, live);
    SharedIs(free, chains[b := chain], live);
    assert AllIds(chains[b := chain]) == AllIds(chains);
  }

  lemma SharedFresh<K, V>(free: seq<nat>, chains: seq<seq<Entry<K, V>>>, live: set<nat>, id: nat)
    requires Shared(free, chains, live) && id !in live
    ensures Shared([id] + free, chains, live + {id})
  {
    assert ([id] + free)[1..] == free && live + {id} - {id} == live;
  }

  lemma CancelBag<T>(x: multiset<T>, y: multiset<T>, z: multiset<T>)
    requires x + z == y + z
    ensures x == y
  {
    assert x == x + z - z && y == y + z - z;
  }

  // ----- the map it stands for -----

  predicate Placed<K(==), V>(hash: K -> nat, chains: seq<seq<Entry<K, V>>>, b: nat)
    requires b < |chains|
  {
    forall i :: 0 <= i < |chains[b]| ==> hash(chains[b][i].key) % |chains| == b
  }

  function Lookup<K(==), V>(m: map<K, V>, k: K): Option<V> {
    if k in m then Some(m[k]) else None
  }

  /** Every key is in the bucket its hash names, at most once, with the value the map gives it. */
  ghost predicate Represents<K(!new), V>(hash: K -> nat, chains: seq<seq<Entry<K, V>>>, m: map<K, V>) {
    |chains| > 0 &&
    (forall b :: 0 <= b < |chains| ==> Placed(hash, chains, b) && Unique(chains[b])) &&
    forall k :: Get(chains[hash(k) % |chains|], k) == Lookup(m, k)
  }

  /** One chain and one key change, to what the new map says of the keys of that bucket. */
  lemma Exchange<K(!new), V>(
    hash: K -> nat, chains: seq<seq<Entry<K, V>>>, m: map<K, V>, b: nat, chain: seq<Entry<K, V>>, m': map<K, V>, k: K)
    requires Represents(hash, chains, m) && b == hash(k) % |chains|
    requires Unique(chain) && forall i :: 0 <= i < |chain| ==> hash(chain[i].key) % |chains| == b
    requires forall k' :: k' != k ==> Lookup(m', k') == Lookup(m, k')
    requires forall k' :: Get(chain, k') == if k' == k then Lookup(m', k) else Get(chains[b], k')
    ensures Represents(hash, chains[b := chain], m')
  {
    hide Get, Unique, Lookup;
    var new_ := chains[b := chain];
    forall c | 0 <= c < |new_|
      ensures Placed(hash, new_, c) && Unique(new_[c])
    {
      assert Placed(hash, chains, c) && Unique(chains[c]);
    }
    forall k'
      ensures Get(new_[hash(k') % |new_|], k') == Lookup(m', k')
    {
      assert Get(chains[hash(k') % |chains|], k') == Lookup(m, k');
    }
  }

  lemma AddRepresents<K(!new), V>(hash: K -> nat, chains: seq<seq<Entry<K, V>>>, m: map<K, V>, e: Entry<K, V>)
    requires Represents(hash, chains, m) && e.key !in m
    ensures var b := hash(e.key) % |chains|; Represents(hash, chains[b := [e] + chains[b]], m[e.key := e.value])
  {
    var b := hash(e.key) % |chains|;
    var chain := [e] + chains[b];
    assert chain[1..] == chains[b] && Placed(hash, chains, b);
    assert Get(chains[b], e.key) == Lookup(m, e.key);
    Exchange(hash, chains, m, b, chain, m[e.key := e.value], e.key);
  }

  lemma SetRepresents<K(!new), V>(hash: K -> nat, chains: seq<seq<Entry<K, V>>>, m: map<K, V>, b: nat, p: nat, v: V)
    requires Represents(hash, chains, m) && b < |chains| && p < |chains[b]| && p == Position(chains[b], chains[b][p].key)
    ensures Represents(hash, chains[b := chains[b][p := chains[b][p].(value := v)]], m[chains[b][p].key := v])
  {
    var k := chains[b][p].key;
    var chain := chains[b][p := chains[b][p].(value := v)];
    assert Placed(hash, chains, b) && Unique(chains[b]);
    UpdatedUnique(chains[b], p, v);
    forall k'
      ensures Get(chain, k') == if k' == k then Some(v) else Get(chains[b], k')
    {
      GetUpdated(chains[b], p, v, k');
    }
    Exchange(hash, chains, m, b, chain, m[k := v], k);
  }

  lemma DeleteRepresents<K(!new), V>(hash: K -> nat, chains: seq<seq<Entry<K, V>>>, m: map<K, V>, b: nat, p: nat)
    requires Represents(hash, chains, m) && b < |chains| && p < |chains[b]|
    ensures Represents(hash, chains[b := RemoveAt(chains[b], p)], m - {chains[b][p].key})
  {
    var k := chains[b][p].key;
    var chain := RemoveAt(chains[b], p);
    assert Placed(hash, chains, b) && Unique(chains[b]);
    RemovedUnique(chains[b], p);
    forall k'
      ensures Get(chain, k') == if k' == k then None else Get(chains[b], k')
    {
      GetRemoved(chains[b], p, k');
    }
    Exchange(hash, chains, m, b, chain, m - {k}, k);
  }

  lemma MapSizes<K, V>(m: map<K, V>, k: K, v: V)
    ensures |m[k := v]| == if k in m then |m| else |m| + 1
    ensures k in m ==> |m - {k}| == |m| - 1
  {
    var n := m[k := v];
    assert n.Keys == m.Keys + {k} && |n| == |n.Keys| && |m| == |m.Keys|;
    if k in m {
      assert m.Keys + {k} == m.Keys;
      assert (m - {k}).Keys == m.Keys - {k} && |m - {k}| == |(m - {k}).Keys|;
    }
  }

  // ----- the table -----

  /** What an add comes to: a return code, or a write through a NULL entry. */
  datatype AddResult = Returned(code: int) | Crashed

  class Table<K(==, !new), V> {
    const hash: K -> nat
    const maxEntries: nat
    const allocSize: nat

    var chains: seq<seq<Entry<K, V>>>
    var free: seq<nat>
    var curEntries: nat
    /** How many entries were ever made; their addresses are the numbers below. */
    var nextId: nat

    /** The map the table stands for, and the entries that exist. */
    ghost var contents: map<K, V>
    ghost var live: set<nat>

    /** The memory side: every entry ever made is chained or free, never both, and they are within the limit. */
    ghost predicate Stored()
      reads this
    {
      Shared(free, chains, live) && (forall id: nat :: id in live <==> id < nextId) && curEntries + |free| == nextId &&
      (maxEntries != 0 ==> nextId <= maxEntries)
    }

    ghost predicate Valid()
      reads this
    {
      Represents(hash, chains, contents) && Stored() && curEntries == |Flat(chains)| == |contents|
    }

    /** pxHtNewHashTable up to its call of prvMorefree; the bucket count is made odd. */
    constructor (h: K -> nat, max: nat, increment: nat, numBuckets: nat)
      ensures Valid() && contents == map[] && free == [] && nextId == 0 && hash == h && maxEntries == max
      ensures allocSize == if increment > 0xFFFF then 0xFFFF else increment
      ensures |chains| == if numBuckets % 2 == 0 then numBuckets + 1 else numBuckets
    {
      var n := if numBuckets % 2 == 0 then numBuckets + 1 else numBuckets;
      hash, maxEntries, allocSize := h, max, if increment > 0xFFFF then 0xFFFF else increment;
      chains, free, curEntries, nextId := EmptyChains(n), [], 0, 0;
      contents, live := map[], {};
      EmptyRepresents<K, V>(h, n);
    }

    /** prvMorefree. */
    method MoreFree(num2add: nat, mallocOk: bool) returns (r: nat)
      requires Valid() && free == []
      modifies this`free, this`nextId, this`live
      ensures Valid()
      ensures var allowed := (maxEntries == 0 || curEntries + num2add <= maxEntries) && mallocOk;
              r == (if allowed then allocSize else 0) && |free| == (if allowed then num2add else 0) &&
              nextId == old(nextId) + |free|
    {
      if (maxEntries != 0 && curEntries + num2add > maxEntries) || !mallocOk {
        return 0;
      }
      for i := 0 to num2add
        invariant Represents(hash, chains, contents) && Shared(free, chains, live) && forall id: nat :: id in live <==> id < nextId
        invariant |free| == i && nextId == old(nextId) + i
      {
        SharedFresh(free, chains, live, nextId);
        free := [nextId] + free;
        live := live + {nextId};
        nextId := nextId + 1;
      }
      r := allocSize;
    }

    /** A new key can be stored. */
    predicate Room(mallocOk: bool)
      reads this
    {
      free != [] || (allocSize > 0 && mallocOk && (maxEntries == 0 || curEntries + allocSize <= maxEntries))
    }

    /** prvHashLookupCom. */
    method LookupCom(k: K) returns (found: bool, b: nat, p: nat)
      requires Valid()
      ensures b == hash(k) % |chains| && p == Position(chains[b], k) && found == (p < |chains[b]|)
      ensures found <==> k in contents
      ensures found ==> chains[b][p].key == k && chains[b][p].value == contents[k]
    {
      b := hash(k) % |chains|;
      GetPosition(chains[b], k);
      p := 0;
      while p < |chains[b]| && chains[b][p].key != k
        invariant p <= |chains[b]|
        invariant forall i :: 0 <= i < p ==> chains[b][i].key != k
      {
        p := p + 1;
      }
      PositionIs(chains[b], k, p);
      found := p < |chains[b]|;
    }

    /** pvHtIGetVal and pvHtSGetVal. */
    method GetVal(k: K) returns (r: Option<V>)
      requires Valid()
      ensures r == Lookup(contents, k)
    {
      var found, b, p := LookupCom(k);
      r := if found then Some(chains[b][p].value) else None;
    }

    /** prvHtISAddVal: the return value is 0 exactly when the key was there and is not overwritten.
        prvNewhashent does not check that it got an entry, so a new key without room is written to NULL. */
    method AddVal(overwrite: bool, k: K, v: V, mallocOk: bool) returns (r: AddResult)
      requires Valid()
      modifies this
      ensures r.Crashed? <==> k !in old(contents) && !old(Room(mallocOk))
      ensures !r.Crashed? ==> Valid()
      ensures r.Returned? ==> r.code == if k in old(contents) && !overwrite then 0 else 1
      ensures r.Returned? ==> contents == if r.code == 0 then old(contents) else old(contents)[k := v]
      ensures r.Returned? && k in old(contents) ==> free == old(free) && nextId == old(nextId)
      ensures r.Returned? && k !in old(contents) ==>
                nextId == old(nextId) + (if old(free) == [] then allocSize else 0) &&
                |free| + 1 == |old(free)| + nextId - old(nextId) && (old(free) != [] ==> free == old(free)[1..])
    {
      var found, b, p := LookupCom(k);
      if !found {
        if free == [] {
          var grown := MoreFree(allocSize, mallocOk);
          if free == [] {
            return Crashed;
          }
        }
        Insert(b, k, v);
        r := Returned(1);
      } else if overwrite {
        Overwrite(b, p, v);
        r := Returned(1);
      } else {
        r := Returned(0);
      }
    }

    /** prvNewhashent and listADD: the entry goes to the head of its chain. */
    method Insert(b: nat, k: K, v: V)
      requires Valid() && free != [] && k !in contents && b == hash(k) % |chains|
      modifies this
      ensures Valid() && contents == old(contents)[k := v] && nextId == old(nextId)
      ensures free == old(free)[1..] && chains == old(chains)[b := [Entry(old(free)[0], k, v)] + old(chains)[b]]
    {
      var e := Entry(free[0], k, v);
      var chain := [e] + chains[b];
      SharedAdd(free, chains, live, b, e);
      AddRepresents(hash, chains, contents, e);
      FlatExchange(chains, b, chain);
      MapSizes(contents, k, v);
      chains := chains[b := chain];
      contents := contents[k := v];
      curEntries := curEntries + 1;
      free := free[1..];
    }

    method Overwrite(b: nat, p: nat, v: V)
      requires Valid() && b < |chains| && p < |chains[b]| && p == Position(chains[b], chains[b][p].key)
      requires chains[b][p].key in contents
      modifies this
      ensures Valid() && contents == old(contents)[old(chains)[b][p].key := v] && free == old(free) && nextId == old(nextId)
    {
      var chain := chains[b][p := chains[b][p].(value := v)];
      SharedUpdate(free, chains, live, b, p, v);
      SetRepresents(hash, chains, contents, b, p, v);
      FlatExchange(chains, b, chain);
      MapSizes(contents, chains[b][p].key, v);
      contents := contents[chains[b][p].key := v];
      chains := chains[b := chain];
    }

    /** iHtISDelete: the number of entries deleted. The entry goes to the free list, so there is room for another key
        whatever the heap does. */
    method Delete(k: K) returns (r: int)
      requires Valid()
      modifies this
      ensures Valid()
      ensures r == if k in old(contents) then 1 else 0
      ensures contents == old(contents) - {k}
      ensures r == 1 ==> var b := hash(k) % |old(chains)|;
                         var p := Position(old(chains)[b], k);
                         p < |old(chains)[b]| && chains == old(chains)[b := RemoveAt(old(chains)[b], p)] &&
                         free == [old(chains)[b][p].id] + old(free)
      ensures r == 0 ==> chains == old(chains) && free == old(free)
      ensures nextId == old(nextId) && live == old(live)
      ensures r == 1 ==> Room(false)
    {
      assert |chains| > 0;
      hide Represents, Shared, Flat;
      var found, b, p := LookupCom(k);
      if !found {
        assert contents - {k} == contents;
        return 0;
      }
      SharedRemove(free, chains, live, b, p);
      DeleteRepresents(hash, chains, contents, b, p);
      FlatExchange(chains, b, RemoveAt(chains[b], p));
      MapSizes(contents, k, contents[k]);
      free := [chains[b][p].id] + free;
      curEntries := curEntries - 1;
      chains := chains[b := RemoveAt(chains[b], p)];
      contents := contents - {k};
      r := 1;
    }
  }

  function EmptyChains<E>(n: nat): (r: seq<seq<E>>)
    ensures |r| == n && forall b :: 0 <= b < n ==> r[b] == []
  {
    if n == 0 then [] else [[]] + EmptyChains(n - 1)
  }

  lemma {:induction false} EmptyFlat<K, V>(n: nat)
    ensures Flat(EmptyChains<Entry<K, V>>(n)) == [] && AllIds(EmptyChains<Entry<K, V>>(n)) == multiset{}
  {
    if n > 0 {
      EmptyFlat<K, V>(n - 1);
      assert EmptyChains<Entry<K, V>>(n)[1..] == EmptyChains(n - 1);
    }
  }

  lemma EmptyRepresents<K(!new), V>(hash: K -> nat, n: nat)
    requires n > 0
    ensures Represents(hash, EmptyChains<Entry<K, V>>(n), map[])
    ensures Flat(EmptyChains<Entry<K, V>>(n)) == [] && AllIds(EmptyChains<Entry<K, V>>(n)) == multiset{}
  {
    EmptyFlat<K, V>(n);
  }

  /** pxHtNewHashTable for integer keys; too many initial entries are silently not added. */
  method NewIntTable<V>(initEntries: nat, max: nat, increment: nat, numBuckets: nat, mallocOk: bool)
    returns (t: Table<nat, V>)
    ensures fresh(t) && t.Valid() && t.contents == map[] && t.maxEntries == max
    ensures t.hash == HashedInt && t.allocSize == if increment > 0xFFFF then 0xFFFF else increment
    ensures |t.chains| % 2 == 1 && numBuckets <= |t.chains| <= numBuckets + 1
    ensures |t.free| == if mallocOk && (max == 0 || initEntries <= max) then initEntries else 0
  {
    t := new Table(HashedInt, max, increment, numBuckets);
    var added := t.MoreFree(initEntries, mallocOk);
  }

  /** In a table that is full, with no memory to be had, a new key can take the place of a deleted one. */
  method Replace<K(!new), V>(t: Table<K, V>, out: K, k: K, v: V) returns (r: AddResult)
    requires t.Valid() && out in t.contents && k !in t.contents
    modifies t
    ensures t.Valid() && r == Returned(1) && t.contents == (old(t.contents) - {out})[k := v]
    ensures t.nextId == old(t.nextId) && t.free == old(t.free) && t.curEntries == old(t.curEntries)
  {
    var deleted := t.Delete(out);
    r := t.AddVal(false, k, v, false);
  }

  // ----- the walk over all entries is the map -----

  lemma {:induction false} GetAppend<K, V>(a: seq<Entry<K, V>>, b: seq<Entry<K, V>>, k: K)
    ensures Get(a + b, k) == if Get(a, k).Some? then Get(a, k) else Get(b, k)
  {
    if a == [] {
      assert a + b == b;
    } else {
      assert (a + b)[0] == a[0] && (a + b)[1..] == a[1..] + b;
      GetAppend(a[1..], b, k);
    }
  }

  lemma {:induction false} UniqueAppend<K(!new), V>(a: seq<Entry<K, V>>, b: seq<Entry<K, V>>)
    requires Unique(a) && Unique(b) && forall k :: Get(a, k).Some? ==> Get(b, k).None?
    ensures Unique(a + b)
  {
    if a == [] {
      assert a + b == b;
    } else {
      assert (a + b)[0] == a[0] && (a + b)[1..] == a[1..] + b;
      assert Get(a, a[0].key).Some?;
      forall k | Get(a[1..], k).Some?
        ensures Get(b, k).None?
      {
        assert Get(a, k).Some?;
      }
      UniqueAppend(a[1..], b);
      GetAppend(a[1..], b, a[0].key);
    }
  }

  lemma {:induction false} GetElsewhere<K, V>(chain: seq<Entry<K, V>>, k: K)
    requires forall i :: 0 <= i < |chain| ==> chain[i].key != k
    ensures Get(chain, k).None?
  {
    if chain != [] {
      GetElsewhere(chain[1..], k);
    }
  }

  lemma FlatSuffix<K, V>(chains: seq<seq<Entry<K, V>>>, b: nat)
    requires b < |chains|
    ensures Flat(chains[b..]) == chains[b] + Flat(chains[b + 1..])
  {
    assert chains[b..][1..] == chains[b + 1..];
  }

  lemma OtherBucket<K(!new), V>(hash: K -> nat, chains: seq<seq<Entry<K, V>>>, m: map<K, V>, b: nat, k: K)
    requires Represents(hash, chains, m) && b < |chains| && hash(k) % |chains| != b
    ensures Get(chains[b], k).None?
  {
    assert Placed(hash, chains, b);
    GetElsewhere(chains[b], k);
  }

  lemma {:induction false} SuffixGet<K(!new), V>(hash: K -> nat, chains: seq<seq<Entry<K, V>>>, m: map<K, V>, b: nat)
    requires Represents(hash, chains, m) && b <= |chains|
    ensures Unique(Flat(chains[b..]))
    ensures forall k :: Get(Flat(chains[b..]), k) == if hash(k) % |chains| >= b then Lookup(m, k) else None
    decreases |chains| - b
  {
    if b < |chains| {
      var a, rest := chains[b], Flat(chains[b + 1..]);
      FlatSuffix(chains, b);
      SuffixGet(hash, chains, m, b + 1);
      forall k
        ensures Get(a, k).Some? ==> Get(rest, k).None?
        ensures Get(a + rest, k) == if hash(k) % |chains| >= b then Lookup(m, k) else None
      {
        GetAppend(a, rest, k);
        assert Get(chains[hash(k) % |chains|], k) == Lookup(m, k);
        if hash(k) % |chains| != b {
          OtherBucket(hash, chains, m, b, k);
        }
      }
      assert Unique(a);
      UniqueAppend(a, rest);
    }
  }

  /** A walk over all entries meets every key of the map exactly once, with its value. */
  lemma WalkIsMap<K(!new), V>(hash: K -> nat, chains: seq<seq<Entry<K, V>>>, m: map<K, V>)
    requires Represents(hash, chains, m)
    ensures Unique(Flat(chains)) && forall k :: Get(Flat(chains), k) == Lookup(m, k)
  {
    assert chains[0..] == chains;
    SuffixGet(hash, chains, m, 0);
  }

  // ----- the iterator -----

  /** pxNext between calls: an entry, or NULL. */
  datatype Cursor = AtEntry(id: nat) | Done

  function IndexOf<K, V>(chain: seq<Entry<K, V>>, id: nat): (i: nat)
    ensures i <= |chain| && (i < |chain| ==> chain[i].id == id)
  {
    if chain == [] || chain[0].id == id then 0 else 1 + IndexOf(chain[1..], id)
  }

  /** The entry that the cursor is on is still in its chain. */
  predicate Usable<K, V>(chains: seq<seq<Entry<K, V>>>, bucket: nat, c: Cursor) {
    match c
    case Done => true
    case AtEntry(id) => bucket < |chains| && IndexOf(chains[bucket], id) < |chains[bucket]|
  }

  /** Position in the chain of the first entry not yet passed. */
  function Here<K, V>(chain: seq<Entry<K, V>>, c: Cursor): nat {
    match c
    case AtEntry(id) => IndexOf(chain, id)
    case _ => 0
  }

  /** What the iterator has still to return. */
  function Remaining<K, V>(chains: seq<seq<Entry<K, V>>>, bucket: nat, c: Cursor): seq<Entry<K, V>>
    requires Usable(chains, bucket, c)
  {
    if c.Done? then [] else chains[bucket][Here(chains[bucket], c)..] + Flat(chains[bucket + 1..])
  }

  /** The p-th entry of bucket b has been passed. */
  predicate Behind<K, V>(chains: seq<seq<Entry<K, V>>>, bucket: nat, c: Cursor, b: nat, p: nat)
    requires Usable(chains, bucket, c)
  {
    c.Done? || b < bucket || (b == bucket && p < Here(chains[bucket], c))
  }

  lemma {:induction false} ChainOnce<K, V>(chains: seq<seq<Entry<K, V>>>, b: nat, id: nat)
    requires b < |chains|
    ensures ChainIds(chains[b])[id] <= AllIds(chains)[id]
  {
    if b > 0 {
      ChainOnce(chains[1..], b - 1, id);
    }
  }

  lemma {:induction false} IdCounts<K, V>(chain: seq<Entry<K, V>>, i: nat)
    requires i < |chain|
    ensures ChainIds(chain)[chain[i].id] >= 1
    ensures ChainIds(chain)[chain[i].id] <= 1 ==> IndexOf(chain, chain[i].id) == i
  {
    if i > 0 {
      IdCounts(chain[1..], i - 1);
    }
  }

  lemma IndexIs<K, V>(free: seq<nat>, chains: seq<seq<Entry<K, V>>>, live: set<nat>, b: nat, i: nat)
    requires Shared(free, chains, live) && b < |chains| && i < |chains[b]|
    ensures IndexOf(chains[b], chains[b][i].id) == i
  {
    var id := chains[b][i].id;
    SharedIs(free, chains, live);
    assert multiset(live)[id] <= 1;
    assert (FreeIds(free) + AllIds(chains))[id] == multiset(live)[id];
    ChainOnce(chains, b, id);
    IdCounts(chains[b], i);
  }

  lemma {:induction false} IndexRemoved<K, V>(chain: seq<Entry<K, V>>, p: nat, id: nat)
    requires p < IndexOf(chain, id) < |chain|
    ensures IndexOf(RemoveAt(chain, p), id) == IndexOf(chain, id) - 1
    ensures RemoveAt(chain, p)[IndexOf(chain, id) - 1..] == chain[IndexOf(chain, id)..]
  {
    if p > 0 {
      RemoveLater(chain, p);
      assert RemoveAt(chain, p)[1..] == RemoveAt(chain[1..], p - 1);
      IndexRemoved(chain[1..], p - 1, id);
    } else {
      assert RemoveAt(chain, 0) == chain[1..];
    }
  }

  /** Deleting an entry that has been passed changes nothing for the rest of the walk. */
  lemma DeleteBehind<K, V>(chains: seq<seq<Entry<K, V>>>, bucket: nat, c: Cursor, b: nat, p: nat)
    requires Usable(chains, bucket, c) && b < |chains| && p < |chains[b]| && Behind(chains, bucket, c, b, p)
    ensures var chains' := chains[b := RemoveAt(chains[b], p)];
            Usable(chains', bucket, c) && Remaining(chains', bucket, c) == Remaining(chains, bucket, c)
  {
    var chains' := chains[b := RemoveAt(chains[b], p)];
    if c.AtEntry? {
      assert chains'[bucket + 1..] == chains[bucket + 1..];
      if b == bucket {
        IndexRemoved(chains[b], p, c.id);
      }
    }
  }

  /** The entries from position i of bucket b on. */
  function Pending<K, V>(chains: seq<seq<Entry<K, V>>>, b: nat, i: nat): seq<Entry<K, V>> {
    if b < |chains| && i <= |chains[b]| then chains[b][i..] + Flat(chains[b + 1..]) else []
  }

  /** Past the end of a bucket is before the start of the next. */
  lemma PendingNext<K, V>(chains: seq<seq<Entry<K, V>>>, b: nat)
    requires b < |chains|
    ensures Pending(chains, b, |chains[b]|) == Pending(chains, b + 1, 0)
  {
    if b + 1 < |chains| {
      FlatSuffix(chains, b + 1);
      assert chains[b + 1][0..] == chains[b + 1];
    }
  }

  /** The loop of prvNextentry: from position `start` of a bucket to the first entry at or after it. */
  method Seek<K, V>(chains: seq<seq<Entry<K, V>>>, from: nat, start: nat, ghost free: seq<nat>, ghost live: set<nat>)
    returns (bucket: nat, next: Cursor)
    requires Shared(free, chains, live) && from < |chains| && start <= |chains[from]|
    ensures Usable(chains, bucket, next)
    ensures Remaining(chains, bucket, next) == Pending(chains, from, start)
    ensures next.Done? || bucket > from || (bucket == from && Here(chains[bucket], next) >= start)
  {
    var right: nat := start;
    bucket, next := from, Done;
    while bucket < |chains| && right >= |chains[bucket]|
      invariant from <= bucket <= |chains| && (bucket == from ==> right == start)
      invariant bucket < |chains| ==> right <= |chains[bucket]|
      invariant Pending(chains, from, start) == Pending(chains, bucket, right)
      decreases |chains| - bucket
    {
      PendingNext(chains, bucket);
      bucket := bucket + 1;
      right := 0;
    }
    if bucket < |chains| {
      IndexIs(free, chains, live, bucket, right);
      next := AtEntry(chains[bucket][right].id);
    }
  }

  class Iterator<K(==, !new), V> {
    const table: Table<K, V>
    var bucket: nat
    var next: Cursor

    ghost predicate Valid()
      reads this, table
    {
      Shared(table.free, table.chains, table.live) && Usable(table.chains, bucket, next)
    }

    /** What the walk has still to return. */
    ghost function Rest(): seq<Entry<K, V>>
      requires Valid()
      reads this, table
    {
      Remaining(table.chains, bucket, next)
    }

    /** vHtInitIterator. */
    constructor (t: Table<K, V>)
      requires Shared(t.free, t.chains, t.live) && |t.chains| > 0
      ensures Valid() && table == t && Rest() == Flat(t.chains)
    {
      var first, cursor := Seek(t.chains, 0, 0, t.free, t.live);
      table, bucket, next := t, first, cursor;
      FlatSuffix(t.chains, 0);
      assert t.chains[0..] == t.chains && t.chains[0][0..] == t.chains[0];
    }

    /** pxHtIteratorNext: the next entry has already been selected when this one is returned. */
    method Next() returns (r: Option<Entry<K, V>>)
      requires Valid()
      modifies this
      ensures Valid()
      ensures r.None? <==> old(Rest()) == []
      ensures r.None? ==> Rest() == []
      ensures r.Some? ==> old(Rest()) == [r.value] + Rest()
      ensures r.Some? ==> old(bucket) < |table.chains| &&
                          var p := Here(table.chains[old(bucket)], old(next));
                          p < |table.chains[old(bucket)]| && table.chains[old(bucket)][p] == r.value &&
                          Behind(table.chains, bucket, next, old(bucket), p)
    {
      if next.Done? {
        return None;
      }
      var chain := table.chains[bucket];
      var i := IndexOf(chain, next.id);
      assert chain[i..] == [chain[i]] + chain[i + 1..];
      bucket, next := Seek(table.chains, bucket, i + 1, table.free, table.live);
      r := Some(chain[i]);
    }
  }

  // ----- walks -----

  method Walk<K(!new), V>(t: Table<K, V>) returns (es: seq<Entry<K, V>>)
    requires Shared(t.free, t.chains, t.live) && |t.chains| > 0
    ensures es == Flat(t.chains)
  {
    var it := new Iterator(t);
    es := [];
    var more := true;
    ghost var rest := it.Rest();
    while more
      invariant it.Valid() && it.table == t && fresh(it) && it.Rest() == rest
      invariant Flat(t.chains) == es + rest && (!more ==> rest == [])
      decreases |rest|, more
    {
      var e := it.Next();
      more := e.Some?;
      if more {
        es := es + [e.value];
      }
      rest := it.Rest();
    }
  }

  /** htFOREACH collecting: every entry of the table once. */
  method Collect<K(!new), V>(t: Table<K, V>) returns (es: seq<Entry<K, V>>)
    requires t.Valid()
    ensures es == Flat(t.chains) && |es| == |t.contents| && Unique(es)
    ensures forall k :: Get(es, k) == Lookup(t.contents, k)
  {
    WalkIsMap(t.hash, t.chains, t.contents);
    es := Walk(t);
  }

  lemma {:induction false} PositionHere<K, V>(chain: seq<Entry<K, V>>, p: nat)
    requires p < |chain| && Unique(chain)
    ensures Position(chain, chain[p].key) == p
  {
    if p > 0 {
      PositionHere(chain[1..], p - 1);
      PositionOf(chain[1..], p - 1);
    }
  }

  /** One turn of a walk that deletes what it is given. */
  method NextAndDelete<K(!new), V>(t: Table<K, V>, it: Iterator<K, V>) returns (r: Option<Entry<K, V>>)
    requires t.Valid() && it.Valid() && it.table == t
    modifies t, it
    ensures t.Valid() && it.Valid()
    ensures r.None? <==> old(it.Rest()) == []
    ensures r.None? ==> t.contents == old(t.contents) && t.curEntries == old(t.curEntries) && it.Rest() == []
    ensures r.Some? ==> old(it.Rest()) == [r.value] + it.Rest() && t.contents == old(t.contents) - {r.value.key}
    ensures r.Some? ==> t.curEntries == old(t.curEntries) - 1
  {
    ghost var b := it.bucket;
    ghost var p := if it.next.Done? then 0 else Here(t.chains[b], it.next);
    r := it.Next();
    if r.Some? {
      Located(t.hash, t.chains, t.contents, b, p);
      DeleteBehind(t.chains, it.bucket, it.next, b, p);
      MapSizes(t.contents, r.value.key, r.value.value);
      var deleted := t.Delete(r.value.key);
    }
  }

  lemma Located<K(!new), V>(hash: K -> nat, chains: seq<seq<Entry<K, V>>>, m: map<K, V>, b: nat, p: nat)
    requires Represents(hash, chains, m) && b < |chains| && p < |chains[b]|
    ensures var k := chains[b][p].key; k in m && hash(k) % |chains| == b && Position(chains[b], k) == p
  {
    var k := chains[b][p].key;
    assert Placed(hash, chains, b) && Unique(chains[b]);
    PositionHere(chains[b], p);
    PositionOf(chains[b], p);
    assert Get(chains[hash(k) % |chains|], k) == Lookup(m, k);
  }

  /** It is safe to delete the entry being examined: the walk still meets all the others, so a walk
      that deletes everything it meets leaves nothing. */
  method DeleteAll<K(!new), V>(t: Table<K, V>)
    requires t.Valid()
    modifies t
    ensures t.Valid() && t.contents == map[] && t.curEntries == 0
  {
    var it := new Iterator(t);
    var more := true;
    ghost var rest := it.Rest();
    while more
      invariant t.Valid() && it.Valid() && it.table == t && fresh(it) && it.Rest() == rest
      invariant t.curEntries == |rest| && (!more ==> rest == [])
      decreases |rest|, more
    {
      var e := NextAndDelete(t, it);
      more := e.Some?;
      rest := it.Rest();
    }
    assert |t.contents| == 0;
  }
}
