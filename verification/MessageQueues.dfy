/** The named message queues of FreeRTOS_POSIX_mqueue.c as a machine whose steps are the sections
    under the list mutex, the calls of the kernel queue, and the deferred deletion, interleaved in any
    order by any threads. The kernel queue is a bounded FIFO. */
module MessageQueues {
  import opened Varint
  import opened Schema

  const NAME_MAX: nat := 64
  const MQ_MAX_MESSAGES: nat := 10
  const MQ_MAX_SIZE: nat := 128

  /** In the list; removed from it, resources not yet freed; freed. */
  datatype Status = Listed | Dying | Deleted

  /** A QueueListElement_t, its kernel queue (the copies it holds, by number), and what happened to it. */
  datatype Queue = Queue(
    name: string,
    open: nat,
    pending: bool,
    status: Status,
    maxMsg: nat,
    msgSize: nat,
    items: seq<nat>,
    puts: seq<nat>,
    left: seq<nat>,
    deletions: nat)

  datatype State = State(
    /** Every queue ever created, by number. A descriptor in an action is the queue that is at that address
        when the call is made: memory that is freed and used again holds a queue with another number. */
    store: seq<Queue>,
    /** Contents of every copy that mq_timedsend ever allocated. */
    copies: seq<seq<byte>>,
    /** Copies in a send that has not yet reached the kernel queue, and the queue they are for. */
    sending: map<nat, nat>,
    /** Receives that have passed the mutex and not yet got anything. */
    receiving: multiset<nat>,
    /** Copies taken from a queue by a receive or by a deletion, and not yet freed. */
    taken: multiset<nat>,
    freed: multiset<nat>)

  datatype Action =
    | Open(name: string, create: bool, excl: bool, attr: Option<(int, int)>, memory: bool)
    | Close(q: nat)
    | Unlink(name: string)
    | SendBegin(q: nat, msg: seq<byte>, memory: bool) | SendPut(c: nat) | SendFail(c: nat)
    | ReceiveBegin(q: nat, len: nat) | ReceiveGet(q: nat) | ReceiveFail(q: nat)
    | DrainGet(q: nat) | FreeCopy(c: nat) | Finish(q: nat)

  // ----- the list -----

  /** prvValidateQueueName. */
  predicate ValidName(name: string) {
    name != [] && name[0] == '/' && |name| < NAME_MAX + 2
  }

  predicate Names(q: Queue, name: string) {
    q.status.Listed? && q.name == name
  }

  /** prvFindQueueInList by name: the listed queue with the name, or the number of queues. */
  function Find(store: seq<Queue>, name: string): (k: nat)
    ensures k <= |store|
    ensures k < |store| ==> Names(store[k], name)
    ensures forall i :: 0 <= i < k ==> !Names(store[i], name)
  {
    if store == [] || Names(store[0], name) then 0 else 1 + Find(store[1..], name)
  }

  datatype Opening = Refused | Reopens(q: nat) | Creates(maxMsg: nat, msgSize: nat)

  /** The decisions of mq_open. */
  function Decide(store: seq<Queue>, name: string, create: bool, excl: bool, attr: Option<(int, int)>): Opening {
    var k := Find(store, name);
    if !ValidName(name) then Refused
    else if create && attr.Some? && (attr.value.0 <= 0 || attr.value.1 <= 0) then Refused
    else if k < |store| then (if (excl && create) || store[k].pending then Refused else Reopens(k))
    else if !create then Refused
    else if attr.None? then Creates(MQ_MAX_MESSAGES, MQ_MAX_SIZE)
    else Creates(attr.value.0, attr.value.1)
  }

  /** mq_close, for a listed queue. */
  function Closed(q: Queue): Queue {
    var open := if q.open > 0 then q.open - 1 else 0;
    if open > 0 then q.(open := open)
    else if q.pending then q.(open := 0, status := Dying)
    else q.(open := 0, pending := true)
  }

  /** mq_unlink, for a listed queue. */
  function Unlinked(q: Queue): Queue {
    if q.open == 0 then q.(status := Dying) else q.(pending := true)
  }

  // ----- the steps -----

  predicate Accepts(store: seq<Queue>, q: nat) {
    q < |store| && store[q].status.Listed?
  }

  /** Some call that has passed the mutex is using the queue. */
  predicate InUse(s: State, q: nat) {
    q in s.receiving || exists c :: c in s.sending && s.sending[c] == q
  }

  /** When a step can be taken. */
  predicate Can(s: State, a: Action) {
    match a
    case SendPut(c) =>
      c in s.sending && s.sending[c] < |s.store| &&
      |s.store[s.sending[c]].items| < s.store[s.sending[c]].maxMsg
    case SendFail(c) => c in s.sending
    case ReceiveGet(q) => q in s.receiving && q < |s.store| && s.store[q].items != []
    case ReceiveFail(q) => q in s.receiving
    case DrainGet(q) => q < |s.store| && s.store[q].status.Dying? && s.store[q].items != []
    case FreeCopy(c) => c in s.taken
    case Finish(q) => q < |s.store| && s.store[q].status.Dying? && s.store[q].items == []
    case _ => true
  }

  /** mq_timedsend and mq_timedreceive pass the mutex. */
  predicate Admits(s: State, a: Action) {
    match a
    case SendBegin(q, msg, memory) => Accepts(s.store, q) && |msg| <= s.store[q].msgSize && memory
    case ReceiveBegin(q, len) => Accepts(s.store, q) && len >= s.store[q].msgSize
    case _ => false
  }

  /** What callers owe: they hold a descriptor open while they send or receive, so a call starts with
      one open, and the last one is not closed before the call is over. */
  predicate Disciplined(s: State, a: Action) {
    match a
    case Close(q) => Accepts(s.store, q) && s.store[q].open <= 1 ==> !InUse(s, q)
    case SendBegin(q, _, _) => Admits(s, a) ==> s.store[q].open > 0
    case ReceiveBegin(q, _) => Admits(s, a) ==> s.store[q].open > 0
    case _ => true
  }

  function PutItem(q: Queue, c: nat): Queue {
    q.(items := q.items + [c], puts := q.puts + [c])
  }

  function GetItem(q: Queue): Queue
    requires q.items != []
  {
    q.(items := q.items[1..], left := q.left + [q.items[0]])
  }

  function Do(s: State, a: Action): State
    requires Can(s, a)
  {
    match a
    case Open(name, create, excl, attr, memory) =>
      (match Decide(s.store, name, create, excl, attr)
       case Refused => s
       case Reopens(k) => s.(store := s.store[k := s.store[k].(open := s.store[k].open + 1)])
       case Creates(m, z) =>
         if !memory then s else s.(store := s.store + [Queue(name, 1, false, Listed, m, z, [], [], [], 0)]))
    case Close(q) => if Accepts(s.store, q) then s.(store := s.store[q := Closed(s.store[q])]) else s
    case Unlink(name) =>
      var k := Find(s.store, name);
      if ValidName(name) && k < |s.store| then s.(store := s.store[k := Unlinked(s.store[k])]) else s
    case SendBegin(q, msg, memory) =>
      if Admits(s, a) then s.(copies := s.copies + [msg], sending := s.sending[|s.copies| := q]) else s
    case SendPut(c) =>
      var q := s.sending[c];
      s.(store := s.store[q := PutItem(s.store[q], c)], sending := s.sending - {c})
    case SendFail(c) => s.(sending := s.sending - {c}, freed := s.freed + multiset{c})
    case ReceiveBegin(q, len) =>
      if Admits(s, a) then s.(receiving := s.receiving + multiset{q}) else s
    case ReceiveGet(q) =>
      s.(store := s.store[q := GetItem(s.store[q])], taken := s.taken + multiset{s.store[q].items[0]},
         receiving := s.receiving - multiset{q})
    case ReceiveFail(q) => s.(receiving := s.receiving - multiset{q})
    case DrainGet(q) => s.(store := s.store[q := GetItem(s.store[q])], taken := s.taken + multiset{s.store[q].items[0]})
    case FreeCopy(c) => s.(taken := s.taken - multiset{c}, freed := s.freed + multiset{c})
    case Finish(q) =>
      s.(store := s.store[q := s.store[q].(status := Deleted, deletions := s.store[q].deletions + 1)])
  }

  // ----- the invariant -----

  /** Storage is deleted at most once, only with no descriptor open and no message inside; a listed
      queue without descriptors is pending unlink; messages leave in the order they were put. */
  predicate QueueOk(q: Queue) {
    ValidName(q.name) && q.puts == q.left + q.items && |q.items| <= q.maxMsg && q.maxMsg > 0 &&
    (q.open == 0 ==> q.pending) && (!q.status.Listed? ==> q.open == 0) &&
    (q.status.Deleted? ==> q.items == []) && q.deletions == if q.status.Deleted? then 1 else 0
  }

  predicate QueuesOk(s: State) {
    forall q :: 0 <= q < |s.store| ==> QueueOk(s.store[q])
  }

  predicate NamesDistinct(s: State) {
    forall i, j :: 0 <= i < j < |s.store| && s.store[i].status.Listed? && s.store[j].status.Listed? ==>
                     s.store[i].name != s.store[j].name
  }

  predicate Held(s: State, q: nat) {
    Accepts(s.store, q) && s.store[q].open > 0
  }

  /** Whatever a call in progress uses is listed and held open. */
  predicate CallsHeld(s: State) {
    (forall c :: c in s.sending ==> Held(s, s.sending[c])) && forall q :: q in s.receiving ==> Held(s, q)
  }

  function Inside(store: seq<Queue>): multiset<nat> {
    if store == [] then multiset{} else multiset(store[0].items) + Inside(store[1..])
  }

  /** Places where copy c is, counting the freed ones. */
  function Count(s: State, c: nat): nat {
    Inside(s.store)[c] + (if c in s.sending then 1 else 0) + s.taken[c] + s.freed[c]
  }

  /** Every copy made is in one place, once: in a send, in a queue, in a receive or drain, or freed. */
  ghost predicate EachOnce(s: State) {
    forall c: nat :: Count(s, c) == if c < |s.copies| then 1 else 0
  }

  ghost predicate Inv(s: State) {
    QueuesOk(s) && NamesDistinct(s) && CallsHeld(s) && EachOnce(s)
  }

  // ----- every step keeps it -----

  lemma {:induction false} InsideExchange(store: seq<Queue>, k: nat, q: Queue, c: nat)
    requires k < |store|
    ensures Inside(store[k := q])[c] + multiset(store[k].items)[c] == Inside(store)[c] + multiset(q.items)[c]
  {
    var first, rest := store[0], store[1..];
    if k == 0 {
      assert store[0 := q][1..] == rest;
    } else {
      assert store[k := q][1..] == rest[k - 1 := q];
      InsideExchange(rest, k - 1, q, c);
    }
  }

  lemma {:induction false} InsideNew(store: seq<Queue>, q: Queue, c: nat)
    requires q.items == []
    ensures Inside(store + [q])[c] == Inside(store)[c]
  {
    if store != [] {
      assert (store + [q])[1..] == store[1..] + [q];
      InsideNew(store[1..], q, c);
    }
  }

  lemma GetCounts(q: Queue, c: nat)
    requires q.items != []
    ensures multiset(q.items)[c] == multiset(GetItem(q).items)[c] + multiset{q.items[0]}[c]
  {
    assert q.items == [q.items[0]] + q.items[1..];
  }

  lemma ListCount(s: State, a: Action, c: nat)
    requires Can(s, a) && (a.Open? || a.Close? || a.Unlink?)
    ensures Count(Do(s, a), c) == Count(s, c)
  {
    var s' := Do(s, a);
    if a.Open? {
      var o := Decide(s.store, a.name, a.create, a.excl, a.attr);
      if o.Reopens? {
        InsideExchange(s.store, o.q, s'.store[o.q], c);
      } else if o.Creates? && a.memory {
        InsideNew(s.store, s'.store[|s.store|], c);
      }
    } else if a.Close? {
      if Accepts(s.store, a.q) {
        InsideExchange(s.store, a.q, Closed(s.store[a.q]), c);
      }
    } else {
      var k := Find(s.store, a.name);
      if k < |s.store| {
        InsideExchange(s.store, k, Unlinked(s.store[k]), c);
      }
    }
  }

  lemma PutCount(s: State, d: nat, c: nat)
    requires Can(s, SendPut(d))
    ensures Count(Do(s, SendPut(d)), c) == Count(s, c)
  {
    var q := s.sending[d];
    InsideExchange(s.store, q, PutItem(s.store[q], d), c);
  }

  lemma ReceiveCount(s: State, q: nat, c: nat)
    requires Can(s, ReceiveGet(q))
    ensures Count(Do(s, ReceiveGet(q)), c) == Count(s, c)
  {
    InsideExchange(s.store, q, GetItem(s.store[q]), c);
    GetCounts(s.store[q], c);
  }

  lemma DrainCount(s: State, q: nat, c: nat)
    requires Can(s, DrainGet(q))
    ensures Count(Do(s, DrainGet(q)), c) == Count(s, c)
  {
    InsideExchange(s.store, q, GetItem(s.store[q]), c);
    GetCounts(s.store[q], c);
  }

  lemma FinishCount(s: State, q: nat, c: nat)
    requires Can(s, Finish(q))
    ensures Count(Do(s, Finish(q)), c) == Count(s, c)
  {
    InsideExchange(s.store, q, Do(s, Finish(q)).store[q], c);
  }

  lemma BeginCount(s: State, q: nat, msg: seq<byte>, memory: bool, c: nat)
    requires Can(s, SendBegin(q, msg, memory)) && |s.copies| !in s.sending
    ensures var s' := Do(s, SendBegin(q, msg, memory));
            Count(s', c) == Count(s, c) + if |s.copies| <= c < |s'.copies| then 1 else 0
  {
  }

  lemma FreeCount(s: State, a: Action, c: nat)
    requires Can(s, a) && (a.SendFail? || a.FreeCopy?)
    ensures Count(Do(s, a), c) == Count(s, c)
  {
  }

  /** A step moves copies; only the start of a send makes one. */
  lemma CountStep(s: State, a: Action, c: nat)
    requires Can(s, a) && CallsHeld(s) && |s.copies| !in s.sending
    ensures Count(Do(s, a), c) == Count(s, c) + if |s.copies| <= c < |Do(s, a).copies| then 1 else 0
  {
    match a
    case Open(_, _, _, _, _) => ListCount(s, a, c);
    case Close(_) => ListCount(s, a, c);
    case Unlink(_) => ListCount(s, a, c);
    case SendPut(d) => PutCount(s, d, c);
    case ReceiveGet(q) => ReceiveCount(s, q, c);
    case DrainGet(q) => DrainCount(s, q, c);
    case Finish(q) => FinishCount(s, q, c);
    case SendBegin(q, msg, memory) => BeginCount(s, q, msg, memory, c);
    case SendFail(_) => FreeCount(s, a, c);
    case FreeCopy(_) => FreeCount(s, a, c);
    case ReceiveBegin(_, _) =>
    case ReceiveFail(_) =>
  }

  lemma KeepsEachOnce(s: State, a: Action)
    requires Can(s, a) && CallsHeld(s) && EachOnce(s)
    ensures EachOnce(Do(s, a))
  {
    assert Count(s, |s.copies|) == 0;
    forall c: nat
      ensures Count(Do(s, a), c) == if c < |Do(s, a).copies| then 1 else 0
    {
      CountStep(s, a, c);
    }
  }

  // ----- one queue in one step -----

  /** What a step may make of a queue. */
  ghost predicate Becomes(q: Queue, q': Queue, closing: bool) {
    || q' == q
    || (q.status.Listed? && !q.pending && q' == q.(open := q.open + 1))
    || (q.status.Listed? && (q' == Unlinked(q) || (closing && q' == Closed(q))))
    || (q.status.Listed? && |q.items| < q.maxMsg && exists c: nat :: q' == PutItem(q, c))
    || (q.items != [] && q' == GetItem(q))
    || (q.status.Dying? && q.items == [] && q' == q.(status := Deleted, deletions := q.deletions + 1))
  }

  lemma ListStep(s: State, a: Action, i: nat)
    requires (a.Open? || a.Close? || a.Unlink?) && i < |s.store|
    ensures i < |Do(s, a).store| && Becomes(s.store[i], Do(s, a).store[i], a == Close(i))
  {
  }

  lemma CallStep(s: State, a: Action, i: nat)
    requires Can(s, a) && CallsHeld(s) && !(a.Open? || a.Close? || a.Unlink?) && i < |s.store|
    ensures i < |Do(s, a).store| && Becomes(s.store[i], Do(s, a).store[i], false)
  {
    var q := s.store[i];
    match a
    case SendPut(c) => assert i == s.sending[c] ==> Do(s, a).store[i] == PutItem(q, c);
    case _ =>
  }

  lemma StoreStep(s: State, a: Action, i: nat)
    requires Can(s, a) && CallsHeld(s) && i < |s.store|
    ensures i < |Do(s, a).store| && Becomes(s.store[i], Do(s, a).store[i], a == Close(i))
  {
    hide Becomes, Do;
    if a.Open? || a.Close? || a.Unlink? {
      ListStep(s, a, i);
    } else {
      CallStep(s, a, i);
    }
  }

  lemma NewQueue(s: State, a: Action)
    requires Can(s, a)
    ensures |s.store| <= |Do(s, a).store| <= |s.store| + 1
    ensures |Do(s, a).store| > |s.store| ==>
              a.Open? && Find(s.store, a.name) == |s.store| && QueueOk(Do(s, a).store[|s.store|]) &&
              Do(s, a).store[|s.store|].name == a.name
  {
  }

  lemma BecomesOk(q: Queue, q': Queue, closing: bool)
    requires QueueOk(q) && Becomes(q, q', closing)
    ensures QueueOk(q') && q'.name == q.name && (q'.status.Listed? ==> q.status.Listed?)
    ensures q.pending ==> q'.pending && q'.open <= q.open
    ensures q'.deletions > q.deletions ==> q.open == 0
    ensures q.left <= q'.left && q.puts <= q'.puts && q.deletions <= q'.deletions
    ensures q'.maxMsg == q.maxMsg && q'.msgSize == q.msgSize
  {
    if q.items != [] && q' == GetItem(q) {
      assert q.items == [q.items[0]] + q.items[1..];
    }
  }

  lemma KeepsQueues(s: State, a: Action)
    requires Can(s, a) && CallsHeld(s) && QueuesOk(s)
    ensures QueuesOk(Do(s, a))
  {
    NewQueue(s, a);
    forall i | 0 <= i < |Do(s, a).store|
      ensures QueueOk(Do(s, a).store[i])
    {
      if i < |s.store| {
        StoreStep(s, a, i);
        BecomesOk(s.store[i], Do(s, a).store[i], a == Close(i));
      }
    }
  }

  lemma KeepsNames(s: State, a: Action)
    requires Can(s, a) && CallsHeld(s) && QueuesOk(s) && NamesDistinct(s)
    ensures NamesDistinct(Do(s, a))
  {
    var s' := Do(s, a);
    NewQueue(s, a);
    forall i, j | 0 <= i < j < |s'.store| && s'.store[i].status.Listed? && s'.store[j].status.Listed?
      ensures s'.store[i].name != s'.store[j].name
    {
      StoreStep(s, a, i);
      BecomesOk(s.store[i], s'.store[i], a == Close(i));
      if j < |s.store| {
        StoreStep(s, a, j);
        BecomesOk(s.store[j], s'.store[j], a == Close(j));
      } else {
        assert !Names(s.store[i], a.name);
      }
    }
  }

  lemma BecomesHeld(q: Queue, q': Queue, closing: bool)
    requires QueueOk(q) && Becomes(q, q', closing) && q.status.Listed? && q.open > 0 && !(closing && q.open <= 1)
    ensures q'.status.Listed? && q'.open > 0
  {
  }

  /** The step does not close the last descriptor of the queue. */
  predicate Spares(s: State, a: Action, q: nat) {
    Held(s, q) && !(a == Close(q) && s.store[q].open <= 1)
  }

  lemma StaysHeld(s: State, a: Action, q: nat)
    requires Can(s, a) && CallsHeld(s) && QueuesOk(s) && Spares(s, a, q)
    ensures Held(Do(s, a), q)
  {
    StoreStep(s, a, q);
    BecomesHeld(s.store[q], Do(s, a).store[q], a == Close(q));
  }

  /** Only the start of a call adds one. */
  lemma SendingAfter(s: State, a: Action, c: nat)
    requires Can(s, a) && c in Do(s, a).sending
    ensures (c in s.sending && Do(s, a).sending[c] == s.sending[c]) ||
            (a.SendBegin? && Admits(s, a) && Do(s, a).sending[c] == a.q)
  {
  }

  lemma ReceivingAfter(s: State, a: Action, q: nat)
    requires Can(s, a) && q in Do(s, a).receiving
    ensures q in s.receiving || (a.ReceiveBegin? && Admits(s, a) && q == a.q)
  {
  }

  /** Whoever is in a call after a disciplined step used a queue that the step spares. */
  lemma SendsSpared(s: State, a: Action, c: nat)
    requires Can(s, a) && Disciplined(s, a) && CallsHeld(s) && c in Do(s, a).sending
    ensures Spares(s, a, Do(s, a).sending[c])
  {
    hide Do, Can;
    SendingAfter(s, a, c);
  }

  lemma ReceivesSpared(s: State, a: Action, q: nat)
    requires Can(s, a) && Disciplined(s, a) && CallsHeld(s) && q in Do(s, a).receiving
    ensures Spares(s, a, q)
  {
    hide Do, Can;
    ReceivingAfter(s, a, q);
  }

  lemma KeepsCalls(s: State, a: Action)
    requires Can(s, a) && Disciplined(s, a) && CallsHeld(s) && QueuesOk(s)
    ensures CallsHeld(Do(s, a))
  {
    var s' := Do(s, a);
    forall c | c in s'.sending
      ensures Held(s', s'.sending[c])
    {
      SendsSpared(s, a, c);
      StaysHeld(s, a, s'.sending[c]);
    }
    forall q | q in s'.receiving
      ensures Held(s', q)
    {
      ReceivesSpared(s, a, q);
      StaysHeld(s, a, q);
    }
  }

  /** An undisciplined step leaves a call on a queue that nobody holds open. */
  lemma BreaksCalls(s: State, a: Action)
    requires Can(s, a) && !Disciplined(s, a)
    ensures !CallsHeld(Do(s, a))
  {
    var s' := Do(s, a);
    match a
    case Close(q) =>
      assert !Held(s', q);
      if q !in s.receiving {
        var c :| c in s.sending && s.sending[c] == q;
        assert c in s'.sending && s'.sending[c] == q;
      }
    case SendBegin(q, _, _) =>
      assert |s.copies| in s'.sending && s'.sending[|s.copies|] == q && !Held(s', q);
    case ReceiveBegin(q, _) =>
      assert q in s'.receiving && !Held(s', q);
  }

  /** A step keeps the invariant exactly if it is disciplined. */
  lemma StepKeeps(s: State, a: Action)
    requires Inv(s) && Can(s, a)
    ensures Inv(Do(s, a)) <==> Disciplined(s, a)
  {
    if Disciplined(s, a) {
      KeepsQueues(s, a);
      KeepsNames(s, a);
      KeepsCalls(s, a);
      KeepsEachOnce(s, a);
    } else {
      BreaksCalls(s, a);
    }
  }

  // ----- whole runs -----

  predicate Feasible(s: State, az: seq<Action>)
    decreases |az|
  {
    az == [] || (Can(s, az[0]) && Feasible(Do(s, az[0]), az[1..]))
  }

  function Run(s: State, az: seq<Action>): State
    requires Feasible(s, az)
    decreases |az|
  {
    if az == [] then s else Run(Do(s, az[0]), az[1..])
  }

  const EMPTY: State := State([], [], map[], multiset{}, multiset{}, multiset{})

  predicate AllDisciplined(s: State, az: seq<Action>)
    requires Feasible(s, az)
    decreases |az|
  {
    az == [] || (Disciplined(s, az[0]) && AllDisciplined(Do(s, az[0]), az[1..]))
  }

  ghost predicate Always(s: State, az: seq<Action>)
    requires Feasible(s, az)
    decreases |az|
  {
    Inv(s) && (az == [] || Always(Do(s, az[0]), az[1..]))
  }

  /** The invariant holds all along a run exactly if every step is disciplined. */
  lemma {:induction false} RunKeeps(s: State, az: seq<Action>)
    requires Inv(s) && Feasible(s, az)
    ensures Always(s, az) <==> AllDisciplined(s, az)
    ensures AllDisciplined(s, az) ==> Inv(Run(s, az))
    decreases |az|
  {
    if az != [] {
      StepKeeps(s, az[0]);
      if Disciplined(s, az[0]) {
        RunKeeps(Do(s, az[0]), az[1..]);
      } else {
        assert !Always(Do(s, az[0]), az[1..]);
      }
    }
  }

  /** A copy that is neither in a send nor in a queue nor being received or drained has been freed
      exactly once, and no copy is ever freed twice. */
  ghost predicate FreedOnce(s: State) {
    forall c: nat {:trigger s.freed[c]} ::
      s.freed[c] <= 1 &&
      (c < |s.copies| && c !in s.sending && c !in Inside(s.store) && c !in s.taken ==> s.freed[c] == 1)
  }

  /** No storage that a send or a receive is using has been, or is being, deleted. */
  predicate NoneUsedAfterDeletion(s: State) {
    forall q :: 0 <= q < |s.store| && InUse(s, q) ==> s.store[q].status.Listed? && s.store[q].deletions == 0
  }

  lemma InvMeans(s: State)
    requires Inv(s)
    ensures FreedOnce(s) && NoneUsedAfterDeletion(s)
  {
    forall c: nat
      ensures s.freed[c] <= 1
      ensures c < |s.copies| && c !in s.sending && c !in Inside(s.store) && c !in s.taken ==> s.freed[c] == 1
    {
      assert Count(s, c) == if c < |s.copies| then 1 else 0;
    }
    forall q | 0 <= q < |s.store| && InUse(s, q)
      ensures s.store[q].status.Listed? && s.store[q].deletions == 0
    {
      assert Held(s, q) && QueueOk(s.store[q]);
    }
  }

  /** Every interleaving of every call, from an empty list, as long as callers keep their discipline. */
  lemma EveryRun(az: seq<Action>)
    requires Feasible(EMPTY, az) && AllDisciplined(EMPTY, az)
    ensures var s := Run(EMPTY, az);
            NamesDistinct(s) && QueuesOk(s) && FreedOnce(s) && NoneUsedAfterDeletion(s)
  {
    RunKeeps(EMPTY, az);
    InvMeans(Run(EMPTY, az));
  }

  // ----- the discipline is what safety takes -----

  /** However the callers go on, as long as they keep their discipline from here, no queue is deleted under
      a call. */
  ghost predicate SafeOn(s: State) {
    forall az :: Feasible(s, az) && AllDisciplined(s, az) ==> NoneUsedAfterDeletion(Run(s, az))
  }

  lemma InvSafe(s: State)
    requires Inv(s)
    ensures SafeOn(s)
  {
    hide Inv, NoneUsedAfterDeletion;
    forall az | Feasible(s, az) && AllDisciplined(s, az)
      ensures NoneUsedAfterDeletion(Run(s, az))
    {
      RunKeeps(s, az);
      InvMeans(Run(s, az));
    }
  }

  /** A call on a listed queue that nobody holds open: one unlink, which any thread may call, deletes the
      queue under it. */
  lemma UnlinkDeletes(s: State, q: nat)
    requires NamesDistinct(s) && Accepts(s.store, q) && s.store[q].open == 0 && InUse(s, q) && ValidName(s.store[q].name)
    ensures var az := [Unlink(s.store[q].name)];
            Feasible(s, az) && AllDisciplined(s, az) && !NoneUsedAfterDeletion(Run(s, az))
  {
    var a := Unlink(s.store[q].name);
    var k := Find(s.store, a.name);
    assert Names(s.store[q], a.name);
    assert k == q;
    var s' := Do(s, a);
    assert s'.store[q].status.Dying? && s'.sending == s.sending && s'.receiving == s.receiving;
    assert InUse(s', q);
    assert [a][1..] == [];
    assert Feasible(s', []) && AllDisciplined(s', []) && Run(s', []) == s';
  }

  /** After an undisciplined step a queue is deleted under a call at once, or by the next unlink. */
  lemma Undisciplined(s: State, a: Action) returns (az: seq<Action>)
    requires Inv(s) && Can(s, a) && !Disciplined(s, a)
    ensures var s' := Do(s, a); Feasible(s', az) && AllDisciplined(s', az) && !NoneUsedAfterDeletion(Run(s', az))
  {
    var s' := Do(s, a);
    var q := match a case Close(q) => q case SendBegin(q, _, _) => q case ReceiveBegin(q, _) => q;
    assert QueueOk(s.store[q]);
    StillInUse(s, a, q);
    if a.Close? && s.store[q].pending {
      az := [];
      assert s'.store[q].status.Dying?;
    } else {
      az := [Unlink(s'.store[q].name)];
      NamesStay(s, a);
      UnlinkDeletes(s', q);
    }
  }

  lemma StillInUse(s: State, a: Action, q: nat)
    requires !Disciplined(s, a) && (a == Close(q) || (a.SendBegin? && a.q == q) || (a.ReceiveBegin? && a.q == q))
    ensures InUse(Do(s, a), q)
  {
    var s' := Do(s, a);
    match a
    case Close(_) => assert s'.sending == s.sending && s'.receiving == s.receiving;
    case SendBegin(_, _, _) => assert |s.copies| in s'.sending && s'.sending[|s.copies|] == q;
    case ReceiveBegin(_, _) => assert q in s'.receiving;
  }

  lemma NamesStay(s: State, a: Action)
    requires Inv(s) && Can(s, a)
    ensures NamesDistinct(Do(s, a))
  {
    KeepsNames(s, a);
  }

  /** A step is disciplined if and only if no queue can be deleted under a call because of it. */
  lemma StepSafeExactly(s: State, a: Action)
    requires Inv(s) && Can(s, a)
    ensures Disciplined(s, a) <==> SafeOn(Do(s, a))
  {
    if Disciplined(s, a) {
      StepKeeps(s, a);
      InvSafe(Do(s, a));
    } else {
      var az := Undisciplined(s, a);
    }
  }

  ghost predicate SafeAlong(s: State, az: seq<Action>)
    requires Feasible(s, az)
    decreases |az|
  {
    SafeOn(s) && (az == [] || SafeAlong(Do(s, az[0]), az[1..]))
  }

  /** A run is disciplined if and only if it is safe to go on from each of its states. */
  lemma {:induction false} RunSafeExactly(s: State, az: seq<Action>)
    requires Inv(s) && Feasible(s, az)
    ensures AllDisciplined(s, az) <==> SafeAlong(s, az)
    decreases |az|
  {
    hide Inv, SafeOn, Disciplined;
    InvSafe(s);
    if az != [] {
      StepSafeExactly(s, az[0]);
      StepKeeps(s, az[0]);
      if Disciplined(s, az[0]) {
        RunSafeExactly(Do(s, az[0]), az[1..]);
      } else {
        assert !SafeOn(Do(s, az[0]));
      }
    }
  }

  /** What becomes of one queue over any run: name and attributes stay; a pending unlink is never taken back and
      the queue never gains a descriptor; deletion is final; what was put and what has left only grow, in
      order. */
  predicate Ages(q: Queue, q': Queue) {
    q'.maxMsg == q.maxMsg && q'.msgSize == q.msgSize &&
    q'.name == q.name && (q'.status.Listed? ==> q.status.Listed?) && q.deletions <= q'.deletions &&
    (q.pending ==> q'.pending && q'.open <= q.open) && q.left <= q'.left && q.puts <= q'.puts
  }

  /** The contents of a message never change. */
  lemma CopiesStay(s: State, a: Action)
    requires Can(s, a)
    ensures s.copies <= Do(s, a).copies
  {
  }

  lemma {:induction false} RunAges(s: State, az: seq<Action>, i: nat)
    requires Inv(s) && Feasible(s, az) && AllDisciplined(s, az) && i < |s.store|
    ensures i < |Run(s, az).store| && Ages(s.store[i], Run(s, az).store[i])
    ensures s.copies <= Run(s, az).copies
    decreases |az|
  {
    if az != [] {
      var s' := Do(s, az[0]);
      StoreStep(s, az[0], i);
      assert QueueOk(s.store[i]);
      BecomesOk(s.store[i], s'.store[i], az[0] == Close(i));
      StepKeeps(s, az[0]);
      CopiesStay(s, az[0]);
      RunAges(s', az[1..], i);
    }
  }

  /** A queue whose last descriptor is closed cannot be opened again, although nobody unlinked it. */
  lemma LastCloseUnlinks(s: State, q: nat, create: bool, excl: bool, attr: Option<(int, int)>)
    requires Inv(s) && Accepts(s.store, q) && s.store[q].open == 1 && !s.store[q].pending && Disciplined(s, Close(q))
    ensures var s' := Do(s, Close(q));
            Accepts(s'.store, q) && Decide(s'.store, s.store[q].name, create, excl, attr) == Refused
  {
    var s' := Do(s, Close(q));
    StepKeeps(s, Close(q));
    var k := Find(s'.store, s.store[q].name);
    assert Names(s'.store[q], s.store[q].name);
  }

  /** After a close the queue can still be opened exactly if that was not its last descriptor and nobody has
      unlinked it. */
  lemma ReopensExactly(s: State, q: nat, attr: Option<(int, int)>)
    requires Inv(s) && Accepts(s.store, q)
    ensures Decide(Do(s, Close(q)).store, s.store[q].name, false, false, attr) == Reopens(q) <==>
            s.store[q].open >= 2 && !s.store[q].pending
  {
    var s' := Do(s, Close(q));
    KeepsNames(s, Close(q));
    assert QueueOk(s.store[q]);
    var k := Find(s'.store, s.store[q].name);
    if s'.store[q].status.Listed? {
      assert Names(s'.store[q], s.store[q].name);
      assert k == q;
    }
  }

  // ----- what opening comes to -----

  predicate IsListed(s: State, name: string) {
    exists q :: 0 <= q < |s.store| && Names(s.store[q], name)
  }

  /** The attributes are missing, or positive. */
  predicate GoodAttr(attr: Option<(int, int)>) {
    attr.Some? ==> attr.value.0 > 0 && attr.value.1 > 0
  }

  lemma FindListed(s: State, name: string)
    ensures IsListed(s, name) <==> Find(s.store, name) < |s.store|
  {
    var k := Find(s.store, name);
    assert k < |s.store| ==> Names(s.store[k], name);
  }

  /** A listed queue is opened exactly if it is not pending unlink and the call does not insist on making one; only
      its count of descriptors changes. */
  lemma OpenListed(s: State, q: nat, create: bool, excl: bool, attr: Option<(int, int)>, memory: bool)
    requires Inv(s) && Accepts(s.store, q)
    ensures var a := Open(s.store[q].name, create, excl, attr, memory);
            var refused := (create && !GoodAttr(attr)) || (create && excl) || s.store[q].pending;
            Do(s, a) == if refused then s else s.(store := s.store[q := s.store[q].(open := s.store[q].open + 1)])
  {
    var k := Find(s.store, s.store[q].name);
    assert Names(s.store[q], s.store[q].name) && QueueOk(s.store[q]);
    assert k == q;
  }

  /** A queue that is not listed is made exactly if the call asks for it, with a valid name, attributes and memory.
      It has one descriptor, and the attributes asked for, or room for 10 messages of 128 bytes. */
  lemma OpenNew(s: State, name: string, create: bool, excl: bool, attr: Option<(int, int)>, memory: bool)
    requires !IsListed(s, name)
    ensures var s' := Do(s, Open(name, create, excl, attr, memory));
            if create && memory && ValidName(name) && GoodAttr(attr)
            then var (most, size) := if attr.Some? then attr.value else (10, 128);
                 s' == s.(store := s.store + [Queue(name, 1, false, Listed, most, size, [], [], [], 0)])
            else s' == s
  {
    FindListed(s, name);
  }

  /** Creating with O_EXCL succeeds exactly if the name is not listed. */
  lemma ExclusiveCreate(s: State, name: string, attr: Option<(int, int)>)
    requires Inv(s) && ValidName(name) && GoodAttr(attr)
    ensures Do(s, Open(name, true, true, attr, true)) == s <==> IsListed(s, name)
  {
    if IsListed(s, name) {
      var q :| 0 <= q < |s.store| && Names(s.store[q], name);
      OpenListed(s, q, true, true, attr, true);
    } else {
      OpenNew(s, name, true, true, attr, true);
    }
  }

  // ----- the attributes a queue is made with govern all its life -----

  /** A send of a message of k bytes starts exactly if k is at most the message size, and then holds a copy of it. */
  ghost predicate SendRule(s: State, q: nat, size: int) {
    forall msg, memory :: Do(s, SendBegin(q, msg, memory)) ==
      if |msg| <= size && memory then s.(copies := s.copies + [msg], sending := s.sending[|s.copies| := q]) else s
  }

  /** A receive starts exactly if its buffer has room for the message size. */
  ghost predicate ReceiveRule(s: State, q: nat, size: int) {
    forall len: nat :: Do(s, ReceiveBegin(q, len)) == if len >= size then s.(receiving := s.receiving + multiset{q}) else s
  }

  /** A copy can be put exactly while fewer than this many are inside, and goes to the end. */
  predicate PutRule(s: State, q: nat, most: int)
    requires q < |s.store|
  {
    forall c :: c in s.sending && s.sending[c] == q ==>
      (Can(s, SendPut(c)) <==> |s.store[q].items| < most) &&
      (Can(s, SendPut(c)) ==> Do(s, SendPut(c)).store[q].items == s.store[q].items + [c])
  }

  lemma RulesHold(s: State, q: nat)
    requires CallsHeld(s) && Accepts(s.store, q)
    ensures SendRule(s, q, s.store[q].msgSize) && ReceiveRule(s, q, s.store[q].msgSize) && PutRule(s, q, s.store[q].maxMsg)
  {
  }

  /** After any run: a queue created now with room for so many messages of such a size keeps to that in every
      run from here. */
  lemma AttributesGovern(az: seq<Action>, name: string, excl: bool, attr: Option<(int, int)>, later: seq<Action>)
    requires Feasible(EMPTY, az) && AllDisciplined(EMPTY, az)
    requires !IsListed(Run(EMPTY, az), name) && ValidName(name) && GoodAttr(attr)
    requires var made := Do(Run(EMPTY, az), Open(name, true, excl, attr, true)); Feasible(made, later) && AllDisciplined(made, later)
    ensures var q := |Run(EMPTY, az).store|;
            var s := Run(Do(Run(EMPTY, az), Open(name, true, excl, attr, true)), later);
            var (most, size) := if attr.Some? then attr.value else (10, 128);
            q < |s.store| && s.store[q].name == name && |s.store[q].items| <= most &&
            (Accepts(s.store, q) ==> SendRule(s, q, size) && ReceiveRule(s, q, size) && PutRule(s, q, most))
  {
    hide SendRule, ReceiveRule, PutRule, Do;
    var s0 := Run(EMPTY, az);
    RunKeeps(EMPTY, az);
    var a := Open(name, true, excl, attr, true);
    var made := Do(s0, a);
    OpenNew(s0, name, true, excl, attr, true);
    StepKeeps(s0, a);
    var q := |s0.store|;
    RunAges(made, later, q);
    RunKeeps(made, later);
    var s := Run(made, later);
    assert QueueOk(s.store[q]);
    if Accepts(s.store, q) {
      RulesHold(s, q);
    }
  }

  // ----- who is in a call, and what enters and leaves a queue -----

  /** A receive is in progress from where it passed the mutex until it gets something or fails. */
  lemma ReceivingStep(s: State, a: Action, q: nat)
    requires Can(s, a)
    ensures var begun := if a.ReceiveBegin? && a.q == q && Admits(s, a) then 1 else 0;
            var over := if a == ReceiveGet(q) || a == ReceiveFail(q) then 1 else 0;
            Do(s, a).receiving[q] + over == s.receiving[q] + begun
  {
  }

  lemma SendStarts(s: State, a: Action, c: nat)
    requires a.SendBegin?
    ensures Admits(s, a) ==> Do(s, a).copies == s.copies + [a.msg] && Do(s, a).sending == s.sending[|s.copies| := a.q]
    ensures !Admits(s, a) ==> Do(s, a) == s
  {
  }

  lemma SendEnds(s: State, a: Action, c: nat)
    requires Can(s, a) && !a.SendBegin?
    ensures c in Do(s, a).sending <==> c in s.sending && a != SendPut(c) && a != SendFail(c)
  {
    match a
    case SendPut(e) => assert Do(s, a).sending == s.sending - {e};
    case SendFail(e) => assert Do(s, a).sending == s.sending - {e};
    case _ =>
  }

  /** A copy is being sent from where its send passed the mutex until it is put or given up. */
  lemma SendingStep(s: State, a: Action, c: nat)
    requires Can(s, a)
    ensures c in Do(s, a).sending <==>
            (a.SendBegin? && Admits(s, a) && c == |s.copies|) || (c in s.sending && a != SendPut(c) && a != SendFail(c))
  {
    if a.SendBegin? {
      SendStarts(s, a, c);
      hide Do;
    } else {
      SendEnds(s, a, c);
    }
  }

  lemma ListItems(s: State, a: Action, q: nat)
    requires (a.Open? || a.Close? || a.Unlink?) && q < |s.store|
    ensures q < |Do(s, a).store| && Do(s, a).store[q].items == s.store[q].items
  {
  }

  lemma CallItems(s: State, a: Action, q: nat)
    requires CallsHeld(s) && Can(s, a) && Accepts(s.store, q) && !(a.Open? || a.Close? || a.Unlink?)
    ensures q < |Do(s, a).store|
    ensures var x, y := s.store[q], Do(s, a).store[q];
            y.items == if a.SendPut? && s.sending[a.c] == q then x.items + [a.c]
                       else if a == ReceiveGet(q) then x.items[1..] else x.items
  {
    match a
    case SendPut(c) => assert Held(s, s.sending[c]);
    case _ =>
  }

  /** What goes into a listed queue is put by a send to it, and what comes out, first in first, goes to a receive
      from it. */
  lemma ItemsStep(s: State, a: Action, q: nat)
    requires Inv(s) && Can(s, a) && Accepts(s.store, q)
    ensures q < |Do(s, a).store|
    ensures var x, y := s.store[q], Do(s, a).store[q];
            y.items == if a.SendPut? && s.sending[a.c] == q then x.items + [a.c]
                       else if a == ReceiveGet(q) then x.items[1..] else x.items
    ensures a == ReceiveGet(q) ==> Do(s, a).taken == s.taken + multiset{s.store[q].items[0]}
  {
    if a.Open? || a.Close? || a.Unlink? {
      ListItems(s, a, q);
    } else {
      CallItems(s, a, q);
    }
  }

  // ----- how a queue goes away -----

  /** What a step makes of a listed queue: it leaves the list exactly if it is unlinked with no descriptor open, or
      its last descriptor is closed when it is pending; it becomes pending exactly if it is unlinked with
      descriptors open or its last one is closed; its count follows the opens and closes. */
  predicate LifeStep(x: Queue, y: Queue, opens: bool, closes: bool, unlinks: bool) {
    var last := closes && x.open <= 1;
    (y.status.Listed? <==> !(last && x.pending) && !(unlinks && x.open == 0)) &&
    (y.status.Listed? ==> (y.pending <==> x.pending || last || unlinks)) &&
    y.open == if opens then x.open + 1 else if closes && x.open > 0 then x.open - 1 else x.open
  }

  lemma OpenLife(s: State, a: Action, q: nat)
    requires Inv(s) && a.Open? && Accepts(s.store, q)
    ensures q < |Do(s, a).store|
    ensures LifeStep(s.store[q], Do(s, a).store[q], a.name == s.store[q].name && Do(s, a) != s, false, false)
  {
    if a.name == s.store[q].name {
      OpenListed(s, q, a.create, a.excl, a.attr, a.memory);
      hide Do, Inv;
    } else {
      OpenOther(s, a, q);
    }
  }

  lemma OpenOther(s: State, a: Action, q: nat)
    requires a.Open? && Accepts(s.store, q) && a.name != s.store[q].name
    ensures q < |Do(s, a).store| && Do(s, a).store[q] == s.store[q]
  {
  }

  lemma UnlinkLife(s: State, name: string, q: nat)
    requires Inv(s) && Accepts(s.store, q)
    ensures var s' := Do(s, Unlink(name));
            q < |s'.store| && LifeStep(s.store[q], s'.store[q], false, false, name == s.store[q].name)
  {
    assert QueueOk(s.store[q]) && Names(s.store[q], s.store[q].name);
    var k := Find(s.store, name);
    assert name == s.store[q].name ==> k == q;
  }

  lemma CloseLife(s: State, c: nat, q: nat)
    requires Accepts(s.store, q)
    ensures var s' := Do(s, Close(c)); q < |s'.store| && LifeStep(s.store[q], s'.store[q], false, c == q, false)
  {
  }

  lemma CallLife(s: State, a: Action, q: nat)
    requires CallsHeld(s) && Can(s, a) && Accepts(s.store, q) && !(a.Open? || a.Close? || a.Unlink?)
    ensures q < |Do(s, a).store| && LifeStep(s.store[q], Do(s, a).store[q], false, false, false)
  {
    match a
    case SendPut(c) => assert Held(s, s.sending[c]);
    case _ =>
  }

  /** Nobody's step does anything else to a listed queue. */
  lemma LeavesExactly(s: State, a: Action, q: nat)
    requires Inv(s) && Can(s, a) && Accepts(s.store, q)
    ensures q < |Do(s, a).store|
    ensures var x := s.store[q];
            LifeStep(x, Do(s, a).store[q], a.Open? && a.name == x.name && Do(s, a) != s, a == Close(q), a == Unlink(x.name))
  {
    hide Do, LifeStep;
    match a
    case Open(_, _, _, _, _) => OpenLife(s, a, q);
    case Close(c) => CloseLife(s, c, q);
    case Unlink(name) => UnlinkLife(s, name, q);
    case _ => CallLife(s, a, q);
  }

  lemma DrainOne(s: State, q: nat)
    requires Can(s, DrainGet(q))
    ensures var x := s.store[q];
            var c := x.items[0];
            var s1 := Do(s, DrainGet(q));
            var s2 := Do(s1, FreeCopy(c));
            Can(s1, FreeCopy(c)) && s2.store == s.store[q := GetItem(x)] && s2.taken == s.taken &&
            s2.freed + multiset(x.items[1..]) == s.freed + multiset(x.items)
  {
    var items := s.store[q].items;
    FirstOfBag(s.freed, items);
    AddAndRemove(s.taken, items[0]);
  }

  lemma FirstOfBag(bag: multiset<nat>, items: seq<nat>)
    requires items != []
    ensures bag + multiset{items[0]} + multiset(items[1..]) == bag + multiset(items)
  {
    assert items == [items[0]] + items[1..];
  }

  lemma AddAndRemove(bag: multiset<nat>, c: nat)
    ensures bag + multiset{c} - multiset{c} == bag
  {
  }

  lemma FinishOne(s: State, q: nat)
    requires Can(s, Finish(q))
    ensures var t := Do(s, Finish(q));
            q < |t.store| && t.store[q].status.Deleted? && t.store[q].items == [] &&
            t.freed == s.freed + multiset(s.store[q].items) && t.taken == s.taken
  {
    assert s.freed + multiset(s.store[q].items) == s.freed;
  }

  /** The deletion of a queue that has left the list can be completed, and then every message that was inside has
      been freed. */
  lemma {:induction false} DeletionCompletes(s: State, q: nat) returns (az: seq<Action>)
    requires q < |s.store| && s.store[q].status.Dying?
    ensures Feasible(s, az) && AllDisciplined(s, az)
    ensures var t := Run(s, az);
            q < |t.store| && t.store[q].status.Deleted? && t.store[q].items == [] &&
            t.freed == s.freed + multiset(s.store[q].items) && t.taken == s.taken
    decreases |s.store[q].items|
  {
    hide Do;
    if s.store[q].items == [] {
      az := [Finish(q)] + [];
      FinishOne(s, q);
      RunFirst(s, Finish(q), []);
    } else {
      var c := s.store[q].items[0];
      DrainOne(s, q);
      var s1 := Do(s, DrainGet(q));
      var s2 := Do(s1, FreeCopy(c));
      var rest := DeletionCompletes(s2, q);
      az := [DrainGet(q)] + ([FreeCopy(c)] + rest);
      hide Run, Feasible, AllDisciplined;
      RunFirst(s1, FreeCopy(c), rest);
      RunFirst(s, DrainGet(q), [FreeCopy(c)] + rest);
    }
  }

  lemma RunFirst(s: State, a: Action, az: seq<Action>)
    requires Can(s, a) && Feasible(Do(s, a), az)
    ensures Feasible(s, [a] + az) && Run(s, [a] + az) == Run(Do(s, a), az)
    ensures AllDisciplined(s, [a] + az) <==> Disciplined(s, a) && AllDisciplined(Do(s, a), az)
  {
    assert ([a] + az)[1..] == az;
  }

  /** Without the discipline a queue goes away under a send: opened, sent to, closed and unlinked, it is
      taken off the list with the send still to come. */
  lemma UseAfterUnlink()
    ensures var az := [Open("/q", true, false, None, true)] + ([SendBegin(0, [], true)] + ([Close(0)] + [Unlink("/q")]));
            Feasible(EMPTY, az) && !NoneUsedAfterDeletion(Run(EMPTY, az))
  {
    var open, send := Open("/q", true, false, None, true), SendBegin(0, [], true);
    var q := Queue("/q", 1, false, Listed, MQ_MAX_MESSAGES, MQ_MAX_SIZE, [], [], [], 0);
    var s1 := Do(EMPTY, open);
    assert s1.store == [q];
    var s2 := Do(s1, send);
    assert s2.store == [q] && s2.sending == map[0 := 0];
    var s3 := Do(s2, Close(0));
    assert s3.store == [q.(open := 0, pending := true)] && s3.sending == map[0 := 0];
    assert InUse(s3, 0) by {
      assert 0 in s3.sending && s3.sending[0] == 0;
    }
    hide Do;
    UnlinkDeletes(s3, 0);
    RunFirst(s2, Close(0), [Unlink("/q")]);
    RunFirst(s1, send, [Close(0)] + [Unlink("/q")]);
    RunFirst(EMPTY, open, [send] + ([Close(0)] + [Unlink("/q")]));
  }

  /** A name is accepted exactly if it starts with a slash and has at most NAME_MAX more characters; the
      header allows NAME_MAX with the slash. */
  lemma NameLength(name: string)
    ensures ValidName(name) <==> name != [] && name[0] == '/' && |name[1..]| <= 64
    ensures ValidName(name) && |name| > NAME_MAX ==> |name| == NAME_MAX + 1
  {
  }

  /** prvFindQueueInList by name. */
  method FindQueue(store: seq<Queue>, name: string) returns (found: bool, k: nat)
    ensures k == Find(store, name) && found == (k < |store|)
  {
    k := 0;
    while k < |store| && !Names(store[k], name)
      invariant k <= |store|
      invariant forall i :: 0 <= i < k ==> !Names(store[i], name)
    {
      k := k + 1;
    }
    found := k < |store|;
  }
}
