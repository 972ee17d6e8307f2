/** The numbering of xDtpWrite and the receiver xDtpReceive of dtp.c. */
module Dtp {
  import opened Varint

  const PDU_FLAGS_DATA_RUN: nat := 0x80

  type SeqNum = x: int | 0 <= x < TWO_32

  datatype Pdu = Pdu(number: SeqNum, flags: nat)

  predicate DataRun(p: Pdu) {
    p.flags / PDU_FLAGS_DATA_RUN % 2 == 1
  }

  /** The part of the state vector that the receiver uses. */
  datatype Receiver = Receiver(drfRequired: bool, leftEdge: SeqNum)

  const FRESH: Receiver := Receiver(true, 0)

  /** What xDtpReceive does with a PDU: the new state, and whether the PDU is posted upwards. */
  function Receive(r: Receiver, p: Pdu): (Receiver, bool) {
    if r.drfRequired then (if DataRun(p) then (Receiver(false, p.number), true) else (r, false))
    else if p.number <= r.leftEdge then (r, false)
    else if p.number == (r.leftEdge + 1) % TWO_32 then (r.(leftEdge := p.number), true)
    else (r, true)
  }

  // ----- the state vector -----

  class StateVector {
    var nextSeqNumberToSend: SeqNum
    var drfFlag: bool
    var drfRequired: bool
    var rcvLeftWindowEdge: SeqNum

    ghost function Receiving(): Receiver
      reads this
    {
      Receiver(drfRequired, rcvLeftWindowEdge)
    }

    /** pxDtpStateVectorInit. */
    constructor ()
      ensures Receiving() == FRESH && nextSeqNumberToSend == 0 && drfFlag
    {
      nextSeqNumberToSend, drfFlag := 0, true;
      drfRequired, rcvLeftWindowEdge := true, 0;
    }

    /** The numbering and flagging in xDtpWrite. */
    method Number() returns (p: Pdu)
      modifies this`nextSeqNumberToSend
      ensures nextSeqNumberToSend == (old(nextSeqNumberToSend) + 1) % TWO_32
      ensures p == Pdu(nextSeqNumberToSend, if drfFlag then PDU_FLAGS_DATA_RUN else 0)
    {
      nextSeqNumberToSend := (nextSeqNumberToSend + 1) % TWO_32;
      var flags := 0;
      if drfFlag {
        flags := flags + PDU_FLAGS_DATA_RUN;
      }
      p := Pdu(nextSeqNumberToSend, flags);
    }

    /** xDtpReceive. */
    method ReceivePdu(p: Pdu) returns (posted: bool)
      modifies this`drfRequired, this`rcvLeftWindowEdge
      ensures (Receiving(), posted) == Receive(old(Receiving()), p)
    {
      if drfRequired {
        if p.flags / 128 % 2 == 1 {
          drfRequired := false;
          rcvLeftWindowEdge := p.number;
          return true;
        }
        return false;
      }
      if p.number <= rcvLeftWindowEdge {
        return false;
      }
      if p.number == (rcvLeftWindowEdge + 1) % TWO_32 {
        rcvLeftWindowEdge := p.number;
      }
      posted := true;
    }
  }

  // ----- all arrivals -----

  function After(r: Receiver, ps: seq<Pdu>): Receiver
    decreases |ps|
  {
    if ps == [] then r else After(Receive(r, ps[0]).0, ps[1..])
  }

  /** The numbers posted upwards, in order. */
  function Posted(r: Receiver, ps: seq<Pdu>): seq<SeqNum>
    decreases |ps|
  {
    if ps == [] then []
    else (if Receive(r, ps[0]).1 then [ps[0].number] else []) + Posted(Receive(r, ps[0]).0, ps[1..])
  }

  function Range(a: int, b: int): seq<int>
    decreases b - a
  {
    if a > b then [] else [a] + Range(a + 1, b)
  }

  lemma {:induction false} RangeLength(a: int, b: int)
    ensures |Range(a, b)| == if a > b then 0 else b - a + 1
    ensures forall i :: 0 <= i < |Range(a, b)| ==> Range(a, b)[i] == a + i
    decreases b - a
  {
    if a <= b {
      RangeLength(a + 1, b);
    }
  }

  /** Once the first data run has begun, the left edge never goes back. */
  lemma {:induction false} EdgeNeverDecreases(r: Receiver, ps: seq<Pdu>)
    requires !r.drfRequired
    ensures !After(r, ps).drfRequired && r.leftEdge <= After(r, ps).leftEdge
    decreases |ps|
  {
    if ps != [] {
      EdgeNeverDecreases(Receive(r, ps[0]).0, ps[1..]);
    }
  }

  /** Every number above the old edge up to the new one has been posted. */
  lemma {:induction false} EdgeIsPosted(r: Receiver, ps: seq<Pdu>, x: SeqNum)
    requires !r.drfRequired && r.leftEdge < x <= After(r, ps).leftEdge
    ensures x in Posted(r, ps)
    decreases |ps|
  {
    var r', rest := Receive(r, ps[0]).0, ps[1..];
    if x > r'.leftEdge {
      EdgeIsPosted(r', rest, x);
    }
  }

  /** And nothing at or below the edge is ever posted again. */
  lemma {:induction false} NeverBelowEdge(r: Receiver, ps: seq<Pdu>, x: SeqNum)
    requires !r.drfRequired && x in Posted(r, ps)
    ensures x > r.leftEdge
    decreases |ps|
  {
    var r', rest := Receive(r, ps[0]).0, ps[1..];
    if x in Posted(r', rest) {
      NeverBelowEdge(r', rest, x);
    }
  }

  /** No PDU arrives more than one ahead of the edge. */
  predicate NoGaps(r: Receiver, ps: seq<Pdu>)
    requires !r.drfRequired
    decreases |ps|
  {
    ps == [] || (ps[0].number <= r.leftEdge + 1 && NoGaps(Receive(r, ps[0]).0, ps[1..]))
  }

  /** Delivery is in order and exactly once precisely if no PDU arrives more than one ahead of the edge;
      replays of old PDUs do no harm. */
  lemma {:induction false} InOrderExactlyOnce(r: Receiver, ps: seq<Pdu>)
    requires !r.drfRequired
    ensures Posted(r, ps) == Range(r.leftEdge + 1, After(r, ps).leftEdge) <==> NoGaps(r, ps)
    decreases |ps|
  {
    if ps == [] {
      RangeLength(r.leftEdge + 1, r.leftEdge);
    } else {
      var r', rest := Receive(r, ps[0]).0, ps[1..];
      EdgeNeverDecreases(r', rest);
      InOrderExactlyOnce(r', rest);
      var a, b := r.leftEdge + 1, After(r, ps).leftEdge;
      if ps[0].number > a {
        RangeLength(a, b);
        assert Posted(r, ps)[0] == ps[0].number;
      } else if ps[0].number == a {
        assert Posted(r, ps) == [a] + Posted(r', rest) && Range(a, b) == [a] + Range(a + 1, b);
        assert ([a] + Posted(r', rest))[1..] == Posted(r', rest) && ([a] + Range(a + 1, b))[1..] == Range(a + 1, b);
      }
    }
  }

  // ----- sender and receiver -----

  /** The n-th PDU that a sender numbers, the data run flag always set. */
  function Sent(n: nat): Pdu
    requires n < TWO_32
  {
    Pdu(n, PDU_FLAGS_DATA_RUN)
  }

  /** What a fresh sender makes of its first n SDUs. */
  method NumberMany(n: nat) returns (ps: seq<Pdu>)
    requires n < TWO_32
    ensures |ps| == n && forall i :: 0 <= i < n ==> ps[i] == Sent(i + 1)
  {
    var sv := new StateVector();
    ps := [];
    for i := 0 to n
      invariant |ps| == i == sv.nextSeqNumberToSend && sv.drfFlag && fresh(sv)
      invariant forall j :: 0 <= j < i ==> ps[j] == Sent(j + 1)
    {
      var p := sv.Number();
      ps := ps + [p];
    }
  }

  /** The highest number among the arrivals. */
  function Highest(ps: seq<Pdu>): SeqNum {
    if ps == [] then 0
    else
      var h := Highest(ps[..|ps| - 1]);
      if ps[|ps| - 1].number > h then ps[|ps| - 1].number else h
  }

  /** PDUs of the sender; each arrives after all those numbered before it, but old ones may come again,
      and it begins with the first. */
  predicate FirstArrivalsInOrder(ps: seq<Pdu>) {
    ps == [] ||
    (FirstArrivalsInOrder(ps[..|ps| - 1]) && DataRun(ps[|ps| - 1]) &&
     1 <= ps[|ps| - 1].number <= Highest(ps[..|ps| - 1]) + 1)
  }

  lemma {:induction false} AfterMore(r: Receiver, ps: seq<Pdu>, p: Pdu)
    ensures After(r, ps + [p]) == Receive(After(r, ps), p).0
    ensures Posted(r, ps + [p]) == Posted(r, ps) + if Receive(After(r, ps), p).1 then [p.number] else []
    decreases |ps|
  {
    if ps == [] {
      assert ps + [p] == [p] && [p][1..] == [];
    } else {
      assert (ps + [p])[0] == ps[0] && (ps + [p])[1..] == ps[1..] + [p];
      AfterMore(Receive(r, ps[0]).0, ps[1..], p);
    }
  }

  lemma {:induction false} RangeMore(a: int, b: int)
    requires a <= b + 1
    ensures Range(a, b + 1) == Range(a, b) + [b + 1]
    decreases b - a
  {
    if a <= b {
      RangeMore(a + 1, b);
    } else {
      assert Range(a + 1, b + 1) == [] && Range(a, b) == [];
    }
  }

  /** If first arrivals come in order, whatever replays there are, the receiver posts 1, 2, 3, ... up to
      the highest number received, each exactly once. */
  lemma {:induction false} ReplaysAreHarmless(ps: seq<Pdu>)
    requires FirstArrivalsInOrder(ps)
    ensures Posted(FRESH, ps) == Range(1, Highest(ps))
    ensures ps != [] ==> After(FRESH, ps) == Receiver(false, Highest(ps)) && Highest(ps) >= 1
  {
    if ps != [] {
      var most, p := ps[..|ps| - 1], ps[|ps| - 1];
      assert ps == most + [p];
      ReplaysAreHarmless(most);
      AfterMore(FRESH, most, p);
      if p.number == Highest(most) + 1 {
        RangeMore(1, Highest(most));
      }
    }
  }

  /** Only arrivals out of order show up in what is posted. */
  lemma {:induction false} GapShows(ps: seq<Pdu>)
    requires FromSender(ps) && !FirstArrivalsInOrder(ps)
    ensures exists i :: 0 <= i < |Posted(FRESH, ps)| && Posted(FRESH, ps)[i] != i + 1
  {
    var most, p := ps[..|ps| - 1], ps[|ps| - 1];
    assert ps == most + [p];
    AfterMore(FRESH, most, p);
    if FirstArrivalsInOrder(most) {
      ReplaysAreHarmless(most);
      RangeLength(1, Highest(most));
      assert Posted(FRESH, ps)[Highest(most)] == p.number;
    } else {
      GapShows(most);
      var i :| 0 <= i < |Posted(FRESH, most)| && Posted(FRESH, most)[i] != i + 1;
      assert Posted(FRESH, ps)[i] == Posted(FRESH, most)[i];
    }
  }

  /** PDUs as a sender numbers and flags them, in whatever order they arrive. */
  predicate FromSender(ps: seq<Pdu>) {
    forall i :: 0 <= i < |ps| ==> DataRun(ps[i]) && ps[i].number >= 1
  }

  /** A fresh receiver delivers in order and exactly once if and only if first arrivals come in order. */
  lemma DeliveredExactly(ps: seq<Pdu>)
    requires FromSender(ps)
    ensures Posted(FRESH, ps) == Range(1, Highest(ps)) <==> FirstArrivalsInOrder(ps)
  {
    if FirstArrivalsInOrder(ps) {
      ReplaysAreHarmless(ps);
    } else {
      GapShows(ps);
      RangeLength(1, Highest(ps));
    }
  }

  /** Until a data run begins nothing is posted and nothing changes; its first PDU is posted and sets the edge. */
  lemma {:induction false} FirstDataRun(r: Receiver, early: seq<Pdu>, p: Pdu)
    requires r.drfRequired && (forall i :: 0 <= i < |early| ==> !DataRun(early[i])) && DataRun(p)
    ensures Posted(r, early) == [] && After(r, early) == r
    ensures Posted(r, early + [p]) == [p.number] && After(r, early + [p]) == Receiver(false, p.number)
    decreases |early|
  {
    AfterMore(r, early, p);
    if early != [] {
      FirstDataRun(r, early[1..], p);
    }
  }

  // ----- where it does less -----

  /** A PDU ahead of the edge is posted without being recorded, so it can be posted twice. */
  lemma AheadIsPostedTwice()
    ensures Posted(FRESH, [Sent(1), Sent(3), Sent(3)]) == [1, 3, 3]
  {
    var r := Receiver(false, 1);
    var ps := [Sent(1), Sent(3), Sent(3)];
    assert ps[1..] == [Sent(3), Sent(3)] && ps[1..][1..] == [Sent(3)] && [Sent(3)][1..] == [];
    assert Posted(r, [Sent(3)]) == [3];
    assert Posted(r, [Sent(3), Sent(3)]) == [3, 3];
    assert Receive(FRESH, Sent(1)) == (r, true);
  }

  /** Every PDU flags a data run, so the numbering starts wherever the first arrival is: what was
      numbered before it and arrives later is lost. */
  lemma {:induction false} LateStartLoses(n: SeqNum, ps: seq<Pdu>, x: SeqNum)
    requires x < n
    ensures x !in Posted(FRESH, [Sent(n)] + ps)
  {
    assert ([Sent(n)] + ps)[1..] == ps;
    if x in Posted(Receiver(false, n), ps) {
      NeverBelowEdge(Receiver(false, n), ps, x);
    }
  }

  /** At the last number the receiver stops for good: the sender's counter wraps and nothing it numbers
      is above the edge. */
  lemma {:induction false} WrapStopsDelivery(ps: seq<Pdu>)
    ensures Posted(Receiver(false, TWO_32 - 1), ps) == []
  {
    if ps != [] {
      WrapStopsDelivery(ps[1..]);
    }
  }
}
