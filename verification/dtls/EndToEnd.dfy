/**
 Both sides together, as they run: a receiver that gets nothing but records the sender
 wrote, in any order and any number of times, hands out what was sent; and one pass over a
 flight is enough for every message of it, and for the whole flight.
 */
module EndToEnd {
  import opened Wrappers
  import opened Reassembly
  import opened Handshake
  import opened Delivery
  import opened Incoming
  import opened Outgoing
  import opened Sending
  import opened Verdicts

  /** Every fragment that arrives was sent; it may arrive late, repeatedly or never. */
  ghost predicate FromSender(sent: seq<Sent>, events: seq<Event>) {
    forall i :: 0 <= i < |events| && events[i].Deliver? ==>
      exists s :: s in sent && s.SentPiece? && s.p == events[i].p
  }

  lemma SentIsGenuine(f: Flight, events: seq<Event>)
    requires f.Valid() && |f.history| < 0x1_0000 && FromSender(f.everSent, events)
    ensures AllGenuine(f.history, events)
  {
  }

  /** A running sender and a running receiver that gets nothing but its records: what was
      handed out is exactly the first of the messages added to the sender's flights,
      whatever was resealed for another MTU, retransmitted, reordered, repeated or dropped. */
  lemma PrefixDelivered(f: Flight, q: Queue)
    requires f.Valid() && q.Valid() && |f.history| < 0x1_0000 && FromSender(f.everSent, q.events)
    ensures q.readSeq <= |f.history|
    ensures Handed(q.events) == f.history[..q.readSeq]
  {
    SentIsGenuine(f, q.events);
    HandedIsPrefix(f.history, q.events);
  }

  ghost predicate Carries(sent: seq<Sent>, ps: seq<Piece>) {
    forall i :: 0 <= i < |ps| ==> exists s :: s in sent && s.SentPiece? && s.p == ps[i]
  }

  /** A record with any fragments the sender ever wrote, however late it comes, is refused
      exactly if a fragment in it belongs to a message that is too long, that is not the
      current one in the encrypted epoch, or that is exactly seven ahead. */
  lemma RecordTaken(f: Flight, q: Queue, maxLen: nat, ps: seq<Piece>)
    requires f.Valid() && q.Valid() && |f.history| < 0x1_0000 && FromSender(f.everSent, q.events)
    requires Carries(f.everSent, ps) && AllFit(ps)
    ensures ArriveAll(q.View(), maxLen, SerializeAll(ps)).1
         == if SomeObjected(q.View(), maxLen, ps) then Rejected else Stored
  {
    SentIsGenuine(f, q.events);
    SentIsGenuine(f, Deliveries(ps, maxLen));
    forall i | 0 <= i < |ps|
      ensures Genuine(f.history, ps[i])
    {
      assert Deliveries(ps, maxLen)[i].p == ps[i];
    }
    RecordVerdict(f.history, q.events, maxLen, ps);
  }

  /** Fragment `p` arrived while its message was in the window. */
  ghost predicate Received(events: seq<Event>, p: Piece) {
    exists j :: 0 < j <= |events| && events[j - 1].Deliver? && events[j - 1].p == p && Brings(events[..j], p.seqNum)
  }

  lemma {:induction false} ArrivedGrows(events: seq<Event>, j: nat, n: nat)
    requires j <= |events|
    ensures Arrived(events[..j], n) <= Arrived(events, n)
    ensures Started(events[..j], n) ==> Started(events, n)
    decreases |events|
  {
    if j == |events| {
      assert events[..j] == events;
    } else {
      ArrivedGrows(events[..|events| - 1], j, n);
      assert events[..|events| - 1][..j] == events[..j];
    }
  }

  lemma ReceivedArrives(events: seq<Event>, p: Piece)
    requires Received(events, p)
    ensures Range(p.off, p.off + |p.bytes|) <= Arrived(events, p.seqNum)
    ensures Started(events, p.seqNum)
  {
    var j :| 0 < j <= |events| && events[j - 1].Deliver? && events[j - 1].p == p && Brings(events[..j], p.seqNum);
    ArrivedGrows(events, j, p.seqNum);
  }

  lemma {:induction false} ArrivedWithin(history: seq<Message>, events: seq<Event>, n: nat)
    requires AllGenuine(history, events) && n < |history|
    ensures Arrived(events, n) <= Range(0, |history[n].body|)
    decreases |events|
  {
    if events != [] {
      ArrivedWithin(history, events[..|events| - 1], n);
    }
  }

  /** Message `i` is behind the sender's position and nothing was lost.  Once each record
      of the pass that carries part of it has been received, in any order and among any
      others, all of the message has arrived. */
  lemma MessageArrives(f: Flight, i: nat, events: seq<Event>)
    requires f.Valid() && |f.history| < 0x1_0000 && FromSender(f.everSent, events)
    requires !f.lost && i < f.written && f.messages[i].MessageItem?
    requires forall k :: 0 <= k < |f.pass| && IsPieceOf(f.pass[k], f.messages[i].seqNum) ==>
               Received(events, f.pass[k].p)
    ensures var item := f.messages[i];
            Started(events, item.seqNum) && Arrived(events, item.seqNum) == Range(0, |item.body|)
  {
    var items, pass := f.messages, f.pass;
    var n := items[i].seqNum;
    assert Recorded(f.history, items[i]);
    forall b: nat | b < |items[i].body|
      ensures b in Arrived(events, n)
    {
      Partition(items, pass, i, b);
      var k := Carrier(pass, n, b);
      ReceivedArrives(events, pass[k].p);
    }
    SentIsGenuine(f, events);
    ArrivedWithin(f.history, events, n);
    assert Arrived(events, n) == Range(0, |items[i].body|);
    var k := Announced(items, pass, i);
    ReceivedArrives(events, pass[k].p);
  }

  /** When it is its turn, such a message is what the receiver gets next. */
  lemma FlightArrives(f: Flight, i: nat, q: Queue)
    requires f.Valid() && q.Valid() && |f.history| < 0x1_0000 && FromSender(f.everSent, q.events)
    requires !f.lost && i < f.written && f.messages[i].MessageItem?
    requires forall k :: 0 <= k < |f.pass| && IsPieceOf(f.pass[k], f.messages[i].seqNum) ==>
               Received(q.events, f.pass[k].p)
    ensures var item := f.messages[i];
            && Arrived(q.events, item.seqNum) == Range(0, |item.body|)
            && (q.readSeq == item.seqNum ==> Current(q.View()) == Some(Message(item.typ, item.body)))
  {
    MessageArrives(f, i, q.events);
    if q.readSeq == f.messages[i].seqNum {
      SentIsGenuine(f, q.events);
      assert Recorded(f.history, f.messages[i]);
      CurrentIffArrived(f.history, q.events);
    }
  }

  // ---------- a whole flight ----------

  /** The receiver never goes back. */
  lemma {:induction false} ReadSeqGrows(history: seq<Message>, events: seq<Event>, j: nat)
    requires AllGenuine(history, events) && |history| < 0x1_0000 && j <= |events|
    ensures Run(events[..j]).readSeq <= Run(events).readSeq
    decreases |events|
  {
    if j == |events| {
      assert events[..j] == events;
    } else {
      var before, e := events[..|events| - 1], events[|events| - 1];
      assert before[..j] == events[..j];
      ReadSeqGrows(history, before, j);
      StepGrows(history, before, e);
    }
  }

  lemma StepGrows(history: seq<Message>, before: seq<Event>, e: Event)
    requires AllGenuine(history, before) && |history| < 0x1_0000
    ensures Run(before).readSeq <= Step(Run(before), e).readSeq
  {
    if e.Consume? && Drops(Run(before)) {
      FaithfulRun(history, before);
      CurrentTrue(history, before);
    }
  }

  /** From event `start` on, fragment `p` arrives where it is not refused: messages of its
      length are accepted and, if the epoch is the encrypted one, it is its turn. */
  ghost predicate Offered(events: seq<Event>, start: nat, p: Piece) {
    exists j :: start <= j < |events| && Admits(events, j, p)
  }

  ghost predicate Admits(events: seq<Event>, j: nat, p: Piece)
    requires j < |events|
  {
    && events[j].Deliver? && events[j].p == p && p.msgLen <= events[j].maxLen
    && (Run(events[..j]).epoch == 1 ==> p.seqNum == Run(events[..j]).readSeq)
  }

  /** A fragment of a message less than seven ahead is received, unless the message has
      been handed out already. */
  lemma OfferedIsReceived(history: seq<Message>, events: seq<Event>, start: nat, p: Piece)
    requires AllGenuine(history, events) && |history| < 0x1_0000 && start <= |events|
    requires |history| <= Run(events[..start]).readSeq + MAX_FLIGHT
    requires Genuine(history, p) && Offered(events, start, p)
    ensures p.seqNum < Run(events).readSeq || Received(events, p)
  {
    var j :| start <= j < |events| && Admits(events, j, p);
    PrefixGrows(history, events, start, j);
    ReadSeqGrows(history, events, j);
    if p.seqNum >= Run(events[..j]).readSeq {
      AdmittedIsReceived(history, events, j, p);
    }
  }

  lemma PrefixGrows(history: seq<Message>, events: seq<Event>, i: nat, j: nat)
    requires AllGenuine(history, events) && |history| < 0x1_0000 && i <= j <= |events|
    ensures Run(events[..i]).readSeq <= Run(events[..j]).readSeq
  {
    assert events[..j][..i] == events[..i];
    ReadSeqGrows(history, events[..j], i);
  }

  lemma AdmittedIsReceived(history: seq<Message>, events: seq<Event>, j: nat, p: Piece)
    requires j < |events| && Admits(events, j, p) && Genuine(history, p)
    requires Run(events[..j]).readSeq <= p.seqNum < Run(events[..j]).readSeq + MAX_FLIGHT
    ensures Received(events, p)
  {
    assert events[..j + 1][..j] == events[..j];
    assert Brings(events[..j + 1], p.seqNum);
    assert events[j + 1 - 1].p == p;
  }

  /** A flight whose every fragment is offered to a receiver that has reached its first
      message: whatever was not yet handed out is complete. */
  lemma FlightComplete(f: Flight, events: seq<Event>, start: nat, n: nat)
    requires f.Valid() && |f.history| < 0x1_0000 && FromSender(f.everSent, events)
    requires !f.lost && f.written == |f.messages|
    requires start <= |events| && First(f.history, f.messages) <= Run(events[..start]).readSeq
    requires forall k :: 0 <= k < |f.pass| && f.pass[k].SentPiece? ==> Offered(events, start, f.pass[k].p)
    requires Run(events).readSeq <= n < |f.history|
    ensures Started(events, n) && Arrived(events, n) == Range(0, |f.history[n].body|)
  {
    var history, items, pass := f.history, f.messages, f.pass;
    SentIsGenuine(f, events);
    ReadSeqGrows(history, events, start);
    assert InFlight(items, n);
    var i :| 0 <= i < |items| && items[i].MessageItem? && items[i].seqNum == n;
    assert Recorded(history, items[i]);
    FollowHonest(history, items, ORIGIN, pass);
    forall k | 0 <= k < |pass| && IsPieceOf(pass[k], n)
      ensures Received(events, pass[k].p)
    {
      assert Honest(history, pass[k]);
      OfferedIsReceived(history, events, start, pass[k].p);
    }
    MessageArrives(f, i, events);
  }

  /** One pass over the flight has gone to the receiver: it had reached the flight's first
      message when event `start` came, and from then on each fragment of the pass was
      offered to it at least once, in any order and among any others. */
  ghost predicate PassOffered(f: Flight, events: seq<Event>, start: nat)
    reads f
  {
    && f.Valid() && |f.history| < 0x1_0000 && FromSender(f.everSent, events)
    && !f.lost && f.written == |f.messages|
    && start <= |events| && First(f.history, f.messages) <= Run(events[..start]).readSeq
    && forall k :: 0 <= k < |f.pass| && f.pass[k].SentPiece? ==> Offered(events, start, f.pass[k].p)
  }

  lemma NextThere(f: Flight, events: seq<Event>, start: nat)
    requires PassOffered(f, events, start) && Run(events).readSeq < |f.history|
    ensures Current(Run(events)) == Some(f.history[Run(events).readSeq])
  {
    SentIsGenuine(f, events);
    FlightComplete(f, events, start, Run(events).readSeq);
    CurrentIffArrived(f.history, events);
  }

  /** One pass over a flight is enough: as long as the receiver has not handed out all that
      was ever sent, the next message is there for it to get. */
  lemma WholeFlight(f: Flight, q: Queue, start: nat)
    requires q.Valid() && PassOffered(f, q.events, start)
    ensures q.readSeq <= |f.history| && Handed(q.events) == f.history[..q.readSeq]
    ensures q.readSeq < |f.history| ==> Current(q.View()) == Some(f.history[q.readSeq])
  {
    PrefixDelivered(f, q);
    if q.readSeq < |f.history| {
      NextThere(f, q.events, start);
    }
  }

  lemma OfferedOn(events: seq<Event>, e: Event, start: nat, p: Piece)
    requires Offered(events, start, p)
    ensures Offered(events + [e], start, p)
  {
    var j :| start <= j < |events| && Admits(events, j, p);
    assert (events + [e])[..j] == events[..j];
    assert Admits(events + [e], j, p);
  }

  /** That stays so, whatever the receiver does and whatever else reaches it. */
  lemma PassOfferedOn(f: Flight, events: seq<Event>, e: Event, start: nat)
    requires PassOffered(f, events, start) && FromSender(f.everSent, events + [e])
    ensures PassOffered(f, events + [e], start)
  {
    assert (events + [e])[..start] == events[..start];
    forall k | 0 <= k < |f.pass| && f.pass[k].SentPiece?
      ensures Offered(events + [e], start, f.pass[k].p)
    {
      OfferedOn(events, e, start, f.pass[k].p);
    }
  }
}
