/**
 Which handshake records end the connection.  A fragment of a message already handed out,
 or of one too far ahead, is passed over; of genuine fragments only three kinds are refused:
 one whose message is too long, one that is not of the current message once the epoch is the
 encrypted one, and one exactly seven messages ahead.
 */
module Verdicts {
  import opened Wrappers
  import opened Words
  import opened Handshake
  import opened Delivery

  /** The fragment lies within its message, and the message is not too long. */
  predicate InBounds(p: Piece, maxLen: nat) {
    p.off + |p.bytes| <= p.msgLen <= maxLen
  }

  /** Already handed out, or more than seven messages ahead. */
  predicate OutOfReach(r: Receiver, p: Piece) {
    p.seqNum < r.readSeq || p.seqNum > r.readSeq + 7
  }

  /** Such a fragment, in a record before the encrypted epoch, is as if it were not there. */
  lemma PassedOver(r: Receiver, maxLen: nat, p: Piece, t: seq<byte>)
    requires |r.ring| == 7 && Fits(p) && InBounds(p, maxLen) && r.epoch != 1 && OutOfReach(r, p)
    ensures ArriveAll(r, maxLen, Serialize(p) + t) == ArriveAll(r, maxLen, t)
  {
    ParseSerialize(p, t);
  }

  /** The message being reassembled under the fragment's number is of another type or
      length. */
  predicate Disagrees(r: Receiver, p: Piece)
    requires |r.ring| == 7
  {
    var there := r.ring[p.seqNum % 7];
    there.Some? && (there.value.typ != p.typ || there.value.msgLen != p.msgLen)
  }

  predicate InWindow(r: Receiver, p: Piece) {
    r.readSeq <= p.seqNum < r.readSeq + 7
  }

  /** The fragments that end the connection; nothing in the record is stored from there on. */
  lemma Refused(r: Receiver, maxLen: nat, p: Piece, t: seq<byte>)
    requires |r.ring| == 7 && Fits(p)
    requires || !InBounds(p, maxLen)
             || (r.epoch == 1 && p.seqNum != r.readSeq)
             || p.seqNum == r.readSeq + 7
             || (InWindow(r, p) && Disagrees(r, p))
    ensures ArriveAll(r, maxLen, Serialize(p) + t) == (r, Rejected)
  {
    ParseSerialize(p, t);
  }

  /** A fragment that is cut short by the end of the record ends the connection, too. */
  lemma CutShort(r: Receiver, maxLen: nat, p: Piece, n: nat)
    requires |r.ring| == 7 && Fits(p) && 0 < n < |Serialize(p)|
    ensures ArriveAll(r, maxLen, Serialize(p)[..n]) == (r, Rejected)
  {
    var s := Serialize(p);
    ParseSerialize(p, []);
    assert s + [] == s;
    if n >= 12 {
      assert s[..n][9..12] == s[9..12];
    }
  }

  /** The bytes of a slot that is there, or none. */
  function BytesAt(r: Receiver, k: nat): map<nat, byte>
    requires |r.ring| == 7 && k < 7
  {
    if r.ring[k].Some? then r.ring[k].value.bytes else map[]
  }

  /** `has` is `had` with the fragment's bytes put in their place. */
  ghost predicate PutIn(had: map<nat, byte>, p: Piece, has: map<nat, byte>) {
    forall i: nat ::
      && (i in has <==> i in had || p.off <= i < p.off + |p.bytes|)
      && (i in has ==> has[i] == if p.off <= i < p.off + |p.bytes| then p.bytes[i - p.off] else had[i])
  }

  lemma CopyPutsIn(had: map<nat, byte>, p: Piece)
    ensures PutIn(had, p, Copy(had, p))
  {
  }

  /** `s` is `r` with the fragment's bytes put into its message, which is there from now on,
      unless that was complete already. */
  ghost predicate TookIn(r: Receiver, p: Piece, s: Receiver)
    requires |r.ring| == |s.ring| == 7
  {
    var k := p.seqNum % 7;
    && s == r.(ring := s.ring)
    && (forall i :: 0 <= i < 7 && i != k ==> s.ring[i] == r.ring[i])
    && s.ring[k].Some? && s.ring[k].value.typ == p.typ && s.ring[k].value.msgLen == p.msgLen
    && s.ring[k].value.seqNum == (if r.ring[k].Some? then r.ring[k].value.seqNum else p.seqNum)
    && var had, has := BytesAt(r, k), BytesAt(s, k);
       if r.ring[k].Some? && Complete(r.ring[k].value) then has == had else PutIn(had, p, has)
  }

  /** All other fragments of the window are taken in, and the rest of the record after them. */
  lemma Taken(r: Receiver, maxLen: nat, p: Piece, t: seq<byte>) returns (s: Receiver)
    requires |r.ring| == 7 && Fits(p) && InBounds(p, maxLen) && InWindow(r, p) && !Disagrees(r, p)
    requires r.epoch == 1 ==> p.seqNum == r.readSeq
    ensures |s.ring| == 7 && TookIn(r, p, s)
    ensures ArriveAll(r, maxLen, Serialize(p) + t) == ArriveAll(s, maxLen, t)
  {
    ParseSerialize(p, t);
    s := Arrive(r, maxLen, p).0;
    ArriveTakesIn(r, maxLen, p);
  }

  lemma ArriveTakesIn(r: Receiver, maxLen: nat, p: Piece)
    requires |r.ring| == 7 && InBounds(p, maxLen) && InWindow(r, p) && !Disagrees(r, p)
    requires r.epoch == 1 ==> p.seqNum == r.readSeq
    ensures TookIn(r, p, Arrive(r, maxLen, p).0) && Arrive(r, maxLen, p).1.Stored?
  {
    var k := p.seqNum % 7;
    assert Index(p.seqNum) == k;
    if r.ring[k].None? {
      assert !Complete(Slot(p.seqNum, p.typ, p.msgLen, map[])) || p.bytes == [];
    }
    CopyPutsIn(BytesAt(r, k), p);
  }

  /** What a receiver holds against a genuine fragment. */
  predicate Objects(r: Receiver, maxLen: nat, p: Piece) {
    p.msgLen > maxLen || (r.epoch == 1 && p.seqNum != r.readSeq) || p.seqNum == r.readSeq + 7
  }

  /** Among genuine fragments no other is refused, and whatever the verdict, neither the
      position nor the epoch moves. */
  lemma GenuineVerdict(msgs: seq<Message>, events: seq<Event>, maxLen: nat, p: Piece)
    requires AllGenuine(msgs, events) && |msgs| < 0x1_0000 && Genuine(msgs, p)
    ensures var r := Run(events);
            Arrive(r, maxLen, p).1.Rejected? <==> Objects(r, maxLen, p)
    ensures var r, r' := Run(events), Arrive(Run(events), maxLen, p).0;
            r'.readSeq == r.readSeq && r'.epoch == r.epoch
  {
    var r := Run(events);
    if Judge(r.readSeq, r.epoch, maxLen, p).Stored? {
      FaithfulRun(msgs, events);
      SlotBefore(msgs, events, p, maxLen);
    }
  }

  ghost predicate AllPieces(msgs: seq<Message>, ps: seq<Piece>) {
    forall i :: 0 <= i < |ps| ==> Genuine(msgs, ps[i])
  }

  ghost predicate SomeObjected(r: Receiver, maxLen: nat, ps: seq<Piece>) {
    exists i :: 0 <= i < |ps| && Objects(r, maxLen, ps[i])
  }

  lemma ObjectedFirst(r: Receiver, r': Receiver, maxLen: nat, ps: seq<Piece>)
    requires ps != [] && !Objects(r, maxLen, ps[0]) && r'.readSeq == r.readSeq && r'.epoch == r.epoch
    ensures SomeObjected(r, maxLen, ps) <==> SomeObjected(r', maxLen, ps[1..])
  {
    if SomeObjected(r, maxLen, ps) {
      var i :| 0 <= i < |ps| && Objects(r, maxLen, ps[i]);
      assert ps[1..][i - 1] == ps[i];
    }
  }

  lemma OneMoreGenuine(msgs: seq<Message>, events: seq<Event>, maxLen: nat, p: Piece)
    requires AllGenuine(msgs, events) && Genuine(msgs, p)
    ensures AllGenuine(msgs, events + [Deliver(p, maxLen)])
  {
  }

  /** A record of genuine fragments, old ones included, in any order and cut in any way, is
      refused exactly if it contains one that is. */
  lemma {:induction false} RecordVerdict(msgs: seq<Message>, events: seq<Event>, maxLen: nat, ps: seq<Piece>)
    requires AllGenuine(msgs, events) && |msgs| < 0x1_0000 && AllPieces(msgs, ps) && AllFit(ps)
    ensures ArriveAll(Run(events), maxLen, SerializeAll(ps)).1
         == if SomeObjected(Run(events), maxLen, ps) then Rejected else Stored
    decreases |ps|
  {
    if ps != [] {
      var r, next := Run(events), events + [Deliver(ps[0], maxLen)];
      FirstDelivers(events, maxLen, ps);
      GenuineVerdict(msgs, events, maxLen, ps[0]);
      if !Objects(r, maxLen, ps[0]) {
        OneMoreGenuine(msgs, events, maxLen, ps[0]);
        ObjectedFirst(r, Run(next), maxLen, ps);
        RecordVerdict(msgs, next, maxLen, ps[1..]);
      }
    }
  }

  // ---------- what is handed out has been looked at ----------

  /** Since the last message was handed out, there has been a look at a complete one. */
  ghost predicate LookedSince(events: seq<Event>) {
    exists j :: 0 <= j < |events| && events[j] == Look && Current(Run(events[..j])).Some?
                && Handed(events[..j]) == Handed(events)
  }

  lemma LookedOn(events: seq<Event>)
    requires events != [] && LookedSince(events[..|events| - 1])
    requires Handed(events) == Handed(events[..|events| - 1])
    ensures LookedSince(events)
  {
    var before := events[..|events| - 1];
    var j :| 0 <= j < |before| && before[j] == Look && Current(Run(before[..j])).Some?
             && Handed(before[..j]) == Handed(before);
    assert before[..j] == events[..j] && events[j] == Look;
  }

  lemma {:induction false} LookedIfNoted(events: seq<Event>)
    requires Run(events).hasMessage
    ensures LookedSince(events)
    decreases |events|
  {
    var before, e := events[..|events| - 1], events[|events| - 1];
    if Run(before).hasMessage {
      LookedIfNoted(before);
      LookedOn(events);
    } else {
      assert events[..|events| - 1] == before && e == Look;
      assert Handed(events) == Handed(before);
    }
  }

  /** No message is handed out before the handshake has looked at it. */
  lemma HandedWasLookedAt(events: seq<Event>)
    requires Handed(events + [Consume]) != Handed(events)
    ensures LookedSince(events)
  {
    assert (events + [Consume])[..|events|] == events;
    LookedIfNoted(events);
  }

  // ---------- what is left unprocessed ----------

  /** Something of message `n`, which has not been handed out, has arrived, and it is not the
      message just looked at. */
  ghost predicate Waiting(events: seq<Event>, n: nat) {
    var r := Run(events);
    n >= r.readSeq && Started(events, n) && !(r.hasMessage && n == r.readSeq)
  }

  lemma WaitingHasSlot(msgs: seq<Message>, events: seq<Event>, n: nat)
    requires Faithful(msgs, events) && Waiting(events, n)
    ensures n < Run(events).readSeq + 7 && Run(events).ring[n % 7].Some?
    ensures Run(events).hasMessage ==> n % 7 != Run(events).readSeq % 7
  {
    var r := Run(events);
    assert !Vacant(r, n);
    if Index(n) == Index(r.readSeq) {
      SameIndex(r.readSeq, n, r.readSeq);
    }
  }

  /** The read cipher may change exactly when no ChangeCipherSpec is pending and no part of
      any other message is waiting. */
  lemma UnprocessedExactly(msgs: seq<Message>, events: seq<Event>)
    requires AllGenuine(msgs, events) && |msgs| < 0x1_0000
    ensures Unprocessed(Run(events)) <==> Run(events).hasCcs || exists n: nat :: Waiting(events, n)
  {
    var r := Run(events);
    FaithfulRun(msgs, events);
    if n: nat :| Waiting(events, n) {
      WaitingHasSlot(msgs, events, n);
      assert r.ring[n % 7].Some?;
    }
    if i :| 0 <= i < 7 && r.ring[i].Some? && !(r.hasMessage && i == Index(r.readSeq)) {
      assert SlotTrue(msgs, events, r.ring[i].value);
      assert Waiting(events, r.ring[i].value.seqNum);
    }
  }
}
