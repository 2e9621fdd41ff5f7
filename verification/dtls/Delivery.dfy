/**
 Runs of the receiving side against a network that delays, reorders, duplicates and
 drops fragments, and against a sender that may cut a message differently each time it
 retransmits it.  Whatever happens, the messages handed out are exactly the first ones
 sent, and the next one is available exactly when all of its bytes have arrived.
 */
module Delivery {
  import opened Wrappers
  import opened Words
  import opened Reassembly
  import opened Handshake

  /** `Deliver`: a fragment arrives while messages of up to `maxLen` bytes are accepted.
      `Ccs`, `TakeCcs`: a ChangeCipherSpec arrives and is processed.  `Look`, `Consume`:
      the handshake looks at the current message, and drops it.  `NewEpoch`: the read
      cipher changes, which unprocessed data forbids. */
  datatype Event = Deliver(p: Piece, maxLen: nat) | Ccs | TakeCcs | Look | Consume | NewEpoch

  const START: Receiver := Receiver(0, [None, None, None, None, None, None, None], 0, false, false)

  function Step(r: Receiver, e: Event): (r': Receiver)
    requires |r.ring| == MAX_FLIGHT
    ensures |r'.ring| == MAX_FLIGHT
  {
    match e
    case Deliver(p, maxLen) => Arrive(r, maxLen, p).0
    case Ccs => r.(hasCcs := true)
    case TakeCcs => r.(hasCcs := false)
    case Look => if Current(r).Some? then r.(hasMessage := true) else r
    case Consume => if Drops(r) then Next(r) else r
    case NewEpoch => if Unprocessed(r) then r else r.(epoch := (r.epoch + 1) % 0x1_0000)
  }

  /** The assertions of `dtls1_next_message`. */
  predicate Drops(r: Receiver)
    requires |r.ring| == MAX_FLIGHT
  {
    r.hasMessage && Current(r).Some?
  }

  function Run(events: seq<Event>): (r: Receiver)
    ensures |r.ring| == MAX_FLIGHT
  {
    if events == [] then START else Step(Run(events[..|events| - 1]), events[|events| - 1])
  }

  lemma RunOne(events: seq<Event>, e: Event)
    ensures Run(events + [e]) == Step(Run(events), e)
  {
    assert (events + [e])[..|events|] == events;
  }

  /** The messages handed out, in order. */
  function Handed(events: seq<Event>): seq<Message> {
    if events == [] then []
    else
      var before := events[..|events| - 1];
      if events[|events| - 1].Consume? && Drops(Run(before))
      then Handed(before) + [Current(Run(before)).value]
      else Handed(before)
  }

  /** Whether the last event brings a fragment of message `n` while it is in the window. */
  predicate Brings(events: seq<Event>, n: nat)
    requires events != []
  {
    var r, e := Run(events[..|events| - 1]), events[|events| - 1];
    e.Deliver? && e.p.seqNum == n && Judge(r.readSeq, r.epoch, e.maxLen, e.p).Stored?
  }

  /** Some fragment of message `n` has arrived in its window. */
  predicate Started(events: seq<Event>, n: nat) {
    events != [] && (Brings(events, n) || Started(events[..|events| - 1], n))
  }

  /** The bytes of message `n` that have arrived in its window. */
  function Arrived(events: seq<Event>, n: nat): set<nat> {
    if events == [] then {}
    else
      var e := events[|events| - 1];
      Arrived(events[..|events| - 1], n)
      + if Brings(events, n) then Range(e.p.off, e.p.off + |e.p.bytes|) else {}
  }

  // ---------- records of several fragments ----------

  ghost predicate AllFit(ps: seq<Piece>) {
    forall i :: 0 <= i < |ps| ==> Fits(ps[i])
  }

  ghost function SerializeAll(ps: seq<Piece>): seq<byte>
    requires AllFit(ps)
  {
    if ps == [] then [] else Serialize(ps[0]) + SerializeAll(ps[1..])
  }

  function Deliveries(ps: seq<Piece>, maxLen: nat): (es: seq<Event>)
    ensures |es| == |ps| && forall i :: 0 <= i < |ps| ==> es[i] == Deliver(ps[i], maxLen)
  {
    seq(|ps|, i requires 0 <= i < |ps| => Deliver(ps[i], maxLen))
  }

  lemma OneMore(events: seq<Event>, maxLen: nat, ps: seq<Piece>, n: nat)
    requires n < |ps|
    ensures events + Deliveries(ps[..n + 1], maxLen)
         == events + [Deliver(ps[0], maxLen)] + Deliveries(ps[1..][..n], maxLen)
  {
  }

  /** The first fragment of a record, and the rest. */
  lemma FirstDelivers(events: seq<Event>, maxLen: nat, ps: seq<Piece>)
    requires AllFit(ps) && ps != []
    ensures var (r, v) := Arrive(Run(events), maxLen, ps[0]);
            && r == Run(events + [Deliver(ps[0], maxLen)])
            && ArriveAll(Run(events), maxLen, SerializeAll(ps))
            == if v.Rejected? then (r, Rejected) else ArriveAll(r, maxLen, SerializeAll(ps[1..]))
  {
    ParseSerialize(ps[0], SerializeAll(ps[1..]));
    assert (events + [Deliver(ps[0], maxLen)])[..|events|] == events;
  }

  /** The record has had the effect of its first `k` fragments, delivered one by one. */
  ghost predicate HadEffect(events: seq<Event>, maxLen: nat, ps: seq<Piece>, k: nat)
    requires AllFit(ps) && k <= |ps|
  {
    var (r, v) := ArriveAll(Run(events), maxLen, SerializeAll(ps));
    r == Run(events + Deliveries(ps[..k], maxLen)) && (v.Rejected? || (v.Stored? && k == |ps|))
  }

  lemma NoneDelivered(events: seq<Event>, maxLen: nat)
    ensures HadEffect(events, maxLen, [], 0)
  {
    assert events + Deliveries([], maxLen) == events;
  }

  lemma FirstRejected(events: seq<Event>, maxLen: nat, ps: seq<Piece>)
    requires AllFit(ps) && ps != [] && Arrive(Run(events), maxLen, ps[0]).1.Rejected?
    ensures HadEffect(events, maxLen, ps, 1)
  {
    FirstDelivers(events, maxLen, ps);
    assert Deliveries(ps[..1], maxLen) == [Deliver(ps[0], maxLen)];
  }

  lemma FirstTaken(events: seq<Event>, maxLen: nat, ps: seq<Piece>, n: nat)
    requires AllFit(ps) && ps != [] && !Arrive(Run(events), maxLen, ps[0]).1.Rejected? && n < |ps|
    requires HadEffect(events + [Deliver(ps[0], maxLen)], maxLen, ps[1..], n)
    ensures HadEffect(events, maxLen, ps, n + 1)
  {
    FirstDelivers(events, maxLen, ps);
    OneMore(events, maxLen, ps, n);
  }

  /** A record of several fragments has the effect of those fragments one by one, up to
      and including the first that is rejected, the `k`th. */
  lemma {:induction false} RecordDelivers(events: seq<Event>, maxLen: nat, ps: seq<Piece>) returns (k: nat)
    requires AllFit(ps)
    ensures k <= |ps| && HadEffect(events, maxLen, ps, k)
    decreases |ps|
  {
    if ps == [] {
      k := 0;
      NoneDelivered(events, maxLen);
    } else if Arrive(Run(events), maxLen, ps[0]).1.Rejected? {
      k := 1;
      FirstRejected(events, maxLen, ps);
    } else {
      var n := RecordDelivers(events + [Deliver(ps[0], maxLen)], maxLen, ps[1..]);
      k := n + 1;
      FirstTaken(events, maxLen, ps, n);
    }
  }

  // ---------- the ring, for any fragments at all ----------

  /** Handshake sequence numbers have 16 bits on the wire. */
  ghost predicate Sized(events: seq<Event>) {
    forall i :: 0 <= i < |events| && events[i].Deliver? ==> events[i].p.seqNum < 0x1_0000
  }

  /** Every occupied slot holds a message of the window, at its own index, and a message
      that has been looked at is still there and complete. */
  ghost predicate WindowOk(r: Receiver)
    requires |r.ring| == MAX_FLIGHT
  {
    && r.readSeq < 0x1_0000
    && (forall i :: 0 <= i < MAX_FLIGHT && r.ring[i].Some? ==>
          && Index(r.ring[i].value.seqNum) == i
          && r.readSeq <= r.ring[i].value.seqNum < r.readSeq + MAX_FLIGHT
          && r.ring[i].value.seqNum < 0x1_0000)
    && (r.hasMessage ==> Current(r).Some?)
  }

  /** Two messages of the window with one index are the same. */
  lemma SameIndex(readSeq: nat, n: nat, k: nat)
    requires readSeq <= n < readSeq + MAX_FLIGHT && readSeq <= k < readSeq + MAX_FLIGHT
    requires Index(n) == Index(k)
    ensures n == k
  {
  }

  lemma WindowStep(r: Receiver, e: Event)
    requires |r.ring| == MAX_FLIGHT && WindowOk(r)
    requires e.Deliver? ==> e.p.seqNum < 0x1_0000
    ensures WindowOk(Step(r, e))
  {
    if e.Consume? && Drops(r) {
      WindowNext(r);
    }
  }

  lemma WindowNext(r: Receiver)
    requires |r.ring| == MAX_FLIGHT && WindowOk(r)
    ensures WindowOk(Next(r))
  {
    forall i | 0 <= i < MAX_FLIGHT && Next(r).ring[i].Some?
      ensures r.ring[i].value.seqNum > r.readSeq
    {
      assert Index(r.ring[i].value.seqNum) == i;
    }
    if r.readSeq + 1 < 0x1_0000 {
      SmallMod(r.readSeq + 1, 0x1_0000);
    }
  }

  /** The ring invariant holds on every run, even when the sequence number wraps. */
  lemma {:induction false} RingInvariant(events: seq<Event>)
    requires Sized(events)
    ensures WindowOk(Run(events))
  {
    if events != [] {
      RingInvariant(events[..|events| - 1]);
      WindowStep(Run(events[..|events| - 1]), events[|events| - 1]);
    }
  }

  /** The source's assertion `frag->seq == msg_hdr->seq`. */
  lemma OccupantIsSame(events: seq<Event>, maxLen: nat, p: Piece)
    requires Sized(events)
    requires Judge(Run(events).readSeq, Run(events).epoch, maxLen, p).Stored?
    requires Run(events).ring[Index(p.seqNum)].Some?
    ensures Run(events).ring[Index(p.seqNum)].value.seqNum == p.seqNum
  {
    RingInvariant(events);
    SameIndex(Run(events).readSeq, Run(events).ring[Index(p.seqNum)].value.seqNum, p.seqNum);
  }

  /** The fragment overwrites byte `k` of a message that is still incomplete. */
  predicate Overwrites(slot: Slot, e: Event, k: nat) {
    e.Deliver? && e.p.seqNum == slot.seqNum && !Complete(slot) && e.p.off <= k < e.p.off + |e.p.bytes|
  }

  /** After `e`, `next` still holds `slot`'s message and every position it had.  A byte is
      the one that was there, unless the message is incomplete and the fragment that
      arrives covers the byte again. */
  predicate Keeps(slot: Slot, e: Event, next: Option<Slot>) {
    && next.Some?
    && next.value.seqNum == slot.seqNum && next.value.typ == slot.typ && next.value.msgLen == slot.msgLen
    && (forall k :: k in slot.bytes ==>
          && k in next.value.bytes
          && (next.value.bytes[k] == slot.bytes[k]
              || (Overwrites(slot, e, k) && next.value.bytes[k] == e.p.bytes[k - e.p.off])))
    && (Complete(slot) ==> next.value == slot)
  }

  lemma ArriveKeeps(r: Receiver, maxLen: nat, p: Piece)
    requires |r.ring| == MAX_FLIGHT && Judge(r.readSeq, r.epoch, maxLen, p).Stored?
    requires r.ring[Index(p.seqNum)].Some? && r.ring[Index(p.seqNum)].value.seqNum == p.seqNum
    ensures Keeps(r.ring[Index(p.seqNum)].value, Deliver(p, maxLen), Arrive(r, maxLen, p).0.ring[Index(p.seqNum)])
  {
  }

  /** A message in the ring is never replaced before it is handed out, and a complete one
      never changes. */
  lemma NeverReplaced(events: seq<Event>, e: Event, i: nat)
    requires Sized(events) && i < MAX_FLIGHT && Run(events).ring[i].Some?
    ensures var slot, next := Run(events).ring[i].value, Run(events + [e]).ring[i];
            Keeps(slot, e, next) || (e.Consume? && i == Index(Run(events).readSeq) && Complete(slot) && next.None?)
  {
    var r := Run(events);
    assert (events + [e])[..|events|] == events;
    if e.Deliver? && Judge(r.readSeq, r.epoch, e.maxLen, e.p).Stored? && i == Index(e.p.seqNum) {
      OccupantIsSame(events, e.maxLen, e.p);
      ArriveKeeps(r, e.maxLen, e.p);
    }
  }

  /** Overlapping fragments need not agree: of a message still incomplete, the byte that
      arrives last stays. */
  lemma LastByteWins(a: byte, b: byte)
    ensures var events := [Deliver(Piece(1, 2, 0, 0, [a]), 2), Deliver(Piece(1, 2, 0, 0, [b]), 2)];
            Run(events).ring[0] == Some(Slot(0, 1, 2, map[0 := b]))
  {
    var first, second := Deliver(Piece(1, 2, 0, 0, [a]), 2), Deliver(Piece(1, 2, 0, 0, [b]), 2);
    assert [first, second][..1] == [first];
    assert Run([first]) == Step(START, first);
    assert Copy(map[], first.p) == map[0 := a];
    var slot := Slot(0, 1, 2, map[0 := a]);
    assert Run([first]).ring[0] == Some(slot);
    assert 1 !in slot.bytes && 1 in Range(0, 2);
    assert Copy(slot.bytes, second.p) == map[0 := b];
  }

  // ---------- what honest fragments lead to ----------

  /** The fragment is a true piece of a message that was sent. */
  predicate Genuine(msgs: seq<Message>, p: Piece) {
    && p.seqNum < |msgs|
    && p.typ == msgs[p.seqNum].typ
    && p.msgLen == |msgs[p.seqNum].body|
    && p.off + |p.bytes| <= p.msgLen
    && p.bytes == msgs[p.seqNum].body[p.off..p.off + |p.bytes|]
  }

  ghost predicate AllGenuine(msgs: seq<Message>, events: seq<Event>) {
    forall i :: 0 <= i < |events| && events[i].Deliver? ==> Genuine(msgs, events[i].p)
  }

  /** The slot holds what has arrived of its message, and that is what was sent. */
  ghost predicate SlotTrue(msgs: seq<Message>, events: seq<Event>, slot: Slot) {
    && slot.seqNum < |msgs|
    && slot.typ == msgs[slot.seqNum].typ
    && slot.msgLen == |msgs[slot.seqNum].body|
    && slot.bytes.Keys <= Range(0, slot.msgLen)
    && (forall i :: i in slot.bytes ==> slot.bytes[i] == msgs[slot.seqNum].body[i])
    && slot.bytes.Keys == Arrived(events, slot.seqNum)
    && Started(events, slot.seqNum)
  }

  /** A message not yet handed out that has no slot. */
  ghost predicate Vacant(r: Receiver, n: nat)
    requires |r.ring| == MAX_FLIGHT
  {
    n >= r.readSeq && (n < r.readSeq + MAX_FLIGHT ==> r.ring[Index(n)].None?)
  }

  ghost predicate SlotsTrue(msgs: seq<Message>, events: seq<Event>, r: Receiver)
    requires |r.ring| == MAX_FLIGHT
  {
    forall i :: 0 <= i < MAX_FLIGHT && r.ring[i].Some? ==> SlotTrue(msgs, events, r.ring[i].value)
  }

  /** Of a message without a slot nothing has arrived. */
  ghost predicate Untouched(events: seq<Event>, r: Receiver)
    requires |r.ring| == MAX_FLIGHT
  {
    forall n: nat {:trigger Started(events, n)} :: Vacant(r, n) ==> !Started(events, n) && Arrived(events, n) == {}
  }

  ghost predicate Faithful(msgs: seq<Message>, events: seq<Event>) {
    var r := Run(events);
    && WindowOk(r)
    && r.readSeq <= |msgs| < 0x1_0000
    && Sized(events)
    && Handed(events) == msgs[..r.readSeq]
    && SlotsTrue(msgs, events, r)
    && Untouched(events, r)
  }

  /** An event that brings nothing of message `n` changes nothing about it. */
  lemma NotBrought(before: seq<Event>, e: Event, n: nat)
    requires !Brings(before + [e], n)
    ensures Started(before + [e], n) == Started(before, n)
    ensures Arrived(before + [e], n) == Arrived(before, n)
  {
    assert (before + [e])[..|before|] == before;
  }

  ghost predicate BringsNothing(before: seq<Event>, e: Event) {
    forall n :: !Brings(before + [e], n)
  }

  /** Then a slot that stays is still true. */
  lemma SlotsStay(msgs: seq<Message>, before: seq<Event>, e: Event, r: Receiver, r': Receiver)
    requires |r.ring| == |r'.ring| == MAX_FLIGHT && SlotsTrue(msgs, before, r) && BringsNothing(before, e)
    requires forall i :: 0 <= i < MAX_FLIGHT && r'.ring[i].Some? ==> r'.ring[i] == r.ring[i]
    ensures SlotsTrue(msgs, before + [e], r')
  {
    forall i | 0 <= i < MAX_FLIGHT && r'.ring[i].Some?
      ensures SlotTrue(msgs, before + [e], r'.ring[i].value)
    {
      assert SlotTrue(msgs, before, r.ring[i].value);
      NotBrought(before, e, r.ring[i].value.seqNum);
    }
  }

  /** Then a message without a slot, which had none before, is still untouched. */
  lemma VacantStay(before: seq<Event>, e: Event, r: Receiver, r': Receiver)
    requires |r.ring| == |r'.ring| == MAX_FLIGHT && Untouched(before, r) && BringsNothing(before, e)
    requires forall n: nat :: Vacant(r', n) ==> Vacant(r, n)
    ensures Untouched(before + [e], r')
  {
    forall n: nat | Vacant(r', n)
      ensures !Started(before + [e], n) && Arrived(before + [e], n) == {}
    {
      NotBrought(before, e, n);
      assert Vacant(r, n) && !Started(before, n);
    }
  }

  /** The current message, once it is complete, is the one that was sent. */
  lemma CurrentTrue(msgs: seq<Message>, events: seq<Event>)
    requires Faithful(msgs, events) && Current(Run(events)).Some?
    ensures Run(events).readSeq < |msgs| && Current(Run(events)).value == msgs[Run(events).readSeq]
  {
    var r := Run(events);
    var slot := r.ring[Index(r.readSeq)].value;
    SameIndex(r.readSeq, slot.seqNum, r.readSeq);
    assert Current(r).value.body == msgs[r.readSeq].body;
  }

  /** Dropping the current message makes no other one vacant. */
  lemma NextVacant(r: Receiver, n: nat)
    requires |r.ring| == MAX_FLIGHT && WindowOk(r) && Drops(r) && r.readSeq + 1 < 0x1_0000 && Vacant(Next(r), n)
    ensures Vacant(r, n)
  {
    if n < r.readSeq + MAX_FLIGHT && Index(n) == Index(r.readSeq) {
      SameIndex(r.readSeq, n, r.readSeq);
    }
  }

  lemma DropUntouched(before: seq<Event>, r: Receiver)
    requires |r.ring| == MAX_FLIGHT && WindowOk(r) && Drops(r) && r.readSeq + 1 < 0x1_0000
    requires Untouched(before, r) && BringsNothing(before, Consume)
    ensures Untouched(before + [Consume], Next(r))
  {
    forall n: nat | Vacant(Next(r), n)
      ensures Vacant(r, n)
    {
      NextVacant(r, n);
    }
    VacantStay(before, Consume, r, Next(r));
  }

  lemma DropRun(before: seq<Event>)
    requires Drops(Run(before))
    ensures Run(before + [Consume]) == Next(Run(before))
    ensures forall n :: !Brings(before + [Consume], n)
  {
    assert (before + [Consume])[..|before|] == before;
  }

  lemma DropHands(msgs: seq<Message>, before: seq<Event>)
    requires Faithful(msgs, before) && Drops(Run(before))
    ensures Next(Run(before)).readSeq == Run(before).readSeq + 1 <= |msgs|
    ensures Handed(before + [Consume]) == msgs[..Next(Run(before)).readSeq]
  {
    assert (before + [Consume])[..|before|] == before;
    CurrentTrue(msgs, before);
    SmallMod(Run(before).readSeq + 1, 0x1_0000);
  }

  lemma DropStep(msgs: seq<Message>, before: seq<Event>)
    requires Faithful(msgs, before) && Drops(Run(before))
    ensures Faithful(msgs, before + [Consume])
  {
    var r := Run(before);
    DropRun(before);
    DropHands(msgs, before);
    WindowStep(r, Consume);
    SlotsStay(msgs, before, Consume, r, Next(r));
    DropUntouched(before, r);
  }

  /** Events that leave the ring alone. */
  lemma QuietStep(msgs: seq<Message>, before: seq<Event>, e: Event)
    requires Faithful(msgs, before) && !e.Deliver? && (e.Consume? ==> !Drops(Run(before)))
    ensures Faithful(msgs, before + [e])
  {
    var r := Run(before);
    assert (before + [e])[..|before|] == before;
    WindowStep(r, e);
    SlotsStay(msgs, before, e, r, Step(r, e));
    VacantStay(before, e, r, Step(r, e));
  }

  /** The slot a genuine fragment is about to land in holds what has arrived before. */
  lemma SlotBefore(msgs: seq<Message>, before: seq<Event>, p: Piece, maxLen: nat)
    requires Faithful(msgs, before) && Genuine(msgs, p)
    requires Judge(Run(before).readSeq, Run(before).epoch, maxLen, p).Stored?
    ensures var slot := SlotFor(Run(before), p);
            && slot.Some? && slot.value.seqNum == p.seqNum
            && slot.value.typ == p.typ && slot.value.msgLen == p.msgLen
            && slot.value.bytes.Keys <= Range(0, p.msgLen)
            && (forall i :: i in slot.value.bytes ==> slot.value.bytes[i] == msgs[p.seqNum].body[i])
            && slot.value.bytes.Keys == Arrived(before, p.seqNum)
  {
    var r := Run(before);
    if r.ring[Index(p.seqNum)].Some? {
      OccupantIsSame(before, maxLen, p);
      assert SlotTrue(msgs, before, r.ring[Index(p.seqNum)].value);
    } else {
      assert Vacant(r, p.seqNum);
      assert !Started(before, p.seqNum);
    }
  }

  /** What a stored fragment adds to what has arrived. */
  lemma Brought(before: seq<Event>, p: Piece, maxLen: nat)
    requires Judge(Run(before).readSeq, Run(before).epoch, maxLen, p).Stored?
    ensures Started(before + [Deliver(p, maxLen)], p.seqNum)
    ensures Arrived(before + [Deliver(p, maxLen)], p.seqNum)
         == Arrived(before, p.seqNum) + Range(p.off, p.off + |p.bytes|)
  {
    assert (before + [Deliver(p, maxLen)])[..|before|] == before;
    assert Brings(before + [Deliver(p, maxLen)], p.seqNum);
  }

  /** A genuine fragment leaves its slot with what was there and its own bytes. */
  lemma StoreTrue(msgs: seq<Message>, slot: Slot, p: Piece)
    requires Genuine(msgs, p) && slot.seqNum == p.seqNum && slot.msgLen == p.msgLen
    requires slot.bytes.Keys <= Range(0, p.msgLen)
    requires forall i :: i in slot.bytes ==> slot.bytes[i] == msgs[p.seqNum].body[i]
    ensures var bytes := if Complete(slot) then slot.bytes else Copy(slot.bytes, p);
            && bytes.Keys == slot.bytes.Keys + Range(p.off, p.off + |p.bytes|)
            && bytes.Keys <= Range(0, p.msgLen)
            && (forall i :: i in bytes ==> bytes[i] == msgs[p.seqNum].body[i])
  {
    assert Range(p.off, p.off + |p.bytes|) <= Range(0, p.msgLen);
  }

  /** The slot a genuine fragment lands in is still true of its message. */
  lemma DeliverSlot(msgs: seq<Message>, before: seq<Event>, p: Piece, maxLen: nat)
    requires Faithful(msgs, before) && Genuine(msgs, p)
    requires Judge(Run(before).readSeq, Run(before).epoch, maxLen, p).Stored?
    ensures var r := Run(before + [Deliver(p, maxLen)]);
            r.ring[Index(p.seqNum)].Some? && r.ring[Index(p.seqNum)].value.seqNum == p.seqNum
            && SlotTrue(msgs, before + [Deliver(p, maxLen)], r.ring[Index(p.seqNum)].value)
  {
    assert (before + [Deliver(p, maxLen)])[..|before|] == before;
    SlotBefore(msgs, before, p, maxLen);
    Brought(before, p, maxLen);
    StoreTrue(msgs, SlotFor(Run(before), p).value, p);
  }

  /** The other slots stay as true as they were. */
  lemma StoredSlots(msgs: seq<Message>, before: seq<Event>, p: Piece, maxLen: nat)
    requires Faithful(msgs, before) && Genuine(msgs, p)
    requires Judge(Run(before).readSeq, Run(before).epoch, maxLen, p).Stored?
    ensures SlotsTrue(msgs, before + [Deliver(p, maxLen)], Run(before + [Deliver(p, maxLen)]))
  {
    var e := Deliver(p, maxLen);
    assert (before + [e])[..|before|] == before;
    var r, r' := Run(before), Run(before + [e]);
    DeliverSlot(msgs, before, p, maxLen);
    forall i | 0 <= i < MAX_FLIGHT && r'.ring[i].Some? && i != Index(p.seqNum)
      ensures SlotTrue(msgs, before + [e], r'.ring[i].value)
    {
      assert SlotTrue(msgs, before, r.ring[i].value);
      NotBrought(before, e, r.ring[i].value.seqNum);
    }
  }

  /** A message without a slot is not the one the fragment belongs to. */
  lemma StoredUntouched(msgs: seq<Message>, before: seq<Event>, p: Piece, maxLen: nat)
    requires Faithful(msgs, before) && Genuine(msgs, p)
    requires Judge(Run(before).readSeq, Run(before).epoch, maxLen, p).Stored?
    ensures Untouched(before + [Deliver(p, maxLen)], Run(before + [Deliver(p, maxLen)]))
  {
    var e := Deliver(p, maxLen);
    assert (before + [e])[..|before|] == before;
    var r, r' := Run(before), Run(before + [e]);
    SlotBefore(msgs, before, p, maxLen);
    forall n: nat | Vacant(r', n)
      ensures !Started(before + [e], n) && Arrived(before + [e], n) == {}
    {
      assert n != p.seqNum;
      NotBrought(before, e, n);
      assert Vacant(r, n) && !Started(before, n);
    }
  }

  lemma DeliverStep(msgs: seq<Message>, before: seq<Event>, p: Piece, maxLen: nat)
    requires Faithful(msgs, before) && Genuine(msgs, p)
    ensures Faithful(msgs, before + [Deliver(p, maxLen)])
  {
    var e, r := Deliver(p, maxLen), Run(before);
    assert (before + [e])[..|before|] == before;
    WindowStep(r, e);
    if Judge(r.readSeq, r.epoch, maxLen, p).Stored? {
      StoredSlots(msgs, before, p, maxLen);
      StoredUntouched(msgs, before, p, maxLen);
    } else {
      SlotsStay(msgs, before, e, r, r);
      VacantStay(before, e, r, r);
    }
  }

  lemma {:induction false} FaithfulRun(msgs: seq<Message>, events: seq<Event>)
    requires AllGenuine(msgs, events) && |msgs| < 0x1_0000
    ensures Faithful(msgs, events)
    decreases |events|
  {
    if events != [] {
      var before, e := events[..|events| - 1], events[|events| - 1];
      assert events == before + [e];
      FaithfulRun(msgs, before);
      if e.Deliver? {
        DeliverStep(msgs, before, e.p, e.maxLen);
      } else if e.Consume? && Drops(Run(before)) {
        DropStep(msgs, before);
      } else {
        QuietStep(msgs, before, e);
      }
    }
  }

  /** Sections 4.2.2 and 4.2.3 of RFC 6347: the messages handed out are always an exact
      prefix of those sent, however the network treated the fragments. */
  lemma HandedIsPrefix(msgs: seq<Message>, events: seq<Event>)
    requires AllGenuine(msgs, events) && |msgs| < 0x1_0000
    ensures Run(events).readSeq <= |msgs|
    ensures Handed(events) == msgs[..Run(events).readSeq]
  {
    FaithfulRun(msgs, events);
  }

  /** The next message is available exactly when each of its bytes has arrived, in
      whatever mixture of fragmentations, and then it is the message that was sent.  An
      empty message needs one fragment to announce it. */
  lemma CurrentIffArrived(msgs: seq<Message>, events: seq<Event>)
    requires AllGenuine(msgs, events) && Run(events).readSeq < |msgs| < 0x1_0000
    ensures var n := Run(events).readSeq;
            Current(Run(events)).Some? <==> Started(events, n) && Arrived(events, n) == Range(0, |msgs[n].body|)
    ensures Current(Run(events)).Some? ==> Current(Run(events)).value == msgs[Run(events).readSeq]
  {
    FaithfulRun(msgs, events);
    var r := Run(events);
    var n := r.readSeq;
    match r.ring[Index(n)] {
      case None =>
        assert Vacant(r, n);
        assert !Started(events, n);
      case Some(slot) =>
        SameIndex(n, slot.seqNum, n);
        if Complete(slot) {
          CurrentTrue(msgs, events);
        }
    }
  }
}
