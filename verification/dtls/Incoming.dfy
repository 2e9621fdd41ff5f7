/**
 The receiving side as it runs: a ring buffer of seven messages under reassembly, each
 with its own byte buffer and bitmask.  Its methods are proved to do what module
 `Handshake` says they do, event by event, so what `Delivery` proves of every run holds of
 the ring.
 */
module Incoming {
  import opened Wrappers
  import opened Words
  import opened Reassembly
  import opened Handshake
  import opened Delivery

  ghost predicate Within(got: set<nat>, n: nat) {
    forall i :: i in got ==> i < n
  }

  /** The bytes of `data` at the positions `got`. */
  ghost function Known(data: seq<byte>, got: set<nat>): map<nat, byte>
    requires Within(got, |data|)
  {
    map i | i in got :: data[i]
  }

  ghost function SlotView(f: Fragment?): Option<Slot>
    reads f, if f == null then {} else f.Parts()
    requires f == null || f.Valid()
  {
    if f == null then None else Some(Slot(f.seqNum, f.typ, f.msgLen, Known(f.data[..], f.got)))
  }

  /** `data` with `bytes` written over it from `off` on. */
  function Overwritten(data: seq<byte>, off: nat, bytes: seq<byte>): (r: seq<byte>)
    requires off + |bytes| <= |data|
    ensures |r| == |data|
  {
    data[..off] + bytes + data[off + |bytes|..]
  }

  lemma KnownCopy(data: seq<byte>, got: set<nat>, p: Piece)
    requires Within(got, |data|) && p.off + |p.bytes| <= |data|
    ensures Within(got + Range(p.off, p.off + |p.bytes|), |data|)
    ensures Known(Overwritten(data, p.off, p.bytes), got + Range(p.off, p.off + |p.bytes|)) == Copy(Known(data, got), p)
  {
  }

  lemma KnownAfter(data: seq<byte>, got: set<nat>, p: Piece, data': seq<byte>, got': set<nat>)
    requires Within(got, |data|) && p.off + |p.bytes| <= |data|
    requires data' == Overwritten(data, p.off, p.bytes) && got' == got + Range(p.off, p.off + |p.bytes|)
    ensures Within(got', |data'|) && Known(data', got') == Copy(Known(data, got), p)
  {
    KnownCopy(data, got, p);
  }

  /** The current message, once all of it is there. */
  lemma CurrentKnown(r: Receiver, seqNum: nat, typ: nat, data: seq<byte>, got: set<nat>)
    requires |r.ring| == MAX_FLIGHT && got == Range(0, |data|)
    requires r.ring[Index(r.readSeq)] == Some(Slot(seqNum, typ, |data|, Known(data, got)))
    ensures Current(r) == Some(Message(typ, data))
  {
    assert Current(r).value.body == data;
  }

  lemma OneMoreByte(data: seq<byte>, off: nat, bytes: seq<byte>, i: nat)
    requires off + |bytes| <= |data| && i < |bytes|
    ensures Overwritten(data, off, bytes[..i])[off + i := bytes[i]] == Overwritten(data, off, bytes[..i + 1])
  {
    assert bytes[..i + 1] == bytes[..i] + [bytes[i]];
  }

  /** Copies `bytes` into `data` from `off` on. */
  method CopyBytes(data: array<byte>, off: nat, bytes: seq<byte>)
    requires off + |bytes| <= data.Length
    modifies data
    ensures data[..] == Overwritten(old(data[..]), off, bytes)
  {
    for i := 0 to |bytes|
      invariant data[..] == Overwritten(old(data[..]), off, bytes[..i])
    {
      OneMoreByte(old(data[..]), off, bytes, i);
      data[off + i] := bytes[i];
    }
    assert bytes[..|bytes|] == bytes;
  }

  /** Writes a fragment's bytes into a message that is still incomplete, and marks them. */
  method StoreBytes(f: Fragment, p: Piece)
    requires f.Valid() && f.reassembly != null && p.off + |p.bytes| <= f.msgLen
    modifies f.Parts()
    ensures f.Valid() && f.Parts() <= old(f.Parts())
    ensures SlotView(f) == Some(Slot(f.seqNum, f.typ, f.msgLen, Copy(old(SlotView(f)).value.bytes, p)))
  {
    ghost var data, got := f.data[..], f.got;
    CopyBytes(f.data, p.off, p.bytes);
    f.Mark(p.off, p.off + |p.bytes|);
    KnownAfter(data, got, p, f.data[..], f.got);
  }

  /** What a fragment does to the slot it goes to. */
  function Taken(slot: Slot, p: Piece): Slot {
    if Complete(slot) then slot else slot.(bytes := Copy(slot.bytes, p))
  }

  lemma StoredArrival(r: Receiver, maxLen: nat, p: Piece, slot: Slot)
    requires |r.ring| == MAX_FLIGHT && Judge(r.readSeq, r.epoch, maxLen, p).Stored?
    requires SlotFor(r, p) == Some(slot)
    ensures Arrive(r, maxLen, p) == (r.(ring := r.ring[Index(p.seqNum) := Some(Taken(slot, p))]), Stored)
  {
  }

  lemma Dropped(r: Receiver, r': Receiver)
    requires |r.ring| == MAX_FLIGHT && Drops(r)
    requires r' == r.(ring := r.ring[Index(r.readSeq) := None], readSeq := (r.readSeq + 1) % 0x1_0000,
                      hasMessage := false)
    ensures r' == Step(r, Consume)
  {
  }

  /** The fragments of a record, up to one that is cut short. */
  ghost function Pieces(record: seq<byte>): seq<Piece>
    decreases |record|
  {
    match Parse(record)
    case None => []
    case Some((p, rest)) => [p] + Pieces(rest)
  }

  /** From `start` on, the events up to `now` deliver fragments of the record. */
  ghost predicate Delivered(start: seq<Event>, now: seq<Event>, record: seq<byte>, maxLen: nat) {
    start <= now
    && forall i :: |start| <= i < |now| ==> now[i].Deliver? && now[i].maxLen == maxLen && now[i].p in Pieces(record)
  }

  lemma DeliveredOn(start: seq<Event>, mid: seq<Event>, now: seq<Event>, record: seq<byte>, rest: seq<byte>,
                    maxLen: nat)
    requires Delivered(start, mid, record, maxLen) && Delivered(mid, now, rest, maxLen)
    requires forall p :: p in Pieces(rest) ==> p in Pieces(record)
    ensures Delivered(start, now, record, maxLen)
  {
  }

  class Queue {
    const ring: array<Fragment?>
    var readSeq: nat
    var epoch: nat
    var hasMessage: bool
    var hasCcs: bool

    /** The queue, its ring and everything the ring's messages are made of; it may keep
        what was once part of it. */
    ghost var repr: set<object>

    /** What has happened to the queue, in order. */
    ghost var events: seq<Event>

    /** No two slots share an object, and the slots share none with the ring itself. */
    ghost predicate Intact()
      reads this, repr
    {
      && this in repr && ring in repr && ring.Length == MAX_FLIGHT
      && (forall i :: 0 <= i < ring.Length && ring[i] != null ==>
            && ring[i] in repr && ring[i].Parts() <= repr && ring[i].Valid()
            && this !in ring[i].Parts() && ring !in ring[i].Parts())
      && (forall i, j :: 0 <= i < j < ring.Length && ring[i] != null && ring[j] != null ==>
            ring[i].Parts() !! ring[j].Parts())
    }

    ghost function Slots(n: nat): (r: seq<Option<Slot>>)
      requires Intact() && n <= MAX_FLIGHT
      reads this, repr
      ensures |r| == n && forall i :: 0 <= i < n ==> r[i] == SlotView(ring[i])
    {
      if n == 0 then [] else Slots(n - 1) + [SlotView(ring[n - 1])]
    }

    ghost function View(): Receiver
      requires Intact()
      reads this, repr
    {
      Receiver(readSeq, Slots(MAX_FLIGHT), epoch, hasMessage, hasCcs)
    }

    /** The queue is where its events have led. */
    ghost predicate Valid()
      reads this, repr
    {
      Intact() && View() == Run(events)
    }

    constructor ()
      ensures Valid() && fresh(repr) && events == []
    {
      ring := new Fragment?[MAX_FLIGHT](_ => null);
      readSeq, epoch, hasMessage, hasCcs := 0, 0, false, false;
      events := [];
      new;
      repr := {this, ring};
      SameSlots([None, None, None, None, None, None, None], Slots(MAX_FLIGHT));
    }

    /** The ring slot of a fragment (`dtls1_get_incoming_message`): the message being
        reassembled there, if it agrees with the fragment, or a new one, for which there may
        be no memory (`failed`). */
    method GetIncoming(p: Piece) returns (ok: bool, ghost failed: bool)
      requires Intact()
      modifies ring, `repr
      ensures Intact() && fresh(repr - old(repr))
      ensures ok == (readSeq <= p.seqNum < readSeq + MAX_FLIGHT && SlotFor(old(View()), p).Some? && !failed)
      ensures ok ==> SlotView(ring[Index(p.seqNum)]) == SlotFor(old(View()), p)
      ensures forall i :: 0 <= i < MAX_FLIGHT && (i != Index(p.seqNum) || !ok) ==>
                SlotView(ring[i]) == old(SlotView(ring[i]))
    {
      failed := false;
      if p.seqNum < readSeq || p.seqNum - readSeq >= MAX_FLIGHT {
        return false, failed;
      }
      var idx := p.seqNum % MAX_FLIGHT;
      if ring[idx] != null {
        return ring[idx].typ == p.typ && ring[idx].msgLen == p.msgLen, failed;
      }
      var memory: bool := *;
      if !memory {
        return false, true;
      }
      var frag := new Fragment(p.typ, p.seqNum, p.msgLen);
      assert SlotView(frag) == Some(Slot(p.seqNum, p.typ, p.msgLen, map[]));
      assert frag.Parts() !! repr;
      Insert(idx, frag);
      ok := true;
    }

    /** Puts a new message into an empty slot. */
    method Insert(idx: nat, frag: Fragment)
      requires Intact() && idx < MAX_FLIGHT && ring[idx] == null
      requires frag.Valid() && frag.Parts() !! repr
      modifies ring, `repr
      ensures Intact() && repr == old(repr) + frag.Parts()
      ensures SlotView(ring[idx]) == old(SlotView(frag))
      ensures forall i :: 0 <= i < MAX_FLIGHT && i != idx ==> SlotView(ring[i]) == old(SlotView(ring[i]))
    {
      ring[idx] := frag;
      repr := repr + frag.Parts();
      forall i | 0 <= i < MAX_FLIGHT && i != idx && ring[i] != null
        ensures ring[i].Valid() && ring[i].Parts() <= old(repr)
      {
        assert old(ring[i].Valid());
      }
    }

    /** Stores a fragment's bytes in slot `idx`; the other slots are not disturbed. */
    method Fill(idx: nat, p: Piece)
      requires Intact() && idx < MAX_FLIGHT && ring[idx] != null && ring[idx].reassembly != null
      requires p.off + |p.bytes| <= ring[idx].msgLen
      modifies ring[idx].Parts()
      ensures Intact() && repr == old(repr)
      ensures forall i :: 0 <= i < MAX_FLIGHT && i != idx ==> SlotView(ring[i]) == old(SlotView(ring[i]))
      ensures SlotView(ring[idx])
           == Some(old(SlotView(ring[idx])).value.(bytes := Copy(old(SlotView(ring[idx])).value.bytes, p)))
    {
      ghost var mine := ring[idx].Parts();
      label before:
      StoreBytes(ring[idx], p);
      forall i | 0 <= i < MAX_FLIGHT && i != idx && ring[i] != null
        ensures ring[i].Valid() && ring[i].Parts() == old@before(ring[i].Parts())
        ensures SlotView(ring[i]) == old@before(SlotView(ring[i]))
      {
        assert old@before(ring[i].Valid()) && old@before(ring[i].Parts()) !! mine;
      }
    }

    /** A complete message ignores further fragments; others take their bytes. */
    method Take(idx: nat, p: Piece)
      requires Intact() && idx < MAX_FLIGHT && ring[idx] != null
      requires p.off + |p.bytes| <= ring[idx].msgLen
      modifies ring[idx].Parts()
      ensures Intact() && repr == old(repr)
      ensures forall i :: 0 <= i < MAX_FLIGHT && i != idx ==> SlotView(ring[i]) == old(SlotView(ring[i]))
      ensures SlotView(ring[idx]) == Some(Taken(old(SlotView(ring[idx])).value, p))
    {
      ghost var slot := SlotView(ring[idx]).value;
      if ring[idx].reassembly == null {
        assert Complete(slot);
        return;
      }
      assert !Complete(slot);
      Fill(idx, p);
    }

    /** What one turn of the loop of `dtls1_open_handshake` does to the ring.  Without memory
        it is rejected and nothing has happened. */
    method Arrives(p: Piece, maxLen: nat) returns (v: Verdict, ghost failed: bool)
      requires Intact()
      modifies repr
      ensures Intact() && fresh(repr - old(repr)) && events == old(events)
      ensures if failed then v.Rejected? && View() == old(View()) else (View(), v) == Arrive(old(View()), maxLen, p)
    {
      failed := false;
      if p.off > p.msgLen || p.off + |p.bytes| > p.msgLen || p.msgLen > maxLen {
        return Rejected, failed;
      }
      if epoch == 1 && p.seqNum != readSeq {
        return Rejected, failed;
      }
      if p.seqNum < readSeq || p.seqNum > readSeq + MAX_FLIGHT {
        return Ignored, failed;
      }
      ghost var r, slot := View(), SlotFor(View(), p);
      var ok;
      ok, failed := GetIncoming(p);
      if !ok {
        SameSlots(r.ring, Slots(MAX_FLIGHT));
        return Rejected, failed;
      }
      Take(p.seqNum % MAX_FLIGHT, p);
      SameSlots(r.ring[Index(p.seqNum) := Some(Taken(slot.value, p))], Slots(MAX_FLIGHT));
      StoredArrival(r, maxLen, p, slot.value);
      v := Stored;
    }

    /** One turn of the loop of `dtls1_open_handshake`. */
    method OpenFragment(p: Piece, maxLen: nat) returns (v: Verdict, ghost failed: bool)
      requires Valid()
      modifies repr
      ensures Valid() && fresh(repr - old(repr))
      ensures failed ==> v.Rejected? && events == old(events)
      ensures !failed ==> events == old(events) + [Deliver(p, maxLen)] && v == Arrive(old(View()), maxLen, p).1
    {
      v, failed := Arrives(p, maxLen);
      if !failed {
        Happened(Deliver(p, maxLen));
      }
    }

    /** Notes an event that has had its effect. */
    ghost method Happened(e: Event)
      requires Intact() && View() == Step(Run(events), e)
      modifies `events
      ensures Valid() && events == old(events) + [e]
    {
      ghost var r := View();
      RunOne(events, e);
      events := events + [e];
      SameSlots(r.ring, Slots(MAX_FLIGHT));
    }

    /** The first fragment of what is left of a record. */
    method OpenFirst(record: seq<byte>, maxLen: nat, ghost goal: (Receiver, Verdict))
      returns (v: Verdict, rest: seq<byte>, ghost failed: bool)
      requires Valid() && record != [] && ArriveAll(View(), maxLen, record) == goal
      modifies repr
      ensures Valid() && fresh(repr - old(repr)) && |rest| < |record|
      ensures Delivered(old(events), events, record, maxLen)
      ensures failed ==> v.Rejected?
      ensures !failed ==> goal == if v.Rejected? then (View(), Rejected) else ArriveAll(View(), maxLen, rest)
      ensures forall p :: p in Pieces(rest) ==> p in Pieces(record)
    {
      failed := false;
      var parsed := Parse(record);
      if parsed.None? {
        return Rejected, [], failed;
      }
      rest := parsed.value.1;
      v, failed := OpenFragment(parsed.value.0, maxLen);
    }

    /** The fragments of a handshake record, until one is bad.  Without memory the rest of
        the record is lost with the connection. */
    method OpenHandshake(record: seq<byte>, maxLen: nat) returns (v: Verdict, ghost failed: bool)
      requires Valid()
      modifies repr
      ensures Valid() && fresh(repr - old(repr))
      ensures Delivered(old(events), events, record, maxLen)
      ensures failed ==> v.Rejected?
      ensures !failed ==> (View(), v) == ArriveAll(old(View()), maxLen, record)
    {
      var rest := record;
      v, failed := Stored, false;
      ghost var goal := ArriveAll(View(), maxLen, record);
      while rest != []
        invariant Valid() && fresh(repr - old(repr)) && !failed
        invariant Delivered(old(events), events, record, maxLen)
        invariant forall p :: p in Pieces(rest) ==> p in Pieces(record)
        invariant ArriveAll(View(), maxLen, rest) == goal && v.Stored?
        decreases |rest|
      {
        var first;
        ghost var before, mid := rest, events;
        first, rest, failed := OpenFirst(rest, maxLen, goal);
        DeliveredOn(old(events), mid, events, record, before, maxLen);
        if first.Rejected? {
          v := Rejected;
          return;
        }
      }
    }

    /** A ChangeCipherSpec record arrives (`dtls1_open_handshake`).  Encrypted ones, and all
        but a single byte 1, are refused. */
    method OpenCcs(record: seq<byte>, encrypted: bool) returns (ok: bool)
      requires Valid()
      modifies `hasCcs, `events
      ensures Valid() && ok == (!encrypted && record == [1])
      ensures events == if ok then old(events) + [Ccs] else old(events)
    {
      if encrypted || |record| != 1 || record[0] != 1 {
        return false;
      }
      ghost var r := View();
      hasCcs := true;
      SameSlots(r.ring, Slots(MAX_FLIGHT));
      Happened(Ccs);
      ok := true;
    }

    /** What ends `dtls1_open_change_cipher_spec`: a ChangeCipherSpec that has arrived is
        used up. */
    method TakeCcs() returns (ok: bool)
      requires Valid()
      modifies `hasCcs, `events
      ensures Valid() && ok == old(hasCcs) && !hasCcs
      ensures events == old(events) + [Delivery.TakeCcs]
    {
      ok := hasCcs;
      ghost var r := View();
      hasCcs := false;
      SameSlots(r.ring, Slots(MAX_FLIGHT));
      Happened(Delivery.TakeCcs);
    }

    /** `dtls1_get_message`. */
    method GetMessage() returns (m: Option<Message>)
      requires Valid()
      modifies this`hasMessage, `events
      ensures Valid() && events == old(events) + [Look]
      ensures m == Current(old(View()))
    {
      m := WhenComplete();
      if m.Some? {
        Looked();
      }
      Happened(Look);
    }

    /** The current message, if it is complete (`dtls1_is_current_message_complete`). */
    method WhenComplete() returns (m: Option<Message>)
      requires Intact()
      ensures m == Current(View())
    {
      var frag := ring[readSeq % MAX_FLIGHT];
      if frag == null || frag.reassembly != null {
        return None;
      }
      CurrentKnown(View(), frag.seqNum, frag.typ, frag.data[..], frag.got);
      m := Some(Message(frag.typ, frag.data[..]));
    }

    method Looked()
      requires Intact()
      modifies this`hasMessage
      ensures Intact() && View() == old(View()).(hasMessage := true)
    {
      ghost var slots := Slots(MAX_FLIGHT);
      hasMessage := true;
      SameSlots(slots, Slots(MAX_FLIGHT));
    }

    /** `dtls1_next_message`. */
    method NextMessage()
      requires Valid() && Drops(View())
      modifies this`readSeq, this`hasMessage, ring, `events
      ensures Valid() && repr == old(repr)
      ensures events == old(events) + [Consume]
    {
      ghost var r := View();
      Drop(readSeq % MAX_FLIGHT);
      Advance();
      Dropped(r, View());
      Happened(Consume);
    }

    /** The next message becomes the current one; the sequence number has 16 bits. */
    method Advance()
      requires Intact()
      modifies this`readSeq, this`hasMessage
      ensures Intact()
      ensures View() == old(View()).(readSeq := (old(readSeq) + 1) % 0x1_0000, hasMessage := false)
    {
      ghost var slots := Slots(MAX_FLIGHT);
      readSeq, hasMessage := (readSeq + 1) % 0x1_0000, false;
      SameSlots(slots, Slots(MAX_FLIGHT));
    }

    /** Empties a slot. */
    method Drop(idx: nat)
      requires Intact() && idx < MAX_FLIGHT
      modifies ring
      ensures Intact() && View() == old(View()).(ring := old(View()).ring[idx := None])
    {
      ghost var slots := Slots(MAX_FLIGHT);
      ring[idx] := null;
      forall i | 0 <= i < MAX_FLIGHT && ring[i] != null
        ensures ring[i].Valid() && SlotView(ring[i]) == old(SlotView(ring[i]))
      {
        assert old(ring[i].Valid());
      }
      SameSlots(slots[idx := None], Slots(MAX_FLIGHT));
    }

    /** `dtls_has_unprocessed_handshake_data`. */
    method HasUnprocessed() returns (b: bool)
      requires Intact()
      ensures b == Unprocessed(View())
    {
      if hasCcs {
        return true;
      }
      var current := readSeq % MAX_FLIGHT;
      for i := 0 to MAX_FLIGHT
        invariant forall j :: 0 <= j < i && !(hasMessage && j == current) ==> ring[j] == null
      {
        if hasMessage && i == current {
          continue;
        }
        if ring[i] != null {
          assert View().ring[i].Some?;
          return true;
        }
      }
      b := false;
    }

    /** `dtls1_set_read_state`, apart from the cipher and the replay window: refused while
        something is unprocessed.  The epoch has 16 bits. */
    method SetReadState() returns (ok: bool)
      requires Valid()
      modifies this`epoch, `events
      ensures Valid() && events == old(events) + [NewEpoch]
      ensures ok == !Unprocessed(old(View()))
      ensures epoch == if ok then (old(epoch) + 1) % 0x1_0000 else old(epoch)
    {
      var unprocessed := HasUnprocessed();
      ok := !unprocessed;
      if ok {
        NextEpoch();
      }
      Happened(NewEpoch);
    }

    method NextEpoch()
      requires Intact()
      modifies this`epoch
      ensures Intact() && View() == old(View()).(epoch := (old(epoch) + 1) % 0x1_0000)
    {
      ghost var slots := Slots(MAX_FLIGHT);
      epoch := (epoch + 1) % 0x1_0000;
      SameSlots(slots, Slots(MAX_FLIGHT));
    }
  }

  lemma SameSlots(a: seq<Option<Slot>>, b: seq<Option<Slot>>)
    requires |a| == |b| && forall i :: 0 <= i < |a| ==> a[i] == b[i]
    ensures a == b
  {
  }
}
