/**
 What is sent for a flight of handshake messages: records that each carry one fragment,
 or a ChangeCipherSpec.  A run of records follows the flight if it takes the messages in
 order and cuts each into consecutive fragments; such a run covers every byte of every
 message exactly once.
 */
module Outgoing {
  import opened Wrappers
  import opened Words
  import opened Handshake
  import opened Delivery

  /** `DTLS_OUTGOING_MESSAGE`. */
  datatype Item = CcsItem(epoch: nat) | MessageItem(typ: nat, body: seq<byte>, seqNum: nat, epoch: nat)

  /** The contents of one record. */
  datatype Sent = SentCcs(epoch: nat) | SentPiece(p: Piece, epoch: nat)

  /** `outgoing_written` and `outgoing_offset`. */
  datatype Pos = Pos(written: nat, offset: nat)

  const ORIGIN: Pos := Pos(0, 0)

  /** Strictly further in the flight. */
  predicate Later(a: Pos, b: Pos) {
    a.written < b.written || (a.written == b.written && a.offset < b.offset)
  }

  predicate PosOk(items: seq<Item>, at: Pos) {
    && at.written <= |items|
    && (at.offset != 0 ==>
          at.written < |items| && items[at.written].MessageItem? && at.offset < |items[at.written].body|)
  }

  /** The fragment of `n` bytes that starts at offset `off`. */
  function PieceOf(item: Item, off: nat, n: nat): Piece
    requires item.MessageItem? && off + n <= |item.body|
  {
    Piece(item.typ, |item.body|, item.seqNum, off, item.body[off..off + n])
  }

  /** The position after `s`, if `s` is what comes next: under the message's own epoch,
      and with at least one byte unless that ends the message. */
  function Advance(items: seq<Item>, at: Pos, s: Sent): Option<Pos> {
    if at.written >= |items| then None
    else if items[at.written].CcsItem? then
      if s == SentCcs(items[at.written].epoch) then Some(Pos(at.written + 1, 0)) else None
    else if s.SentCcs? then None
    else
      var item, n := items[at.written], |s.p.bytes|;
      if at.offset + n > |item.body| || s != SentPiece(PieceOf(item, at.offset, n), item.epoch) then None
      else if at.offset + n == |item.body| then Some(Pos(at.written + 1, 0))
      else if n == 0 then None
      else Some(Pos(at.written, at.offset + n))
  }

  /** The position after all of `sent`. */
  function Follow(items: seq<Item>, from: Pos, sent: seq<Sent>): Option<Pos> {
    if sent == [] then Some(from)
    else
      var before := Follow(items, from, sent[..|sent| - 1]);
      if before.None? then None else Advance(items, before.value, sent[|sent| - 1])
  }

  lemma {:induction false} FollowTogether(items: seq<Item>, from: Pos, a: seq<Sent>, b: seq<Sent>)
    requires Follow(items, from, a).Some?
    ensures Follow(items, from, a + b) == Follow(items, Follow(items, from, a).value, b)
    decreases |b|
  {
    if b == [] {
      assert a + b == a;
    } else {
      FollowTogether(items, from, a, b[..|b| - 1]);
      assert (a + b)[..|a + b| - 1] == a + b[..|b| - 1];
    }
  }

  lemma FollowOne(items: seq<Item>, from: Pos, a: seq<Sent>, s: Sent)
    requires Follow(items, from, a).Some?
    ensures Follow(items, from, a + [s]) == Advance(items, Follow(items, from, a).value, s)
  {
    assert (a + [s])[..|a|] == a;
  }

  /** Adding a message to the flight does not disturb what has been sent of it. */
  lemma {:induction false} FollowAppended(items: seq<Item>, item: Item, from: Pos, sent: seq<Sent>)
    requires Follow(items, from, sent).Some?
    ensures Follow(items + [item], from, sent) == Follow(items, from, sent)
    decreases |sent|
  {
    if sent != [] {
      FollowAppended(items, item, from, sent[..|sent| - 1]);
    }
  }

  // ---------- each byte exactly once ----------

  /** No two messages of the flight share a sequence number. */
  ghost predicate Distinct(items: seq<Item>) {
    forall i, j :: 0 <= i < j < |items| && items[i].MessageItem? && items[j].MessageItem? ==>
      items[i].seqNum != items[j].seqNum
  }

  predicate Covers(s: Sent, seqNum: nat, b: nat) {
    s.SentPiece? && s.p.seqNum == seqNum && s.p.off <= b < s.p.off + |s.p.bytes|
  }

  /** How many of the records carry byte `b` of message `seqNum`. */
  function Times(sent: seq<Sent>, seqNum: nat, b: nat): nat {
    if sent == [] then 0
    else Times(sent[..|sent| - 1], seqNum, b) + if Covers(sent[|sent| - 1], seqNum, b) then 1 else 0
  }

  /** Before position `at`. */
  predicate Behind(at: Pos, i: nat, b: nat) {
    i < at.written || (i == at.written && b < at.offset)
  }

  lemma AdvanceCovers(items: seq<Item>, at: Pos, s: Sent, i: nat, b: nat)
    requires Distinct(items) && i < |items| && items[i].MessageItem? && b < |items[i].body|
    requires Advance(items, at, s).Some?
    ensures Covers(s, items[i].seqNum, b) <==> !Behind(at, i, b) && Behind(Advance(items, at, s).value, i, b)
    ensures Behind(at, i, b) ==> Behind(Advance(items, at, s).value, i, b)
  {
    if items[at.written].MessageItem? && at.written != i {
      assert items[at.written].seqNum != items[i].seqNum;
    }
  }

  /** Flight sending is a partition: the records sent so far carry each byte behind the
      position exactly once, and no other byte. */
  lemma {:induction false} Partition(items: seq<Item>, sent: seq<Sent>, i: nat, b: nat)
    requires Distinct(items) && i < |items| && items[i].MessageItem? && b < |items[i].body|
    requires Follow(items, ORIGIN, sent).Some?
    ensures Times(sent, items[i].seqNum, b) == if Behind(Follow(items, ORIGIN, sent).value, i, b) then 1 else 0
    decreases |sent|
  {
    if sent != [] {
      var before, s := sent[..|sent| - 1], sent[|sent| - 1];
      Partition(items, before, i, b);
      AdvanceCovers(items, Follow(items, ORIGIN, before).value, s, i, b);
    }
  }

  /** A record that carries byte `b` of a message, when some record does. */
  lemma {:induction false} Carrier(sent: seq<Sent>, seqNum: nat, b: nat) returns (k: nat)
    requires Times(sent, seqNum, b) > 0
    ensures k < |sent| && Covers(sent[k], seqNum, b)
  {
    if Covers(sent[|sent| - 1], seqNum, b) {
      k := |sent| - 1;
    } else {
      k := Carrier(sent[..|sent| - 1], seqNum, b);
    }
  }

  predicate IsPieceOf(s: Sent, seqNum: nat) {
    s.SentPiece? && s.p.seqNum == seqNum
  }

  /** Every message behind the position, even an empty one, has had a record. */
  lemma {:induction false} Announced(items: seq<Item>, sent: seq<Sent>, i: nat) returns (k: nat)
    requires i < |items| && items[i].MessageItem?
    requires Follow(items, ORIGIN, sent).Some? && i < Follow(items, ORIGIN, sent).value.written
    ensures k < |sent| && IsPieceOf(sent[k], items[i].seqNum)
    decreases |sent|
  {
    var before := sent[..|sent| - 1];
    if i < Follow(items, ORIGIN, before).value.written {
      k := Announced(items, before, i);
    } else {
      k := |sent| - 1;
    }
  }

  /** Record `k` of a run carries the `i`th message or a part of it. */
  predicate CarriesItem(items: seq<Item>, sent: seq<Sent>, k: nat, i: nat)
    requires k < |sent|
  {
    var at := Follow(items, ORIGIN, sent[..k]);
    at.Some? && at.value.written == i
  }

  lemma {:induction false} FollowForward(items: seq<Item>, sent: seq<Sent>, k: nat)
    requires k < |sent| && Follow(items, ORIGIN, sent).Some?
    ensures Follow(items, ORIGIN, sent[..k + 1]).Some?
    ensures Follow(items, ORIGIN, sent[..k + 1]).value.written <= Follow(items, ORIGIN, sent).value.written
    decreases |sent|
  {
    var before := sent[..|sent| - 1];
    if k == |sent| - 1 {
      assert sent[..k + 1] == sent;
    } else {
      FollowForward(items, before, k);
      assert before[..k + 1] == sent[..k + 1];
    }
  }

  /** What the records leave out when the position is ahead of them: the byte they
      stopped at, or, where that is an empty message or a ChangeCipherSpec, all of it. */
  lemma Gap(items: seq<Item>, sent: seq<Sent>, at: Pos)
    requires Distinct(items) && PosOk(items, at)
    requires Follow(items, ORIGIN, sent).Some? && Later(Follow(items, ORIGIN, sent).value, at)
    ensures var Pos(i, b) := Follow(items, ORIGIN, sent).value;
            && i < |items|
            && if items[i].MessageItem? && b < |items[i].body|
               then Behind(at, i, b) && Times(sent, items[i].seqNum, b) == 0
               else i < at.written && forall k :: 0 <= k < |sent| ==> !CarriesItem(items, sent, k, i)
  {
    var Pos(i, b) := Follow(items, ORIGIN, sent).value;
    FollowPosOk(items, sent);
    if items[i].MessageItem? && b < |items[i].body| {
      Partition(items, sent, i, b);
    } else {
      forall k | 0 <= k < |sent|
        ensures !CarriesItem(items, sent, k, i)
      {
        FollowForward(items, sent, k);
        assert sent[..k + 1][..k] == sent[..k];
      }
    }
  }

  lemma {:induction false} FollowPosOk(items: seq<Item>, sent: seq<Sent>)
    requires Follow(items, ORIGIN, sent).Some?
    ensures PosOk(items, Follow(items, ORIGIN, sent).value)
    decreases |sent|
  {
    if sent != [] {
      FollowPosOk(items, sent[..|sent| - 1]);
    }
  }

  /** A fragment without bytes is sent only for a message without any. */
  lemma {:induction false} FollowNonEmpty(items: seq<Item>, sent: seq<Sent>)
    requires Follow(items, ORIGIN, sent).Some?
    ensures forall k :: 0 <= k < |sent| && sent[k].SentPiece? ==> sent[k].p.bytes != [] || sent[k].p.msgLen == 0
    decreases |sent|
  {
    if sent != [] {
      FollowNonEmpty(items, sent[..|sent| - 1]);
      FollowPosOk(items, sent[..|sent| - 1]);
    }
  }

  // ---------- sent fragments are true pieces of the messages sent ----------

  /** Message `seqNum` of the history is this one. */
  predicate Recorded(history: seq<Message>, item: Item) {
    item.MessageItem? ==>
      item.seqNum < |history| && history[item.seqNum] == Message(item.typ, item.body)
  }

  ghost predicate AllRecorded(history: seq<Message>, items: seq<Item>) {
    forall i :: 0 <= i < |items| ==> Recorded(history, items[i])
  }

  predicate Honest(history: seq<Message>, s: Sent) {
    s.SentPiece? ==> Genuine(history, s.p)
  }

  lemma AdvanceHonest(history: seq<Message>, items: seq<Item>, at: Pos, s: Sent)
    requires AllRecorded(history, items)
    requires Advance(items, at, s).Some?
    ensures Honest(history, s)
  {
  }

  lemma {:induction false} FollowHonest(history: seq<Message>, items: seq<Item>, from: Pos, sent: seq<Sent>)
    requires AllRecorded(history, items)
    requires Follow(items, from, sent).Some?
    ensures forall s :: s in sent ==> Honest(history, s)
    decreases |sent|
  {
    if sent != [] {
      var before := sent[..|sent| - 1];
      FollowHonest(history, items, from, before);
      AdvanceHonest(history, items, Follow(items, from, before).value, sent[|sent| - 1]);
      assert sent == before + [sent[|sent| - 1]];
    }
  }

  /** How many of the items are messages. */
  function MessageCount(items: seq<Item>): (n: nat)
    ensures n <= |items|
  {
    if items == [] then 0
    else MessageCount(items[..|items| - 1]) + if items[|items| - 1].MessageItem? then 1 else 0
  }

  /** The position of the flight's first message in the history. */
  function First(history: seq<Message>, items: seq<Item>): int {
    |history| - MessageCount(items)
  }

  ghost predicate InFlight(items: seq<Item>, n: nat) {
    exists i :: 0 <= i < |items| && items[i].MessageItem? && items[i].seqNum == n
  }

  /** The flight has the last messages of the history, all of them and no others. */
  ghost predicate Recent(history: seq<Message>, items: seq<Item>) {
    && (forall i :: 0 <= i < |items| && items[i].MessageItem? ==> First(history, items) <= items[i].seqNum)
    && (forall n: nat {:trigger InFlight(items, n)} :: First(history, items) <= n < |history| ==> InFlight(items, n))
  }

  lemma InFlightAppended(items: seq<Item>, item: Item, n: nat)
    requires InFlight(items, n) || (item.MessageItem? && item.seqNum == n)
    ensures InFlight(items + [item], n)
  {
    if InFlight(items, n) {
      var i :| 0 <= i < |items| && items[i].MessageItem? && items[i].seqNum == n;
      assert (items + [item])[i] == items[i];
    } else {
      assert (items + [item])[|items|] == item;
    }
  }

  lemma CountAppended(items: seq<Item>, item: Item)
    ensures MessageCount(items + [item]) == MessageCount(items) + if item.MessageItem? then 1 else 0
  {
    assert (items + [item])[..|items|] == items;
  }

  lemma RecentMessage(history: seq<Message>, items: seq<Item>, m: Message, item: Item)
    requires Recent(history, items) && item.MessageItem? && item.seqNum == |history|
    ensures Recent(history + [m], items + [item])
  {
    CountAppended(items, item);
    forall n: nat | First(history, items) <= n < |history| + 1
      ensures InFlight(items + [item], n)
    {
      if n < |history| {
        assert InFlight(items, n);
      }
      InFlightAppended(items, item, n);
    }
  }

  lemma RecentCcs(history: seq<Message>, items: seq<Item>, item: Item)
    requires Recent(history, items) && item.CcsItem?
    ensures Recent(history, items + [item])
  {
    CountAppended(items, item);
    forall n: nat | First(history, items) <= n < |history|
      ensures InFlight(items + [item], n)
    {
      assert InFlight(items, n);
      InFlightAppended(items, item, n);
    }
  }

  /** An honest fragment stays honest as more messages are sent. */
  lemma HonestExtends(history: seq<Message>, m: Message, s: Sent)
    requires Honest(history, s)
    ensures Honest(history + [m], s)
  {
  }
}
