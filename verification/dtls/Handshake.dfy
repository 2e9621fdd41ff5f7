/**
 DTLS handshake fragments (section 4.2.2 of RFC 6347) and the receiving side as a
 function of what arrives: a window of seven messages, reassembled out of order and
 handed out in order.
 */
module Handshake {
  import opened Wrappers
  import opened Words
  import opened Reassembly

  /** `SSL_MAX_HANDSHAKE_FLIGHT`. */
  const MAX_FLIGHT: nat := 7

  /** `DTLS1_HM_HEADER_LENGTH`. */
  const HEADER_LENGTH: nat := 12

  datatype Message = Message(typ: nat, body: seq<byte>)

  /** One fragment: the header's fields, and as many bytes as its fragment length says. */
  datatype Piece = Piece(typ: nat, msgLen: nat, seqNum: nat, off: nat, bytes: seq<byte>)

  // ---------- fragments on the wire ----------

  /** The header fields fit their one, two and three bytes. */
  predicate Fits(p: Piece) {
    && p.typ < 256 && p.seqNum < 0x1_0000
    && p.msgLen < 0x100_0000 && p.off < 0x100_0000 && |p.bytes| < 0x100_0000
  }

  function Serialize(p: Piece): seq<byte>
    requires p.typ < 256
  {
    [p.typ] + Be(p.msgLen, 3) + Be(p.seqNum, 2) + Be(p.off, 3) + Be(|p.bytes|, 3) + p.bytes
  }

  /** `dtls1_parse_fragment`: a fragment and what follows it. */
  function Parse(s: seq<byte>): Option<(Piece, seq<byte>)> {
    if |s| < HEADER_LENGTH then None
    else
      var len := BeValue(s[9..12]);
      if |s| < HEADER_LENGTH + len then None
      else Some((Piece(s[0], BeValue(s[1..4]), BeValue(s[4..6]), BeValue(s[6..9]), s[12..12 + len]), s[12 + len..]))
  }

  /** Parsing undoes serializing, whatever fragments follow in the record. */
  lemma ParseSerialize(p: Piece, t: seq<byte>)
    requires Fits(p)
    ensures Parse(Serialize(p) + t) == Some((p, t))
  {
    BeInverse(p.msgLen, 3);
    BeInverse(p.seqNum, 2);
    BeInverse(p.off, 3);
    BeInverse(|p.bytes|, 3);
    var a, b, c, d := Be(p.msgLen, 3), Be(p.seqNum, 2), Be(p.off, 3), Be(|p.bytes|, 3);
    HeaderSlices([p.typ], a, b, c, d, p.bytes, t);
  }

  /** Where the header's fields lie. */
  lemma HeaderSlices(typ: seq<byte>, len: seq<byte>, number: seq<byte>, off: seq<byte>, size: seq<byte>,
                     bytes: seq<byte>, t: seq<byte>)
    requires |typ| == 1 && |len| == 3 && |number| == 2 && |off| == 3 && |size| == 3
    ensures var s := typ + len + number + off + size + bytes + t;
            && |s| == HEADER_LENGTH + |bytes| + |t| && s[0] == typ[0]
            && s[1..4] == len && s[4..6] == number && s[6..9] == off && s[9..12] == size
            && s[12..12 + |bytes|] == bytes && s[12 + |bytes|..] == t
  {
    Field([], typ, len + number + off + size + bytes + t);
    Field(typ, len, number + off + size + bytes + t);
    Field(typ + len, number, off + size + bytes + t);
    Field(typ + len + number, off, size + bytes + t);
    Field(typ + len + number + off, size, bytes + t);
    Field(typ + len + number + off + size, bytes, t);
  }

  lemma Field(before: seq<byte>, field: seq<byte>, after: seq<byte>)
    ensures (before + field + after)[|before|..|before| + |field|] == field
    ensures (before + field + after)[|before| + |field|..] == after
  {
  }

  // ---------- the receiving side ----------

  /** A message under reassembly: the bytes received, by position. */
  datatype Slot = Slot(seqNum: nat, typ: nat, msgLen: nat, bytes: map<nat, byte>)

  /** `hasMessage`: the current message has been looked at and not yet dropped.
      `hasCcs`: a ChangeCipherSpec has arrived and has not been processed. */
  datatype Receiver =
    Receiver(readSeq: nat, ring: seq<Option<Slot>>, epoch: nat, hasMessage: bool, hasCcs: bool)

  datatype Verdict = Stored | Ignored | Rejected

  predicate Complete(slot: Slot) {
    slot.bytes.Keys == Range(0, slot.msgLen)
  }

  function Index(n: nat): (i: nat)
    ensures i < MAX_FLIGHT
  {
    n % MAX_FLIGHT
  }

  /** What `dtls1_open_handshake` decides about a fragment before it looks at its ring
      slot.  A fragment exactly seven messages ahead passes the test that would ignore it
      and is then refused by `dtls1_get_incoming_message`. */
  function Judge(readSeq: nat, epoch: nat, maxLen: nat, p: Piece): Verdict {
    if p.off > p.msgLen || p.off + |p.bytes| > p.msgLen || p.msgLen > maxLen then Rejected
    else if epoch == 1 && p.seqNum != readSeq then Rejected
    else if p.seqNum < readSeq || p.seqNum > readSeq + MAX_FLIGHT then Ignored
    else if p.seqNum - readSeq >= MAX_FLIGHT then Rejected
    else Stored
  }

  /** The slot a fragment goes to: the one there, if it agrees, or a new one. */
  function SlotFor(r: Receiver, p: Piece): Option<Slot>
    requires |r.ring| == MAX_FLIGHT
  {
    match r.ring[Index(p.seqNum)]
    case None => Some(Slot(p.seqNum, p.typ, p.msgLen, map[]))
    case Some(slot) => if slot.typ == p.typ && slot.msgLen == p.msgLen then Some(slot) else None
  }

  function Copy(bytes: map<nat, byte>, p: Piece): (r: map<nat, byte>)
    ensures r.Keys == bytes.Keys + Range(p.off, p.off + |p.bytes|)
  {
    map i | i in bytes.Keys + Range(p.off, p.off + |p.bytes|) ::
      if p.off <= i < p.off + |p.bytes| then p.bytes[i - p.off] else bytes[i]
  }

  /** A fragment arrives.  A complete message ignores further fragments. */
  function Arrive(r: Receiver, maxLen: nat, p: Piece): (Receiver, Verdict)
    requires |r.ring| == MAX_FLIGHT
  {
    var v := Judge(r.readSeq, r.epoch, maxLen, p);
    if !v.Stored? then (r, v)
    else
      match SlotFor(r, p)
      case None => (r, Rejected)
      case Some(slot) =>
        var bytes := if Complete(slot) then slot.bytes else Copy(slot.bytes, p);
        (r.(ring := r.ring[Index(p.seqNum) := Some(slot.(bytes := bytes))]), Stored)
  }

  /** The fragments of one handshake record (`dtls1_open_handshake`).  A bad one ends the
      connection; those before it have been stored. */
  function ArriveAll(r: Receiver, maxLen: nat, record: seq<byte>): (Receiver, Verdict)
    requires |r.ring| == MAX_FLIGHT
    decreases |record|
  {
    if record == [] then (r, Stored)
    else
      match Parse(record)
      case None => (r, Rejected)
      case Some((p, rest)) =>
        var (r', v) := Arrive(r, maxLen, p);
        if v.Rejected? then (r', Rejected) else ArriveAll(r', maxLen, rest)
  }

  /** The current message, once all of it is there (`dtls1_get_message`). */
  function Current(r: Receiver): Option<Message>
    requires |r.ring| == MAX_FLIGHT
  {
    match r.ring[Index(r.readSeq)]
    case None => None
    case Some(slot) =>
      if Complete(slot) then Some(Message(slot.typ, seq(slot.msgLen, i requires 0 <= i < slot.msgLen => slot.bytes[i])))
      else None
  }

  /** `dtls1_next_message`.  The sequence number has 16 bits. */
  function Next(r: Receiver): Receiver
    requires |r.ring| == MAX_FLIGHT
  {
    r.(ring := r.ring[Index(r.readSeq) := None], readSeq := (r.readSeq + 1) % 0x1_0000, hasMessage := false)
  }

  /** `dtls_has_unprocessed_handshake_data`. */
  predicate Unprocessed(r: Receiver)
    requires |r.ring| == MAX_FLIGHT
  {
    r.hasCcs || exists i :: 0 <= i < MAX_FLIGHT && r.ring[i].Some? && !(r.hasMessage && i == Index(r.readSeq))
  }
}
