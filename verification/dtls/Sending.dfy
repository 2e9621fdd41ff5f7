/**
 The sending side as it runs: a flight is sealed packet by packet into what the MTU
 allows, a packet that cannot be written is taken back, and a retransmission starts the
 flight again.
 */
module Sending {
  import opened Wrappers
  import opened Words
  import opened Handshake
  import opened Outgoing

  const RECORD_HEADER: nat := 13
  const MIN_MTU: nat := 228
  const DEFAULT_MTU: nat := 1472

  /** What matters of a write cipher: `ExplicitNonceLen` and the AEAD's own overhead. */
  datatype Cipher = Cipher(nonceLen: nat, tagLen: nat)

  /** `dtls_max_seal_overhead`. */
  function Overhead(c: Cipher): nat {
    RECORD_HEADER + c.nonceLen + c.tagLen
  }

  /** `dtls_seal_prefix_len`. */
  function Prefix(c: Cipher): nat {
    RECORD_HEADER + c.nonceLen
  }

  /** The least room in which a record for `item` makes progress. */
  function Room(item: Item, c: Cipher): nat {
    if item.CcsItem? then 1 + Overhead(c) else HEADER_LENGTH + 1 + Overhead(c)
  }

  datatype SealResult = SealError | NoProgress | Partial | Success

  /** `dtls_seal_record`, of which only success and the length matter here: a header of 13
      bytes, the explicit nonce, and the ciphertext. */
  method SealRecord(c: Cipher, inLen: nat) returns (ok: bool, len: nat)
    ensures ok ==> 13 + c.nonceLen + inLen <= len <= 13 + c.nonceLen + inLen + c.tagLen
  {
    ok := *;
    len :| 13 + c.nonceLen + inLen <= len <= 13 + c.nonceLen + inLen + c.tagLen;
  }

  class Flight {
    var messages: seq<Item>
    var written: nat
    var offset: nat
    /** `outgoing_messages_complete` and `flight_has_reply`. */
    var complete: bool
    var hasReply: bool
    /** `handshake_write_seq` and `w_epoch`. */
    var writeSeq: nat
    var epoch: nat
    var current: Cipher
    var last: Cipher
    var mtu: nat
    var shutdown: bool

    /** Every message ever added. */
    ghost var history: seq<Message>
    /** The records written since the flight was last started from its beginning. */
    ghost var pass: seq<Sent>
    /** Every record ever written. */
    ghost var everSent: seq<Sent>
    /** Sealing failed after other records of the same packet, which are then skipped. */
    ghost var lost: bool

    ghost function Position(): Pos
      reads this
    {
      Pos(written, offset)
    }

    /** Sequence numbers have 16 bits; below that many messages they are positions in the
        history. */
    ghost predicate Valid()
      reads this
    {
      && |messages| <= MAX_FLIGHT
      && PosOk(messages, Position())
      && (!lost ==> Follow(messages, ORIGIN, pass) == Some(Position()))
      && (hasReply ==> complete)
      && writeSeq == |history| % 0x1_0000
      && (|history| < 0x1_0000 ==> Truthful(history, messages, everSent))
    }

    static ghost predicate Truthful(history: seq<Message>, messages: seq<Item>, everSent: seq<Sent>) {
      && AllRecorded(history, messages)
      && Distinct(messages)
      && Recent(history, messages)
      && (forall s :: s in everSent ==> Honest(history, s))
    }

    /** How far the records of the pass got: to the position, unless some were lost; then
        the position is ahead of them, and what lies between was never written (`Gap`). */
    ghost predicate Standing(lossy: bool)
      reads this
    {
      var reached := Follow(messages, ORIGIN, pass);
      reached.Some? && if lossy then Later(reached.value, Position()) else reached.value == Position()
    }

    constructor (cipher: Cipher, mtu: nat)
      ensures Valid() && messages == [] && history == [] && everSent == [] && !lost
    {
      messages, written, offset, complete, hasReply := [], 0, 0, false, false;
      writeSeq, epoch, current, last, this.mtu, shutdown := 0, 0, cipher, cipher, mtu, false;
      history, pass, everSent, lost := [], [], [], false;
    }

    /** The cipher a message of `msgEpoch` is sealed with, if there is one. */
    function CipherFor(msgEpoch: nat): Option<Cipher>
      reads this
    {
      if epoch >= 1 && msgEpoch == epoch - 1 then Some(last)
      else if msgEpoch == epoch then Some(current)
      else None
    }

    /** A packet of `room` bytes is too small for any of the next message. */
    predicate TooSmall(room: nat)
      requires written < |messages|
      reads this
    {
      var cipher := CipherFor(messages[written].epoch);
      cipher.Some? && room < Room(messages[written], cipher.value)
    }

    /** `dtls_clear_outgoing_messages`. */
    method Clear()
      requires Valid()
      modifies `messages, `written, `offset, `complete, `hasReply, `pass, `lost
      ensures Valid() && messages == [] && !complete && !hasReply && !lost && pass == []
    {
      messages, written, offset, complete, hasReply := [], 0, 0, false, false;
      pass, lost := [], false;
    }

    /** What `dtls1_next_message` notes: the peer has answered a complete flight. */
    method NoteReply()
      requires Valid()
      modifies `hasReply
      ensures Valid() && hasReply == complete
    {
      if complete {
        hasReply := true;
      }
    }

    /** `dtls1_on_handshake_complete`: a final flight without a reply is kept, whole, to be
        sent again. */
    method OnHandshakeComplete()
      requires Valid()
      modifies `messages, `written, `offset, `complete, `hasReply, `pass, `lost
      ensures Valid()
      ensures if old(hasReply) then messages == [] else unchanged(this)
    {
      if hasReply {
        Clear();
      }
    }

    /** `add_outgoing`: a new message starts a new flight if the last one is complete. */
    method AddMessage(typ: nat, body: seq<byte>) returns (ok: bool)
      requires Valid()
      modifies this
      ensures Valid()
      ensures ok == (old(complete) || |old(messages)| < MAX_FLIGHT)
      ensures ok ==> history == old(history) + [Message(typ, body)]
      ensures ok ==> messages == (if old(complete) then [] else old(messages))
                                 + [MessageItem(typ, body, old(writeSeq), epoch)]
      ensures !ok ==> messages == old(messages) && history == old(history)
      ensures everSent == old(everSent)
    {
      if complete {
        Clear();
      }
      if |messages| >= MAX_FLIGHT {
        return false;
      }
      if !lost {
        FollowAppended(messages, MessageItem(typ, body, writeSeq, epoch), ORIGIN, pass);
      }
      if |history| + 1 < 0x1_0000 {
        Joined(history, messages, everSent, typ, body, writeSeq, epoch);
      }
      NextNumber(|history|);
      messages := messages + [MessageItem(typ, body, writeSeq, epoch)];
      history := history + [Message(typ, body)];
      writeSeq := (writeSeq + 1) % 0x1_0000;
      ok := true;
    }

    /** A new message takes the next position of the history. */
    static lemma Joined(history: seq<Message>, messages: seq<Item>, everSent: seq<Sent>, typ: nat, body: seq<byte>,
                        number: nat, epoch: nat)
      requires |history| < 0x1_0000 && number == |history| % 0x1_0000 && Truthful(history, messages, everSent)
      ensures Truthful(history + [Message(typ, body)], messages + [MessageItem(typ, body, number, epoch)], everSent)
    {
      SmallMod(|history|, 0x1_0000);
      RecentMessage(history, messages, Message(typ, body), MessageItem(typ, body, number, epoch));
      forall s | s in everSent
        ensures Honest(history + [Message(typ, body)], s)
      {
        HonestExtends(history, Message(typ, body), s);
      }
    }

    static lemma NextNumber(n: nat)
      ensures (n % 0x1_0000 + 1) % 0x1_0000 == (n + 1) % 0x1_0000
    {
    }

    method AddCcs() returns (ok: bool)
      requires Valid()
      modifies this
      ensures Valid() && history == old(history) && everSent == old(everSent)
      ensures ok == (old(complete) || |old(messages)| < MAX_FLIGHT)
      ensures messages == if ok then (if old(complete) then [] else old(messages)) + [CcsItem(epoch)] else old(messages)
    {
      if complete {
        Clear();
      }
      if |messages| >= MAX_FLIGHT {
        return false;
      }
      if !lost {
        FollowAppended(messages, CcsItem(epoch), ORIGIN, pass);
      }
      if |history| < 0x1_0000 {
        RecentCcs(history, messages, CcsItem(epoch));
      }
      messages := messages + [CcsItem(epoch)];
      ok := true;
    }

    /** `dtls1_set_write_state`. */
    method SetWriteState(cipher: Cipher)
      requires Valid()
      modifies this
      ensures Valid() && epoch == (old(epoch) + 1) % 0x1_0000 && current == cipher && last == old(current)
      ensures unchanged(`messages, `written, `offset, `history, `everSent, `pass, `lost)
    {
      epoch := (epoch + 1) % 0x1_0000;
      last := current;
      current := cipher;
    }

    /** `seal_next_message`: `s` is the record's contents, `used` the cipher it is sealed
        with, which is that of the epoch in which its message was added. */
    method SealNextMessage(maxOut: nat) returns (ret: SealResult, len: nat, ghost s: Sent, ghost used: Cipher)
      requires PosOk(messages, Position()) && written < |messages|
      modifies `offset
      ensures ret.SealError? || ret.NoProgress? ==> offset == old(offset)
      ensures ret.NoProgress? ==> TooSmall(maxOut)
      ensures ret.Partial? || ret.Success? ==> 0 < len <= maxOut
      ensures ret.Partial? ==> PosOk(messages, Position()) && old(offset) < offset
      ensures ret.Partial? ==> Advance(messages, Pos(written, old(offset)), s) == Some(Pos(written, offset))
      ensures ret.Partial? ==> s.SentPiece? && CipherFor(messages[written].epoch).Some?
      ensures ret.Partial? ==>
                |s.p.bytes| + HEADER_LENGTH + Overhead(CipherFor(messages[written].epoch).value) == maxOut
      ensures ret.Success? ==>
                Advance(messages, Pos(written, old(offset)), s) == Some(Pos(written + 1, 0)) && offset == 0
      ensures ret.Partial? || ret.Success? ==>
                || (messages[written].epoch == epoch && used == current)
                || (messages[written].epoch + 1 == epoch && used == last)
    {
      var msg := messages[written];
      s := SentCcs(0);
      len := 0;
      var cipher := current;
      if epoch >= 1 && msg.epoch == epoch - 1 {
        cipher := last;
      } else if msg.epoch != epoch {
        return SealError, len, s, cipher;
      }
      used := cipher;
      var overhead, prefix := Overhead(cipher), Prefix(cipher);
      var ok: bool;
      if msg.CcsItem? {
        if maxOut < 1 + overhead {
          return NoProgress, len, s, used;
        }
        ok, len := SealRecord(cipher, 1);
        return if ok then Success else SealError, len, SentCcs(msg.epoch), used;
      }
      if maxOut < HEADER_LENGTH + 1 + overhead || maxOut < prefix {
        return NoProgress, len, s, used;
      }
      var rest := |msg.body| - offset;
      var todo := rest;
      if todo > maxOut - HEADER_LENGTH - overhead {
        todo := maxOut - HEADER_LENGTH - overhead;
      }
      ok, len := SealRecord(cipher, HEADER_LENGTH + todo);
      s := SentPiece(PieceOf(msg, offset, todo), msg.epoch);
      if !ok {
        return SealError, len, s, used;
      }
      if todo == rest {
        offset := 0;
        return Success, len, s, used;
      }
      offset := offset + todo;
      ret := Partial;
    }

    /** `seal_next_packet`: `items` are the records of the packet.  After a failure the
        position stays where it got to. */
    method SealNextPacket(maxOut: nat) returns (ok: bool, packetLen: nat, ghost items: seq<Sent>, ghost failed: bool)
      requires Valid() && written < |messages|
      modifies `written, `offset
      ensures PosOk(messages, Position())
      ensures Follow(messages, old(Position()), items) == Some(Position())
      ensures items != [] ==> Later(old(Position()), Position())
      ensures items == [] ==> Position() == old(Position())
      ensures ok ==> 0 < packetLen <= maxOut && items != [] && !failed
      ensures ok && written < |messages| && offset == 0 ==> TooSmall(maxOut - packetLen)
      ensures !ok && !failed ==> items == [] && written < |messages| && TooSmall(maxOut)
    {
      ghost var from := Position();
      var total: nat, progress := 0, false;
      items, failed := [], false;
      ok, packetLen := false, 0;
      while written < |messages|
        invariant PosOk(messages, Position()) && Follow(messages, from, items) == Some(Position())
        invariant if progress then items != [] && Later(from, Position()) else items == [] && Position() == from
        invariant total <= maxOut && (progress <==> total > 0) && !failed
        decreases |messages| - written
      {
        ghost var s, used;
        ghost var before := items;
        var ret, len;
        ret, len, s, used := SealNextMessage(maxOut - total);
        if ret.SealError? {
          failed := true;
          return;
        }
        if ret.NoProgress? {
          break;
        }
        FollowOne(messages, from, items, s);
        items := items + [s];
        total := total + len;
        progress := true;
        if ret.Partial? {
          break;
        }
        written := written + 1;
      }
      ok, packetLen := progress, total;
    }

    /** `dtls1_update_mtu`: `queried` is what the transport answers. */
    method UpdateMtu(queried: int, noQuery: bool)
      modifies `mtu
      ensures mtu == if old(mtu) >= 228 || noQuery then old(mtu)
                     else if 228 <= queried <= 0x4000_0000 then queried else 1472
      ensures !noQuery ==> mtu >= 228
    {
      if mtu < MIN_MTU && !noQuery {
        if 0 <= queried <= 0x4000_0000 && queried >= MIN_MTU {
          mtu := queried;
        } else {
          mtu := DEFAULT_MTU;
        }
      }
    }

    /** `SSL_set_mtu`. */
    method SetMtu(newMtu: nat) returns (ok: bool)
      requires Valid()
      modifies `mtu
      ensures Valid() && ok == (newMtu >= 228) && mtu == if ok then newMtu else old(mtu)
    {
      ok := newMtu >= MIN_MTU;
      if ok {
        mtu := newMtu;
      }
    }

    /** `send_flight`.  `failed` tells that sealing failed, `small` that the MTU was too
        small to make progress; `sizes` are those of the packets written. */
    method SendFlight(queried: int, noQuery: bool)
      returns (ret: int, ghost failed: bool, ghost small: bool, ghost sizes: seq<nat>)
      requires Valid()
      modifies `mtu, `written, `offset, `pass, `everSent, `lost
      ensures Valid() && old(everSent) <= everSent
      ensures ret == 1 ==> written == |messages| && lost == old(lost)
      ensures !failed ==> lost == old(lost)
      ensures !old(lost) ==> Standing(lost)
      ensures small ==> written < |messages| && TooSmall(mtu)
      ensures Overhead(current) <= 215 && Overhead(last) <= 215 && mtu >= MIN_MTU ==> !small
      ensures forall n :: n in sizes ==> 0 < n <= mtu
      ensures !lost ==> old(pass) <= pass && forall s :: s in pass[|old(pass)|..] ==> s in everSent
    {
      failed, small, sizes := false, false, [];
      if shutdown {
        return -1, failed, small, sizes;
      }
      UpdateMtu(queried, noQuery);
      while written < |messages|
        invariant Valid() && old(everSent) <= everSent && old(pass) <= pass && lost == old(lost)
        invariant forall s :: s in pass[|old(pass)|..] ==> s in everSent
        invariant !failed && !small && forall n :: n in sizes ==> 0 < n <= mtu
        decreases |messages| - written, Unsent()
      {
        var packetLen;
        ghost var sent := pass;
        ret, packetLen, failed, small := SendPacket();
        assert pass[|old(pass)|..] == sent[|old(pass)|..] + pass[|sent|..];
        if ret <= 0 {
          return;
        }
        sizes := sizes + [packetLen];
      }
      var flushed: int := *;
      ret := if flushed <= 0 then -1 else 1;
    }

    /** What is left of the message at the position. */
    ghost function Unsent(): int
      reads this
    {
      if written < |messages| && messages[written].MessageItem? then |messages[written].body| - offset else 0
    }

    /** One turn of the loop of `send_flight`: a packet is sealed and written, or, when the
        transport does not take it, taken back. */
    method SendPacket() returns (ret: int, packetLen: nat, ghost failed: bool, ghost small: bool)
      requires Valid() && written < |messages|
      modifies `written, `offset, `pass, `everSent, `lost
      ensures Valid() && old(everSent) <= everSent && old(pass) <= pass
      ensures forall s :: s in pass[|old(pass)|..] ==> s in everSent
      ensures ret > 0 ==> Later(old(Position()), Position()) && lost == old(lost) && 0 < packetLen <= mtu
      ensures ret > 0 ==> !failed && !small
      ensures !failed ==> lost == old(lost)
      ensures !old(lost) ==> Standing(lost)
      ensures small ==> written < |messages| && TooSmall(mtu)
    {
      var oldWritten, oldOffset := written, offset;
      ghost var start := Position();
      small := false;
      var ok;
      ghost var items;
      ok, packetLen, items, failed := SealNextPacket(mtu);
      if !ok {
        small := !failed;
        lost := lost || items != [];
        return -1, packetLen, failed, small;
      }
      ret := *;
      if ret <= 0 {
        written, offset := oldWritten, oldOffset;
        return;
      }
      WritePacket(start, items);
    }

    /** The transport has taken a packet. */
    ghost method WritePacket(start: Pos, items: seq<Sent>)
      requires PosOk(messages, Position())
      requires !lost ==> Follow(messages, ORIGIN, pass) == Some(start)
      requires Follow(messages, start, items) == Some(Position())
      requires |messages| <= MAX_FLIGHT && writeSeq == |history| % 0x1_0000
      requires (hasReply ==> complete) && (|history| < 0x1_0000 ==> Truthful(history, messages, everSent))
      modifies `pass, `everSent
      ensures Valid() && pass == old(pass) + items && everSent == old(everSent) + items
    {
      if !lost {
        FollowTogether(messages, ORIGIN, pass, items);
      }
      if |history| < 0x1_0000 {
        FollowHonest(history, messages, start, items);
      }
      pass, everSent := pass + items, everSent + items;
    }

    /** `dtls1_flush_flight`. */
    method FlushFlight(queried: int, noQuery: bool) returns (ret: int, ghost failed: bool, ghost small: bool)
      requires Valid()
      modifies `complete, `mtu, `written, `offset, `pass, `everSent, `lost
      ensures Valid() && complete && old(everSent) <= everSent
      ensures !failed ==> lost == old(lost)
      ensures !old(lost) ==> Standing(lost)
      ensures ret == 1 && !lost ==> Follow(messages, ORIGIN, pass) == Some(Pos(|messages|, 0))
    {
      complete := true;
      ghost var sizes;
      ret, failed, small, sizes := SendFlight(queried, noQuery);
    }

    /** `dtls1_retransmit_outgoing_messages`: a successful one sends the whole flight. */
    method Retransmit(queried: int, noQuery: bool) returns (ret: int, ghost failed: bool, ghost small: bool)
      requires Valid()
      modifies `mtu, `written, `offset, `pass, `everSent, `lost
      ensures Valid() && old(everSent) <= everSent
      ensures !failed ==> !lost
      ensures Standing(lost)
      ensures ret == 1 ==> Follow(messages, ORIGIN, pass) == Some(Pos(|messages|, 0))
      ensures !lost ==> forall s :: s in pass ==> s in everSent
    {
      written, offset := 0, 0;
      pass, lost := [], false;
      ghost var sizes;
      ret, failed, small, sizes := SendFlight(queried, noQuery);
    }
  }
}
