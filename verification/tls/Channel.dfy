/**
 What the handshake state machines share: the current message, the handshake hash, and
 the operations that touch them.  `log` records what happened, for module `HandshakeFlow`
 to judge.
 */
module Channel {
  import opened Wrappers
  import opened HandshakeFlow

  /** `ssl_hs_wait_t`; `Stop` stands for entering TLS 1.3, which is not modelled. */
  datatype Wait =
    Ok | Error | Flush | ReadHello | ReadMessage | ReadCcs | CertVerify | X509Lookup | PrivateKey
    | IdLookup | EarlyReturn | CertSelection | Handoff | PendingSession | PendingTicket | Stop

  /** The waits at which a step gives up for now, to be run again from its start. */
  predicate Suspends(w: Wait) {
    w.ReadHello? || w.ReadMessage? || w.CertVerify? || w.X509Lookup? || w.PrivateKey? || w.IdLookup?
    || w.CertSelection? || w.Handoff? || w.PendingSession? || w.PendingTicket?
  }

  /** `ssl_verify_result_t`. */
  datatype Verified = Accepted | Refused | Retry

  /** A callback or a computation that may fail, or ask to be run again later. */
  method Attempt(retry: Wait) returns (w: Wait)
    ensures w == Ok || w == Error || w == retry
  {
    var failed: bool, later: bool := *, *;
    w := if later then retry else if failed then Error else Ok;
  }

  class Channel {
    const server: bool
    /** The MAC in a Finished, of the hashed messages and the sender. */
    const mac: (seq<Msg>, bool) -> nat
    var transcript: seq<Msg>
    var current: Option<Msg>
    /** A server has read its first record (`v2_hello_done`). */
    var v2Done: bool
    ghost var log: seq<Entry>
    /** The current message has been hashed and not yet dropped. */
    ghost var pending: bool
    /** How far the log has got in the protocol, and whether a client's key has come in. */
    ghost var flow: Flow
    ghost var keyHeld: bool

    /** The message that is in the hash and not yet in the log, if there is one.  A
        V2ClientHello is hashed when it arrives. */
    ghost function InHand(): Option<Msg>
      reads this
    {
      if pending && current.Some? && !current.value.isV2 then current else None
    }

    ghost predicate Valid()
      reads this
    {
      && (pending ==> current.Some?)
      && (current.Some? && current.value.isV2 ==> server && flow.GotHello?)
      && (server && (current.Some? || !flow.Start?) ==> v2Done)
      && Kept(server, mac, log, flow, keyHeld, transcript, InHand())
    }

    ghost predicate InV2Hello()
      reads this
    {
      current.Some? && current.value.isV2
    }

    ghost predicate Idle()
      reads this
    {
      Valid() && !pending
    }

    constructor (server: bool, mac: (seq<Msg>, bool) -> nat)
      ensures Idle() && log == [] && flow == Start && this.server == server && this.mac == mac && current.None?
    {
      this.server, this.mac := server, mac;
      transcript, current, v2Done := [], None, false;
      log, pending, flow, keyHeld := [], false, Start, false;
      KeptAtStart(server, mac);
    }

    /** Exactly one thing happened. */
    twostate predicate Logged(k: Kind)
      reads this
    {
      && |log| == |old(log)| + 1 && log[..|old(log)|] == old(log) && KindOf(log[|old(log)|]) == k
      && Moves(server, old(flow), k, flow) && keyHeld == (old(keyHeld) || k.PeerKeyKind?)
    }

    /** Nothing happened, and the hash is what it was. */
    twostate predicate Quiet()
      reads this
    {
      unchanged(`log) && unchanged(`transcript)
    }

    ghost method Note(e: Entry)
      requires Valid() && !InV2Hello() && (server ==> !flow.Start?) && !e.Sent? && !e.Got? && !e.FinishedVerified?
      modifies `log, `flow, `keyHeld
      ensures Valid() && log == old(log) + [e] && Logged(KindOf(e))
    {
      var q := KeptNoting(server, mac, log, flow, keyHeld, transcript, InHand(), e);
      log, flow, keyHeld := log + [e], q, keyHeld || e.PeerKey?;
    }

    /** `add_message`: a message of our own enters the hash as it is queued. */
    method Add(typ: MsgType)
      requires Idle() && !InV2Hello() && (server ==> !flow.Start?) && !typ.Finished?
      modifies this
      ensures Idle() && current == old(current)
      ensures Logged(SendKind(typ)) && transcript == old(transcript) + [log[|old(log)|].m]
    {
      var raw: nat := *;
      Queue(Msg(typ, raw, false));
    }

    /** `ssl_send_finished`. */
    method AddFinished()
      requires Idle() && !InV2Hello() && (server ==> !flow.Start?)
      modifies this
      ensures Idle() && current == old(current)
      ensures Logged(SendKind(Finished))
    {
      Queue(Msg(Finished, mac(transcript, server), false));
    }

    /** What both do with the message. */
    method Queue(msg: Msg)
      requires Idle() && !InV2Hello() && (server ==> !flow.Start?)
      requires msg.typ.Finished? ==> msg.raw == mac(transcript, server)
      modifies this
      ensures Idle() && current == old(current) && log == old(log) + [Sent(msg)]
      ensures Logged(SendKind(msg.typ)) && transcript == old(transcript) + [msg]
    {
      ghost var q := KeptAppending(server, mac, log, flow, keyHeld, transcript, Sent(msg));
      transcript := transcript + [msg];
      log, flow := log + [Sent(msg)], q;
    }

    /** `ssl_hash_message`. */
    method Hash()
      requires Idle() && current.Some?
      modifies `transcript, `pending
      ensures Valid() && pending
      ensures transcript == if current.value.isV2 then old(transcript) else old(transcript) + [current.value]
    {
      pending := true;
      if !current.value.isV2 {
        KeptHashing(server, mac, log, flow, keyHeld, transcript, current.value);
        transcript := transcript + [current.value];
      }
    }

    /** `next_message`; another message may already be there. */
    method Next()
      requires Valid() && pending && current.value.typ != HelloVerifyRequest
      modifies this
      ensures Idle() && !InV2Hello() && transcript == old(transcript)
      ensures if old(current).value.isV2 then log == old(log) && flow == old(flow) && keyHeld == old(keyHeld)
              else Logged(GetKind(old(current).value.typ)) && log[|old(log)|].m == old(current).value
    {
      if !current.value.isV2 {
        ghost var q := KeptDropping(server, mac, log, flow, keyHeld, transcript, current.value);
        log, flow := log + [Got(current.value)], q;
      }
      pending := false;
      current := PickMessage();
    }

    /** A message of a given type, as most steps read one: its type is checked, it is
        hashed, it is parsed, which may fail, and it is dropped. */
    method Read(typ: MsgType) returns (ok: bool)
      requires Idle() && current.Some? && !InV2Hello() && typ != HelloVerifyRequest
      modifies this
      ensures ok ==> Idle() && !InV2Hello() && Logged(GetKind(typ))
      ensures ok ==> old(current).value.typ == typ && transcript == old(transcript) + [old(current).value]
    {
      if current.value.typ != typ {
        return false;
      }
      Hash();
      var failed: bool := *;
      if failed {
        return false;
      }
      Next();
      ok := true;
    }

    /** A message that has been found good is hashed and dropped. */
    method Take()
      requires Idle() && current.Some? && !InV2Hello() && current.value.typ != HelloVerifyRequest
      modifies this
      ensures Idle() && !InV2Hello() && Logged(GetKind(old(current).value.typ))
      ensures transcript == old(transcript) + [old(current).value]
    {
      Hash();
      Next();
    }

    /** The check in `ssl_get_finished`: the expected MAC is taken before the message
        enters the hash. */
    method CheckFinished() returns (ok: bool)
      requires Idle() && current.Some? && !flow.Start?
      modifies this
      ensures ok ==> Valid() && pending && current == old(current)
      ensures ok ==> !current.value.isV2 && current.value.typ == Finished
      ensures ok ==> Logged(FinishedVerifiedKind) && log[|old(log)|] == FinishedVerified(mac(old(transcript), !server))
    {
      if current.value.typ != Finished || current.value.isV2 {
        return false;
      }
      var finished := mac(transcript, !server);
      ghost var q := KeptAppending(server, mac, log, flow, keyHeld, transcript, FinishedVerified(finished));
      KeptHashing(server, mac, log + [FinishedVerified(finished)], q, keyHeld, transcript, current.value);
      Hash();
      if current.value.raw != finished {
        return false;
      }
      log, flow := log + [FinishedVerified(finished)], q;
      ok := true;
    }

    /** `ssl_get_finished`, once there is a message. */
    method GetFinished() returns (ok: bool, ghost mid: Flow)
      requires Idle() && current.Some? && !flow.Start?
      modifies this
      ensures ok ==> Idle() && !old(current).value.isV2
      ensures ok ==> old(log) < log && log[|old(log)|] == FinishedVerified(mac(old(transcript), !server))
      ensures ok ==> |log| == |old(log)| + 2 && keyHeld == old(keyHeld)
      ensures ok ==> Moves(server, old(flow), FinishedVerifiedKind, mid) && Moves(server, mid, GetKind(Finished), flow)
    {
      ok := CheckFinished();
      mid := flow;
      if ok {
        Next();
      }
    }

    /** `ssl_verify_peer_cert`: what it accepts, and nothing else, counts as verified. */
    method VerifyPeerCert() returns (r: Verified)
      requires Idle() && !InV2Hello() && !flow.Start?
      modifies this
      ensures Idle() && current == old(current) && unchanged(`transcript)
      ensures if r.Accepted? then Logged(CertVerifiedKind) else unchanged(this)
    {
      r := *;
      if r.Accepted? {
        Note(CertVerified);
      }
    }

    /** `ssl_public_key_verify`, on a CertificateVerify or a ServerKeyExchange. */
    method VerifySignature() returns (good: bool)
      requires Valid() && !InV2Hello() && !flow.Start?
      modifies this
      ensures Valid() && pending == old(pending) && current == old(current) && transcript == old(transcript)
      ensures if good then Logged(SignatureVerifiedKind)
              else log == old(log) && flow == old(flow) && keyHeld == old(keyHeld)
    {
      good := *;
      if good {
        Note(SignatureVerified);
      }
    }

    /** Dropping a HelloVerifyRequest, which starts the hash afresh. */
    method Restart()
      requires Idle() && !server && current.Some? && current.value.typ == HelloVerifyRequest
      modifies this
      ensures Idle() && transcript == [] && Logged(GetKind(HelloVerifyRequest))
    {
      ghost var q := KeptAppending(server, mac, log, flow, keyHeld, transcript, Got(current.value));
      log, flow := log + [Got(current.value)], q;
      current := PickMessage();
      transcript := [];
    }

    /** Some message, or none, as the transport pleases. */
    method PickMessage() returns (m: Option<Msg>)
      ensures m.Some? ==> !m.value.isV2
    {
      var some: bool, typ: MsgType, raw: nat := *, *, *;
      m := if some then Some(Msg(typ, raw, false)) else None;
    }

    /** `open_handshake`.  Only the very first message to a server can be in SSL 2.0
        format. */
    method Receive()
      requires Idle() && current.None?
      modifies this
      ensures Idle()
      ensures log == old(log) || (server && old(log) == [] && current.Some? && current.value.isV2
                                  && current.value.typ == ClientHello && log == [Got(current.value)])
      ensures keyHeld == old(keyHeld)
      ensures log == old(log) ==> flow == old(flow) && (current.Some? ==> !current.value.isV2)
      ensures log != old(log) ==> flow.GotHello? && old(flow).Start?
    {
      var v2: bool := *;
      if server && !v2Done && v2 {
        var raw: nat := *;
        var m := Msg(ClientHello, raw, true);
        ghost var q := KeptArriving(server, mac, log, flow, keyHeld, transcript, m);
        current, transcript := Some(m), transcript + [m];
        log, flow := log + [Got(m)], q;
      } else {
        current := PickMessage();
      }
      v2Done := true;
    }
  }
}
