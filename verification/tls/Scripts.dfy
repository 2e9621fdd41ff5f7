/**
 Which sequences of events complete a handshake, written out: figures 1 and 2 of RFC 5246,
 with the choices the two sides have.  Modules `ClientOrder` and `ServerOrder` prove that the
 order of module `HandshakeFlow` lets exactly these through to the end.
 */
module Scripts {
  import opened HandshakeFlow

  /** The choices: a HelloVerifyRequest; a session resumed; a certificate cipher and a
      CertificateStatus; a ServerKeyExchange; a CertificateRequest, answered by a Certificate,
      and that by a CertificateVerify; NextProto, Channel ID and a NewSessionTicket. */
  datatype Script = Script(retry: bool, resumed: bool, cert: bool, status: bool, key: bool, asked: bool,
                           answered: bool, verify: bool, proto: bool, id: bool, ticket: bool)

  /** Only certificate ciphers ask for the client's certificate. */
  predicate Consistent(o: Script) {
    (o.asked ==> o.cert) && (o.answered ==> o.asked) && (o.verify ==> o.answered)
  }

  /** `k` if it is chosen, and what comes then. */
  function Opt(chosen: bool, k: Kind, next: seq<Kind>): seq<Kind> {
    if chosen then [k] + next else next
  }

  // ---------- the client; each part takes what comes after it ----------

  function ClientHellos(retry: bool, resumed: bool, cert: bool, ks: seq<Kind>): seq<Kind> {
    [SendKind(ClientHello)]
    + Opt(retry, GetKind(HelloVerifyRequest), Opt(retry, SendKind(ClientHello),
          [GetKind(ServerHello)] + ([NegotiatedKind(resumed, cert)] + ks)))
  }

  function CertificateRead(status: bool, ks: seq<Kind>): seq<Kind> {
    [GetKind(Certificate)] + Opt(status, GetKind(CertificateStatus), [CertVerifiedKind] + ks)
  }

  /** The signature on the server's key is checked before the key is taken. */
  function ServerKeyRead(cert: bool, key: bool, asked: bool, ks: seq<Kind>): seq<Kind> {
    Opt(key && cert, SignatureVerifiedKind, Opt(key, GetKind(ServerKeyExchange),
        Opt(asked, GetKind(CertificateRequest), [GetKind(ServerHelloDone)] + ks)))
  }

  function ClientKeys(answered: bool, verify: bool, ks: seq<Kind>): seq<Kind> {
    Opt(answered, SendKind(Certificate),
        [SendKind(ClientKeyExchange)] + Opt(verify, SendKind(CertificateVerify), [SentCcsKind] + ks))
  }

  function ClientFinal(proto: bool, id: bool, ks: seq<Kind>): seq<Kind> {
    Opt(proto, SendKind(NextProto), Opt(id, SendKind(ChannelId), [SendKind(Finished)] + ks))
  }

  function ServerFinalRead(ticket: bool, ks: seq<Kind>): seq<Kind> {
    Opt(ticket, GetKind(NewSessionTicket), [GotCcsKind] + ([FinishedVerifiedKind] + ([GetKind(Finished)] + ks)))
  }

  function ClientScript(o: Script): seq<Kind> {
    ClientHellos(o.retry, o.resumed, o.cert, if o.resumed then ClientResumed(o) else ClientFull(o))
  }

  function ClientFull(o: Script): seq<Kind> {
    if o.cert then CertificateRead(o.status, AfterCertificate(o)) else AfterCertificate(o)
  }

  function AfterCertificate(o: Script): seq<Kind> {
    ServerKeyRead(o.cert, o.key, o.asked,
      ClientKeys(o.answered, o.verify, ClientFinal(o.proto, o.id, ServerFinalRead(o.ticket, []))))
  }

  function ClientResumed(o: Script): seq<Kind> {
    ServerFinalRead(o.ticket, [SentCcsKind] + ClientFinal(o.proto, o.id, []))
  }

  // ---------- the server ----------

  function ServerHellos(resumed: bool, cert: bool, ks: seq<Kind>): seq<Kind> {
    [GetKind(ClientHello)] + ([NegotiatedKind(resumed, cert)] + ([SendKind(ServerHello)] + ks))
  }

  function CertificateSent(status: bool, ks: seq<Kind>): seq<Kind> {
    [SendKind(Certificate)] + Opt(status, SendKind(CertificateStatus), ks)
  }

  function ServerKeySent(key: bool, asked: bool, ks: seq<Kind>): seq<Kind> {
    Opt(key, SendKind(ServerKeyExchange), Opt(asked, SendKind(CertificateRequest), [SendKind(ServerHelloDone)] + ks))
  }

  /** A client that sends a key proves that it holds it. */
  function ClientKeysRead(answered: bool, verify: bool, ks: seq<Kind>): seq<Kind> {
    Opt(answered, GetKind(Certificate), Opt(verify, PeerKeyKind, Opt(verify, CertVerifiedKind,
        [GetKind(ClientKeyExchange)]
        + Opt(verify, SignatureVerifiedKind, Opt(verify, GetKind(CertificateVerify), [GotCcsKind] + ks)))))
  }

  function ClientFinalRead(proto: bool, id: bool, ks: seq<Kind>): seq<Kind> {
    Opt(proto, GetKind(NextProto), Opt(id, GetKind(ChannelId), [FinishedVerifiedKind] + ([GetKind(Finished)] + ks)))
  }

  function ServerFinal(ticket: bool, ks: seq<Kind>): seq<Kind> {
    Opt(ticket, SendKind(NewSessionTicket), [SentCcsKind] + ([SendKind(Finished)] + ks))
  }

  function ServerScript(o: Script): seq<Kind> {
    ServerHellos(o.resumed, o.cert, if o.resumed then ServerResumed(o) else ServerFull(o))
  }

  function ServerFull(o: Script): seq<Kind> {
    if o.cert then CertificateSent(o.status, AfterSent(o)) else AfterSent(o)
  }

  function AfterSent(o: Script): seq<Kind> {
    ServerKeySent(o.key, o.asked,
      ClientKeysRead(o.answered, o.verify, ClientFinalRead(o.proto, o.id, ServerFinal(o.ticket, []))))
  }

  function ServerResumed(o: Script): seq<Kind> {
    ServerFinal(o.ticket, [GotCcsKind] + ClientFinalRead(o.proto, o.id, []))
  }

  // ---------- runs over kinds ----------

  /** Where the order leads from `q`. */
  function Reach(server: bool, q: Flow, ks: seq<Kind>): Flow
    decreases |ks|
  {
    if ks == [] then q else Reach(server, FlowNext(server, q, ks[0]), ks[1..])
  }

  function Kinds(log: seq<Entry>): (ks: seq<Kind>)
    ensures |ks| == |log| && forall i :: 0 <= i < |ks| ==> ks[i] == KindOf(log[i])
  {
    seq(|log|, i requires 0 <= i < |log| => KindOf(log[i]))
  }

  lemma {:induction false} ReachOneMore(server: bool, q: Flow, ks: seq<Kind>, k: Kind)
    ensures Reach(server, q, ks + [k]) == FlowNext(server, Reach(server, q, ks), k)
    decreases |ks|
  {
    if ks == [] {
      assert [k][1..] == [];
    } else {
      assert (ks + [k])[1..] == ks[1..] + [k];
      ReachOneMore(server, FlowNext(server, q, ks[0]), ks[1..], k);
    }
  }

  lemma KindsOneMore(log: seq<Entry>)
    requires log != []
    ensures Kinds(log) == Kinds(log[..|log| - 1]) + [KindOf(log[|log| - 1])]
  {
  }

  lemma {:induction false} ReachIsFlow(server: bool, log: seq<Entry>)
    ensures Reach(server, Start, Kinds(log)) == FlowOf(server, log)
    decreases |log|
  {
    if log != [] {
      var before, e := log[..|log| - 1], log[|log| - 1];
      KindsOneMore(log);
      ReachOneMore(server, Start, Kinds(before), KindOf(e));
      ReachIsFlow(server, before);
    }
  }

  lemma {:induction false} BadForGood(server: bool, ks: seq<Kind>)
    ensures Reach(server, Bad, ks) == Bad
    decreases |ks|
  {
    if ks != [] {
      BadForGood(server, ks[1..]);
    }
  }

  /** `ks` leads from `q` to the end.  Unfolded only in proofs that mention `Peek`. */
  ghost predicate Ends(server: bool, q: Flow, ks: seq<Kind>) {
    forall n: nat {:trigger Peek(n)} :: Peek(n) ==> Reach(server, q, ks).Done?
  }

  lemma EndsDone(server: bool, q: Flow, ks: seq<Kind>)
    ensures Ends(server, q, ks) <==> Reach(server, q, ks).Done?
  {
    assert Peek(0);
  }

  /** The first step of a run that completes. */
  lemma First(server: bool, q: Flow, ks: seq<Kind>) returns (k: Kind, rest: seq<Kind>)
    requires Ends(server, q, ks) && !q.Done?
    ensures ks == [k] + rest
    ensures !FlowNext(server, q, k).Bad? && Ends(server, FlowNext(server, q, k), rest)
  {
    EndsDone(server, q, ks);
    k, rest := ks[0], ks[1..];
    BadForGood(server, rest);
    EndsDone(server, FlowNext(server, q, k), rest);
  }

  lemma Last(server: bool, ks: seq<Kind>)
    requires Ends(server, Done, ks)
    ensures ks == []
  {
    EndsDone(server, Done, ks);
    if ks != [] {
      BadForGood(server, ks[1..]);
    }
  }

  lemma NothingLeft(server: bool)
    ensures Ends(server, Done, [])
  {
    EndsDone(server, Done, []);
  }

  /** A first step, and what follows it. */
  lemma Step(server: bool, q: Flow, k: Kind, rest: seq<Kind>)
    ensures Ends(server, q, [k] + rest) <==> Ends(server, FlowNext(server, q, k), rest)
  {
    assert ([k] + rest)[1..] == rest;
    EndsDone(server, q, [k] + rest);
    EndsDone(server, FlowNext(server, q, k), rest);
  }

  // ---------- the same, for one side ----------

  lemma ClientFirst(q: Flow, ks: seq<Kind>) returns (k: Kind, rest: seq<Kind>)
    requires Ends(false, q, ks) && !q.Done?
    ensures ks == [k] + rest
    ensures !ClientNext(q, k).Bad? && Ends(false, ClientNext(q, k), rest)
  {
    k, rest := First(false, q, ks);
  }

  lemma ClientStep(q: Flow, k: Kind, rest: seq<Kind>)
    ensures Ends(false, q, [k] + rest) <==> Ends(false, ClientNext(q, k), rest)
  {
    Step(false, q, k, rest);
  }

  lemma ServerFirst(q: Flow, ks: seq<Kind>) returns (k: Kind, rest: seq<Kind>)
    requires Ends(true, q, ks) && !q.Done?
    ensures ks == [k] + rest
    ensures !ServerNext(q, k).Bad? && Ends(true, ServerNext(q, k), rest)
  {
    k, rest := First(true, q, ks);
  }

  lemma ServerStep(q: Flow, k: Kind, rest: seq<Kind>)
    ensures Ends(true, q, [k] + rest) <==> Ends(true, ServerNext(q, k), rest)
  {
    Step(true, q, k, rest);
  }
}
