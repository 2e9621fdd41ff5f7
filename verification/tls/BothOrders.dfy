/**
 The two orders fit together.  Leaving aside what each side does on its own, whatever exchange
 of messages completes a handshake for one side completes it for the other, seen from there.
 The server sends no HelloVerifyRequest.
 */
module BothOrders {
  import opened HandshakeFlow
  import opened Scripts
  import ClientOrder
  import ServerOrder

  /** What the peer sees of an event, if anything. */
  function Seen(k: Kind): seq<Kind> {
    match k
    case SendKind(typ) => [GetKind(typ)]
    case GetKind(typ) => [SendKind(typ)]
    case SentCcsKind => [GotCcsKind]
    case GotCcsKind => [SentCcsKind]
    case _ => []
  }

  /** What the peer sees of it all. */
  function Mirrored(ks: seq<Kind>): seq<Kind> {
    if ks == [] then [] else Seen(ks[0]) + Mirrored(ks[1..])
  }

  predicate OnWire(k: Kind) {
    k.SendKind? || k.GetKind? || k.SentCcsKind? || k.GotCcsKind?
  }

  /** What passes between the two. */
  function Wire(ks: seq<Kind>): seq<Kind> {
    if ks == [] then [] else (if OnWire(ks[0]) then [ks[0]] else []) + Wire(ks[1..])
  }

  /** The client's events `a` are, seen from the server, its events `b`. */
  ghost predicate Match(a: seq<Kind>, b: seq<Kind>) {
    forall n: nat {:trigger Peek(n)} :: Peek(n) ==> Mirrored(a) == Wire(b)
  }

  lemma MatchMeans(a: seq<Kind>, b: seq<Kind>)
    ensures Match(a, b) <==> Mirrored(a) == Wire(b)
  {
    assert Peek(0);
  }

  /** One message more in front. */
  lemma Both(k: Kind, k': Kind, a: seq<Kind>, b: seq<Kind>)
    requires Match(a, b) && OnWire(k') && Seen(k) == [k']
    ensures Match([k] + a, [k'] + b)
  {
    MatchMeans(a, b);
    MatchMeans([k] + a, [k'] + b);
    assert ([k] + a)[1..] == a && ([k'] + b)[1..] == b;
  }

  lemma BothOpt(chosen: bool, k: Kind, k': Kind, a: seq<Kind>, b: seq<Kind>)
    requires Match(a, b) && OnWire(k') && Seen(k) == [k']
    ensures Match(Opt(chosen, k, a), Opt(chosen, k', b))
  {
    if chosen {
      Both(k, k', a, b);
    }
  }

  /** Something only the client does. */
  lemma OnlyClient(chosen: bool, k: Kind, a: seq<Kind>, b: seq<Kind>)
    requires Match(a, b) && !OnWire(k)
    ensures Match(Opt(chosen, k, a), b)
  {
    if chosen {
      MatchMeans(a, b);
      MatchMeans([k] + a, b);
      assert ([k] + a)[1..] == a;
    }
  }

  lemma OnlyServer(chosen: bool, k: Kind, a: seq<Kind>, b: seq<Kind>)
    requires Match(a, b) && !OnWire(k)
    ensures Match(a, Opt(chosen, k, b))
  {
    if chosen {
      MatchMeans(a, b);
      MatchMeans(a, [k] + b);
      assert ([k] + b)[1..] == b;
    }
  }

  // ---------- part by part ----------

  lemma HellosMatch(resumed: bool, cert: bool, a: seq<Kind>, b: seq<Kind>)
    requires Match(a, b)
    ensures Match(ClientHellos(false, resumed, cert, a), ServerHellos(resumed, cert, b))
  {
    var k := NegotiatedKind(resumed, cert);
    var a1, b1 := [GetKind(ServerHello)] + ([k] + a), [SendKind(ServerHello)] + b;
    OnlyClient(true, k, a, b);
    Both(GetKind(ServerHello), SendKind(ServerHello), [k] + a, b);
    OnlyServer(true, k, a1, b1);
    Both(SendKind(ClientHello), GetKind(ClientHello), a1, [k] + b1);
  }

  lemma CertificateMatch(status: bool, a: seq<Kind>, b: seq<Kind>)
    requires Match(a, b)
    ensures Match(CertificateRead(status, a), CertificateSent(status, b))
  {
    OnlyClient(true, CertVerifiedKind, a, b);
    BothOpt(status, GetKind(CertificateStatus), SendKind(CertificateStatus), [CertVerifiedKind] + a, b);
    Both(GetKind(Certificate), SendKind(Certificate), Opt(status, GetKind(CertificateStatus), [CertVerifiedKind] + a),
         Opt(status, SendKind(CertificateStatus), b));
  }

  lemma ServerKeyMatch(cert: bool, key: bool, asked: bool, a: seq<Kind>, b: seq<Kind>)
    requires Match(a, b)
    ensures Match(ServerKeyRead(cert, key, asked, a), ServerKeySent(key, asked, b))
  {
    var a1, b1 := [GetKind(ServerHelloDone)] + a, [SendKind(ServerHelloDone)] + b;
    var a2, b2 := Opt(asked, GetKind(CertificateRequest), a1), Opt(asked, SendKind(CertificateRequest), b1);
    Both(GetKind(ServerHelloDone), SendKind(ServerHelloDone), a, b);
    BothOpt(asked, GetKind(CertificateRequest), SendKind(CertificateRequest), a1, b1);
    BothOpt(key, GetKind(ServerKeyExchange), SendKind(ServerKeyExchange), a2, b2);
    OnlyClient(key && cert, SignatureVerifiedKind, Opt(key, GetKind(ServerKeyExchange), a2),
               Opt(key, SendKind(ServerKeyExchange), b2));
  }

  lemma ClientKeysMatch(answered: bool, verify: bool, a: seq<Kind>, b: seq<Kind>)
    requires Match(a, b)
    ensures Match(ClientKeys(answered, verify, a), ClientKeysRead(answered, verify, b))
  {
    var a1, b1 := [SentCcsKind] + a, [GotCcsKind] + b;
    var a2, b2 := Opt(verify, SendKind(CertificateVerify), a1), Opt(verify, GetKind(CertificateVerify), b1);
    var b3 := Opt(verify, SignatureVerifiedKind, b2);
    var a3, b4 := [SendKind(ClientKeyExchange)] + a2, [GetKind(ClientKeyExchange)] + b3;
    var b5 := Opt(verify, CertVerifiedKind, b4);
    Both(SentCcsKind, GotCcsKind, a, b);
    BothOpt(verify, SendKind(CertificateVerify), GetKind(CertificateVerify), a1, b1);
    OnlyServer(verify, SignatureVerifiedKind, a2, b2);
    Both(SendKind(ClientKeyExchange), GetKind(ClientKeyExchange), a2, b3);
    OnlyServer(verify, CertVerifiedKind, a3, b4);
    OnlyServer(verify, PeerKeyKind, a3, b5);
    BothOpt(answered, SendKind(Certificate), GetKind(Certificate), a3, Opt(verify, PeerKeyKind, b5));
  }

  lemma ClientFinalMatch(proto: bool, id: bool, a: seq<Kind>, b: seq<Kind>)
    requires Match(a, b)
    ensures Match(ClientFinal(proto, id, a), ClientFinalRead(proto, id, b))
  {
    var a1, b1 := [SendKind(Finished)] + a, [GetKind(Finished)] + b;
    var b2 := [FinishedVerifiedKind] + b1;
    Both(SendKind(Finished), GetKind(Finished), a, b);
    OnlyServer(true, FinishedVerifiedKind, a1, b1);
    BothOpt(id, SendKind(ChannelId), GetKind(ChannelId), a1, b2);
    BothOpt(proto, SendKind(NextProto), GetKind(NextProto), Opt(id, SendKind(ChannelId), a1),
            Opt(id, GetKind(ChannelId), b2));
  }

  lemma ServerFinalMatch(ticket: bool, a: seq<Kind>, b: seq<Kind>)
    requires Match(a, b)
    ensures Match(ServerFinalRead(ticket, a), ServerFinal(ticket, b))
  {
    var a1, b1 := [GetKind(Finished)] + a, [SendKind(Finished)] + b;
    var a2 := [FinishedVerifiedKind] + a1;
    Both(GetKind(Finished), SendKind(Finished), a, b);
    OnlyClient(true, FinishedVerifiedKind, a1, b1);
    Both(GotCcsKind, SentCcsKind, a2, b1);
    BothOpt(ticket, GetKind(NewSessionTicket), SendKind(NewSessionTicket), [GotCcsKind] + a2, [SentCcsKind] + b1);
  }

  lemma ResumedMatch(o: Script)
    ensures Match(ClientResumed(o), ServerResumed(o))
  {
    var a, b := ClientFinal(o.proto, o.id, []), ClientFinalRead(o.proto, o.id, []);
    MatchMeans([], []);
    ClientFinalMatch(o.proto, o.id, [], []);
    Both(SentCcsKind, GotCcsKind, a, b);
    ServerFinalMatch(o.ticket, [SentCcsKind] + a, [GotCcsKind] + b);
  }

  lemma FullMatch(o: Script)
    ensures Match(ClientFull(o), ServerFull(o))
  {
    var a1, b1 := ServerFinalRead(o.ticket, []), ServerFinal(o.ticket, []);
    var a2, b2 := ClientFinal(o.proto, o.id, a1), ClientFinalRead(o.proto, o.id, b1);
    MatchMeans([], []);
    ServerFinalMatch(o.ticket, [], []);
    ClientFinalMatch(o.proto, o.id, a1, b1);
    ClientKeysMatch(o.answered, o.verify, a2, b2);
    ServerKeyMatch(o.cert, o.key, o.asked, ClientKeys(o.answered, o.verify, a2),
                   ClientKeysRead(o.answered, o.verify, b2));
    if o.cert {
      CertificateMatch(o.status, AfterCertificate(o), AfterSent(o));
    }
  }

  /** With the same choices, and without a HelloVerifyRequest, the two scripts are one
      conversation. */
  lemma ScriptsMatch(o: Script)
    requires !o.retry
    ensures Mirrored(ClientScript(o)) == Wire(ServerScript(o))
  {
    if o.resumed {
      ResumedMatch(o);
    } else {
      FullMatch(o);
    }
    HellosMatch(o.resumed, o.cert, if o.resumed then ClientResumed(o) else ClientFull(o),
                if o.resumed then ServerResumed(o) else ServerFull(o));
    MatchMeans(ClientScript(o), ServerScript(o));
  }

  // ---------- what completes one side completes the other ----------

  predicate Retries(log: seq<Entry>) {
    exists i :: 0 <= i < |log| && KindOf(log[i]) == GetKind(HelloVerifyRequest)
  }

  lemma RetryInLog(log: seq<Entry>, o: Script)
    requires Kinds(log) == ClientScript(o) && o.retry
    ensures Retries(log)
  {
    assert KindOf(log[1]) == Kinds(log)[1] == GetKind(HelloVerifyRequest);
  }

  /** The outcome of the negotiation is the client's third event and the server's second. */
  lemma SameOutcome(o: Script)
    requires !o.retry
    ensures |ClientScript(o)| > 2 && ClientScript(o)[2] == NegotiatedKind(o.resumed, o.cert)
    ensures |ServerScript(o)| > 1 && ServerScript(o)[1] == NegotiatedKind(o.resumed, o.cert)
  {
  }

  /** A server can complete the same exchange that completed a client's handshake, and with
      the same outcome of the negotiation. */
  lemma ServerFollows(log: seq<Entry>) returns (ks: seq<Kind>)
    requires FlowOf(false, log).Done? && !Retries(log)
    ensures Reach(true, Start, ks).Done? && Wire(ks) == Mirrored(Kinds(log))
    ensures |ks| > 1 && |log| > 2 && ks[1] == KindOf(log[2])
  {
    ClientOrder.Exactly(log);
    var o :| Consistent(o) && Kinds(log) == ClientScript(o);
    if o.retry {
      RetryInLog(log, o);
    }
    ks := Answering(o);
    SameOutcome(o);
  }

  lemma Answering(o: Script) returns (ks: seq<Kind>)
    requires Consistent(o) && !o.retry
    ensures ks == ServerScript(o) && Reach(true, Start, ks).Done? && Wire(ks) == Mirrored(ClientScript(o))
  {
    ks := ServerScript(o);
    ServerOrder.ServerEnds(o);
    EndsDone(true, Start, ks);
    ScriptsMatch(o);
  }

  /** And a client the one that completed a server's. */
  lemma ClientFollows(log: seq<Entry>) returns (ks: seq<Kind>)
    requires FlowOf(true, log).Done?
    ensures Reach(false, Start, ks).Done? && Mirrored(ks) == Wire(Kinds(log))
    ensures |ks| > 2 && |log| > 1 && ks[2] == KindOf(log[1])
  {
    ServerOrder.Exactly(log);
    var o :| Consistent(o) && Kinds(log) == ServerScript(o);
    SameServer(o);
    ks := Asking(o.(retry := false));
    SameOutcome(o.(retry := false));
  }

  lemma Asking(o: Script) returns (ks: seq<Kind>)
    requires Consistent(o) && !o.retry
    ensures ks == ClientScript(o) && Reach(false, Start, ks).Done? && Mirrored(ks) == Wire(ServerScript(o))
  {
    ks := ClientScript(o);
    ClientOrder.ClientEnds(o);
    EndsDone(false, Start, ks);
    ScriptsMatch(o);
  }

  lemma SameServer(o: Script)
    ensures ServerScript(o.(retry := false)) == ServerScript(o)
  {
  }
}
