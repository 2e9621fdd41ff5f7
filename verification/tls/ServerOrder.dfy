/**
 The logs of a complete server handshake are exactly the server's scripts.
 */
module ServerOrder {
  import opened HandshakeFlow
  import opened Scripts

  // ---------- every complete run is a script ----------

  function AfterHellos(resumed: bool, cert: bool): Flow {
    if resumed then WillTicket(true) else if cert then WillCert else WillKey(false)
  }

  lemma HellosRun(ks: seq<Kind>) returns (resumed: bool, cert: bool, rest: seq<Kind>)
    requires Ends(true, Start, ks)
    ensures ks == ServerHellos(resumed, cert, rest) && Ends(true, AfterHellos(resumed, cert), rest)
  {
    var k;
    k, rest := ServerFirst(Start, ks);
    k, rest := ServerFirst(GotHello, rest);
    resumed, cert := k.resumed, k.cert;
    k, rest := ServerFirst(WillAccept(resumed, cert), rest);
  }

  lemma CertificateRun(ks: seq<Kind>) returns (status: bool, rest: seq<Kind>)
    requires Ends(true, WillCert, ks)
    ensures ks == CertificateSent(status, rest) && Ends(true, WillKey(true), rest)
  {
    var k, others;
    k, rest := ServerFirst(WillCert, ks);
    k, others := ServerFirst(WillStatus, rest);
    status := k.typ.CertificateStatus?;
    if status {
      rest := others;
    } else {
      ServerStep(WillKey(true), k, others);
    }
  }

  lemma ServerKeyRun(cert: bool, ks: seq<Kind>) returns (key: bool, asked: bool, rest: seq<Kind>)
    requires Ends(true, WillKey(cert), ks)
    ensures ks == ServerKeySent(key, asked, rest) && (asked ==> cert) && Ends(true, Await(asked), rest)
  {
    var k;
    k, rest := ServerFirst(WillKey(cert), ks);
    key := k.typ.ServerKeyExchange?;
    if key {
      k, rest := ServerFirst(WillRequest(cert), rest);
    }
    asked := k.typ.CertificateRequest?;
    if asked {
      k, rest := ServerFirst(WillDone, rest);
    }
  }

  lemma ClientKeysRun(asked: bool, ks: seq<Kind>) returns (answered: bool, verify: bool, rest: seq<Kind>)
    requires Ends(true, Await(asked), ks)
    ensures ks == ClientKeysRead(answered, verify, rest) && (answered ==> asked) && (verify ==> answered)
    ensures Ends(true, AwaitCcs(false), rest)
  {
    var k;
    k, rest := ServerFirst(Await(asked), ks);
    answered, verify := k.typ.Certificate?, false;
    if answered {
      verify, rest := CertRun(rest);
    }
    rest := ProofRun(verify, rest);
  }

  /** From the client's certificate on. */
  lemma CertRun(ks: seq<Kind>) returns (verify: bool, rest: seq<Kind>)
    requires Ends(true, GotCert, ks)
    ensures ks == Opt(verify, PeerKeyKind, Opt(verify, CertVerifiedKind, [GetKind(ClientKeyExchange)] + rest))
    ensures Ends(true, GotKey(verify), rest)
  {
    var k;
    k, rest := ServerFirst(GotCert, ks);
    verify := k.PeerKeyKind?;
    if verify {
      rest := KeyRun(rest);
    }
  }

  lemma KeyRun(ks: seq<Kind>) returns (rest: seq<Kind>)
    requires Ends(true, HasKey, ks)
    ensures ks == [CertVerifiedKind] + ([GetKind(ClientKeyExchange)] + rest) && Ends(true, GotKey(true), rest)
  {
    var k;
    k, rest := ServerFirst(HasKey, ks);
    k, rest := ServerFirst(KeyOk, rest);
  }

  lemma ProofRun(verify: bool, ks: seq<Kind>) returns (rest: seq<Kind>)
    requires Ends(true, GotKey(verify), ks)
    ensures ks == Opt(verify, SignatureVerifiedKind, Opt(verify, GetKind(CertificateVerify), [GotCcsKind] + rest))
    ensures Ends(true, AwaitCcs(false), rest)
  {
    var k;
    if verify {
      k, rest := ServerFirst(GotKey(true), ks);
      rest := SignatureRun(rest);
    } else {
      k, rest := ServerFirst(GotKey(false), ks);
    }
  }

  lemma SignatureRun(ks: seq<Kind>) returns (rest: seq<Kind>)
    requires Ends(true, SigOk, ks)
    ensures ks == [GetKind(CertificateVerify)] + ([GotCcsKind] + rest) && Ends(true, AwaitCcs(false), rest)
  {
    var k;
    k, rest := ServerFirst(SigOk, ks);
    k, rest := ServerFirst(AwaitReadCcs(false), rest);
  }

  function AfterPeer(resumed: bool): Flow {
    if resumed then Done else WillTicket(false)
  }

  lemma ClientFinalRun(resumed: bool, ks: seq<Kind>) returns (proto: bool, id: bool, rest: seq<Kind>)
    requires Ends(true, AwaitCcs(resumed), ks)
    ensures ks == ClientFinalRead(proto, id, rest) && Ends(true, AfterPeer(resumed), rest)
  {
    var k, others;
    k, others := ServerFirst(AwaitCcs(resumed), ks);
    proto := k.GetKind? && k.typ.NextProto?;
    if proto {
      id, rest := IdRun(GotProto(resumed), resumed, others);
    } else {
      id, rest := IdRun(AwaitCcs(resumed), resumed, ks);
    }
  }

  lemma IdRun(q: Flow, resumed: bool, ks: seq<Kind>) returns (id: bool, rest: seq<Kind>)
    requires (q == AwaitCcs(resumed) || q == GotProto(resumed)) && Ends(true, q, ks)
    requires q.AwaitCcs? ==> |ks| > 0 && ks[0] != GetKind(NextProto)
    ensures ks == Opt(id, GetKind(ChannelId), [FinishedVerifiedKind] + ([GetKind(Finished)] + rest))
    ensures Ends(true, AfterPeer(resumed), rest)
  {
    var k;
    k, rest := ServerFirst(q, ks);
    id := k.GetKind?;
    if id {
      rest := VerifiedRun(resumed, rest);
    } else {
      rest := PeerRun(resumed, rest);
    }
  }

  lemma VerifiedRun(resumed: bool, ks: seq<Kind>) returns (rest: seq<Kind>)
    requires Ends(true, AwaitFinished(resumed), ks)
    ensures ks == [FinishedVerifiedKind] + ([GetKind(Finished)] + rest) && Ends(true, AfterPeer(resumed), rest)
  {
    var k;
    k, rest := ServerFirst(AwaitFinished(resumed), ks);
    rest := PeerRun(resumed, rest);
  }

  lemma PeerRun(resumed: bool, ks: seq<Kind>) returns (rest: seq<Kind>)
    requires Ends(true, PeerOk(resumed), ks)
    ensures ks == [GetKind(Finished)] + rest && Ends(true, AfterPeer(resumed), rest)
  {
    var k;
    k, rest := ServerFirst(PeerOk(resumed), ks);
  }

  function AfterOwn(resumed: bool): Flow {
    if resumed then AwaitReadCcs(true) else Done
  }

  lemma ServerFinalRun(resumed: bool, ks: seq<Kind>) returns (ticket: bool, rest: seq<Kind>)
    requires Ends(true, WillTicket(resumed), ks)
    ensures ks == ServerFinal(ticket, rest) && Ends(true, AfterOwn(resumed), rest)
  {
    var k;
    k, rest := ServerFirst(WillTicket(resumed), ks);
    ticket := k.SendKind?;
    if ticket {
      rest := CipherRun(resumed, rest);
    } else {
      rest := FinishRun(resumed, rest);
    }
  }

  lemma CipherRun(resumed: bool, ks: seq<Kind>) returns (rest: seq<Kind>)
    requires Ends(true, WillCcs(resumed), ks)
    ensures ks == [SentCcsKind] + ([SendKind(Finished)] + rest) && Ends(true, AfterOwn(resumed), rest)
  {
    var k;
    k, rest := ServerFirst(WillCcs(resumed), ks);
    rest := FinishRun(resumed, rest);
  }

  lemma FinishRun(resumed: bool, ks: seq<Kind>) returns (rest: seq<Kind>)
    requires Ends(true, WillFinish(resumed), ks)
    ensures ks == [SendKind(Finished)] + rest && Ends(true, AfterOwn(resumed), rest)
  {
    var k;
    k, rest := ServerFirst(WillFinish(resumed), ks);
  }

  lemma FullRun(cert: bool, ks: seq<Kind>) returns (o: Script)
    requires Ends(true, AfterHellos(false, cert), ks)
    ensures Consistent(o) && o.cert == cert && ks == ServerFull(o)
  {
    var rest, status := ks, false;
    if cert {
      status, rest := CertificateRun(ks);
    }
    var key, asked, answered, verify, proto, id, ticket;
    key, asked, rest := ServerKeyRun(cert, rest);
    answered, verify, rest := ClientKeysRun(asked, rest);
    proto, id, rest := ClientFinalRun(false, rest);
    ticket, rest := ServerFinalRun(false, rest);
    Last(true, rest);
    o := Script(false, false, cert, status, key, asked, answered, verify, proto, id, ticket);
  }

  lemma ResumedRun(cert: bool, ks: seq<Kind>) returns (o: Script)
    requires Ends(true, AfterHellos(true, cert), ks)
    ensures Consistent(o) && o.cert == cert && ks == ServerResumed(o)
  {
    var ticket, rest := ServerFinalRun(true, ks);
    var k;
    k, rest := ServerFirst(AwaitReadCcs(true), rest);
    var proto, id;
    proto, id, rest := ClientFinalRun(true, rest);
    Last(true, rest);
    o := Script(false, true, cert, false, false, false, false, false, proto, id, ticket);
  }

  lemma ServerRun(ks: seq<Kind>) returns (o: Script)
    requires Ends(true, Start, ks)
    ensures Consistent(o) && ks == ServerScript(o)
  {
    var resumed, cert, rest := HellosRun(ks);
    if resumed {
      o := ResumedRun(cert, rest);
    } else {
      o := FullRun(cert, rest);
    }
    o := o.(resumed := resumed);
  }

  // ---------- every script is a complete run ----------

  lemma HellosEnd(resumed: bool, cert: bool, ks: seq<Kind>)
    requires Ends(true, AfterHellos(resumed, cert), ks)
    ensures Ends(true, Start, ServerHellos(resumed, cert, ks))
  {
    var hello := [SendKind(ServerHello)] + ks;
    ServerStep(WillAccept(resumed, cert), SendKind(ServerHello), ks);
    ServerStep(GotHello, NegotiatedKind(resumed, cert), hello);
    ServerStep(Start, GetKind(ClientHello), [NegotiatedKind(resumed, cert)] + hello);
  }

  /** Without a CertificateStatus the server goes on as if it had just been sent. */
  lemma CertificateEnd(status: bool, ks: seq<Kind>)
    requires Ends(true, WillKey(true), ks)
    ensures Ends(true, WillCert, CertificateSent(status, ks))
  {
    if status {
      ServerStep(WillStatus, SendKind(CertificateStatus), ks);
    } else {
      var k, rest := ServerFirst(WillKey(true), ks);
      ServerStep(WillStatus, k, rest);
    }
    ServerStep(WillCert, SendKind(Certificate), Opt(status, SendKind(CertificateStatus), ks));
  }

  lemma ServerKeyEnd(cert: bool, key: bool, asked: bool, ks: seq<Kind>)
    requires Ends(true, Await(asked), ks) && (asked ==> cert)
    ensures Ends(true, WillKey(cert), ServerKeySent(key, asked, ks))
  {
    if key {
      RequestEnd(WillRequest(cert), cert, asked, ks);
      ServerStep(WillKey(cert), SendKind(ServerKeyExchange),
           Opt(asked, SendKind(CertificateRequest), [SendKind(ServerHelloDone)] + ks));
    } else {
      RequestEnd(WillKey(cert), cert, asked, ks);
    }
  }

  lemma RequestEnd(q: Flow, cert: bool, asked: bool, ks: seq<Kind>)
    requires (q == WillKey(cert) || q == WillRequest(cert)) && Ends(true, Await(asked), ks) && (asked ==> cert)
    ensures Ends(true, q, Opt(asked, SendKind(CertificateRequest), [SendKind(ServerHelloDone)] + ks))
  {
    if asked {
      ServerStep(WillDone, SendKind(ServerHelloDone), ks);
      ServerStep(q, SendKind(CertificateRequest), [SendKind(ServerHelloDone)] + ks);
    } else {
      ServerStep(q, SendKind(ServerHelloDone), ks);
    }
  }

  lemma SignatureEnd(ks: seq<Kind>)
    requires Ends(true, AwaitCcs(false), ks)
    ensures Ends(true, SigOk, [GetKind(CertificateVerify)] + ([GotCcsKind] + ks))
  {
    ServerStep(AwaitReadCcs(false), GotCcsKind, ks);
    ServerStep(SigOk, GetKind(CertificateVerify), [GotCcsKind] + ks);
  }

  lemma ProofEnd(verify: bool, ks: seq<Kind>)
    requires Ends(true, AwaitCcs(false), ks)
    ensures Ends(true, GotKey(verify),
                 Opt(verify, SignatureVerifiedKind, Opt(verify, GetKind(CertificateVerify), [GotCcsKind] + ks)))
  {
    if verify {
      SignatureEnd(ks);
      ServerStep(GotKey(true), SignatureVerifiedKind, [GetKind(CertificateVerify)] + ([GotCcsKind] + ks));
    } else {
      ServerStep(GotKey(false), GotCcsKind, ks);
    }
  }

  /** From the client's certificate on. */
  lemma CertEnd(verify: bool, ks: seq<Kind>)
    requires Ends(true, GotKey(verify), ks)
    ensures Ends(true, GotCert,
                 Opt(verify, PeerKeyKind, Opt(verify, CertVerifiedKind, [GetKind(ClientKeyExchange)] + ks)))
  {
    var keys := [GetKind(ClientKeyExchange)] + ks;
    if verify {
      ServerStep(KeyOk, GetKind(ClientKeyExchange), ks);
      ServerStep(HasKey, CertVerifiedKind, keys);
      ServerStep(GotCert, PeerKeyKind, [CertVerifiedKind] + keys);
    } else {
      ServerStep(GotCert, GetKind(ClientKeyExchange), ks);
    }
  }

  lemma ClientKeysEnd(asked: bool, answered: bool, verify: bool, ks: seq<Kind>)
    requires Ends(true, AwaitCcs(false), ks) && (answered ==> asked) && (verify ==> answered)
    ensures Ends(true, Await(asked), ClientKeysRead(answered, verify, ks))
  {
    var proof := Opt(verify, SignatureVerifiedKind, Opt(verify, GetKind(CertificateVerify), [GotCcsKind] + ks));
    ProofEnd(verify, ks);
    if answered {
      CertEnd(verify, proof);
      AnswerEnd(Opt(verify, PeerKeyKind, Opt(verify, CertVerifiedKind, [GetKind(ClientKeyExchange)] + proof)));
    } else {
      BareEnd(asked, proof);
    }
  }

  lemma AnswerEnd(ks: seq<Kind>)
    requires Ends(true, GotCert, ks)
    ensures Ends(true, Await(true), [GetKind(Certificate)] + ks)
  {
    ServerStep(Await(true), GetKind(Certificate), ks);
  }

  lemma BareEnd(asked: bool, ks: seq<Kind>)
    requires Ends(true, GotKey(false), ks)
    ensures Ends(true, Await(asked), [GetKind(ClientKeyExchange)] + ks)
  {
    ServerStep(Await(asked), GetKind(ClientKeyExchange), ks);
  }

  lemma ClientFinalEnd(resumed: bool, proto: bool, id: bool, ks: seq<Kind>)
    requires Ends(true, AfterPeer(resumed), ks)
    ensures Ends(true, AwaitCcs(resumed), ClientFinalRead(proto, id, ks))
  {
    if proto {
      IdEnd(GotProto(resumed), resumed, id, ks);
      ServerStep(AwaitCcs(resumed), GetKind(NextProto),
           Opt(id, GetKind(ChannelId), [FinishedVerifiedKind] + ([GetKind(Finished)] + ks)));
    } else {
      IdEnd(AwaitCcs(resumed), resumed, id, ks);
    }
  }

  lemma IdEnd(q: Flow, resumed: bool, id: bool, ks: seq<Kind>)
    requires (q == AwaitCcs(resumed) || q == GotProto(resumed)) && Ends(true, AfterPeer(resumed), ks)
    ensures Ends(true, q, Opt(id, GetKind(ChannelId), [FinishedVerifiedKind] + ([GetKind(Finished)] + ks)))
  {
    if id {
      VerifiedEnd(AwaitFinished(resumed), resumed, ks);
      ServerStep(q, GetKind(ChannelId), [FinishedVerifiedKind] + ([GetKind(Finished)] + ks));
    } else {
      VerifiedEnd(q, resumed, ks);
    }
  }

  lemma VerifiedEnd(q: Flow, resumed: bool, ks: seq<Kind>)
    requires q == AwaitCcs(resumed) || q == GotProto(resumed) || q == AwaitFinished(resumed)
    requires Ends(true, AfterPeer(resumed), ks)
    ensures Ends(true, q, [FinishedVerifiedKind] + ([GetKind(Finished)] + ks))
  {
    PeerEnd(resumed, ks);
    ServerStep(q, FinishedVerifiedKind, [GetKind(Finished)] + ks);
  }

  lemma PeerEnd(resumed: bool, ks: seq<Kind>)
    requires Ends(true, AfterPeer(resumed), ks)
    ensures Ends(true, PeerOk(resumed), [GetKind(Finished)] + ks)
  {
    ServerStep(PeerOk(resumed), GetKind(Finished), ks);
  }

  lemma ServerFinalEnd(resumed: bool, ticket: bool, ks: seq<Kind>)
    requires Ends(true, AfterOwn(resumed), ks)
    ensures Ends(true, WillTicket(resumed), ServerFinal(ticket, ks))
  {
    if ticket {
      CipherEnd(WillCcs(resumed), resumed, ks);
      ServerStep(WillTicket(resumed), SendKind(NewSessionTicket), [SentCcsKind] + ([SendKind(Finished)] + ks));
    } else {
      CipherEnd(WillTicket(resumed), resumed, ks);
    }
  }

  lemma CipherEnd(q: Flow, resumed: bool, ks: seq<Kind>)
    requires (q == WillTicket(resumed) || q == WillCcs(resumed)) && Ends(true, AfterOwn(resumed), ks)
    ensures Ends(true, q, [SentCcsKind] + ([SendKind(Finished)] + ks))
  {
    FinishEnd(resumed, ks);
    ServerStep(q, SentCcsKind, [SendKind(Finished)] + ks);
  }

  lemma FinishEnd(resumed: bool, ks: seq<Kind>)
    requires Ends(true, AfterOwn(resumed), ks)
    ensures Ends(true, WillFinish(resumed), [SendKind(Finished)] + ks)
  {
    ServerStep(WillFinish(resumed), SendKind(Finished), ks);
  }

  lemma ServerEnds(o: Script)
    requires Consistent(o)
    ensures Ends(true, Start, ServerScript(o))
  {
    if o.resumed {
      ResumedEnds(o);
    } else {
      FullEnds(o);
    }
    HellosEnd(o.resumed, o.cert, if o.resumed then ServerResumed(o) else ServerFull(o));
  }

  lemma ResumedEnds(o: Script)
    ensures Ends(true, WillTicket(true), ServerResumed(o))
  {
    var final := ClientFinalRead(o.proto, o.id, []);
    NothingLeft(true);
    ClientFinalEnd(true, o.proto, o.id, []);
    ServerStep(AwaitReadCcs(true), GotCcsKind, final);
    ServerFinalEnd(true, o.ticket, [GotCcsKind] + final);
  }

  lemma FullEnds(o: Script)
    requires Consistent(o)
    ensures Ends(true, AfterHellos(false, o.cert), ServerFull(o))
  {
    var ours := ServerFinal(o.ticket, []);
    var theirs := ClientFinalRead(o.proto, o.id, ours);
    NothingLeft(true);
    ServerFinalEnd(false, o.ticket, []);
    ClientFinalEnd(false, o.proto, o.id, ours);
    ClientKeysEnd(o.asked, o.answered, o.verify, theirs);
    ServerKeyEnd(o.cert, o.key, o.asked, ClientKeysRead(o.answered, o.verify, theirs));
    if o.cert {
      CertificateEnd(o.status, AfterSent(o));
    }
  }

  /** A server's handshake is complete exactly when its log is one of the scripts. */
  lemma Exactly(log: seq<Entry>)
    ensures FlowOf(true, log).Done? <==> exists o :: Consistent(o) && Kinds(log) == ServerScript(o)
  {
    ReachIsFlow(true, log);
    EndsDone(true, Start, Kinds(log));
    if FlowOf(true, log).Done? {
      var o := ServerRun(Kinds(log));
    } else if o :| Consistent(o) && Kinds(log) == ServerScript(o) {
      ServerEnds(o);
    }
  }
}
