/**
 The logs of a complete client handshake are exactly the client's scripts.
 */
module ClientOrder {
  import opened HandshakeFlow
  import opened Scripts

  // ---------- every complete run is a script ----------

  function AfterHellos(resumed: bool, cert: bool): Flow {
    if resumed then WantTicket(true) else if cert then WantCert else WantKey(false)
  }

  lemma HellosRun(ks: seq<Kind>) returns (retry: bool, resumed: bool, cert: bool, rest: seq<Kind>)
    requires Ends(false, Start, ks)
    ensures ks == ClientHellos(retry, resumed, cert, rest) && Ends(false, AfterHellos(resumed, cert), rest)
  {
    var k;
    k, rest := ClientFirst(Start, ks);
    k, rest := ClientFirst(Hello1, rest);
    retry := k.GetKind? && k.typ.HelloVerifyRequest?;
    if retry {
      k, rest := ClientFirst(Retry, rest);
      k, rest := ClientFirst(Hello2, rest);
    } else if k.SentCcsKind? {
      k, rest := ClientFirst(EarlyHello, rest);
      assert false;
    }
    k, rest := ClientFirst(Hellos, rest);
    resumed, cert := k.resumed, k.cert;
  }

  lemma CertificateRun(ks: seq<Kind>) returns (status: bool, rest: seq<Kind>)
    requires Ends(false, WantCert, ks)
    ensures ks == CertificateRead(status, rest) && Ends(false, WantKey(true), rest)
  {
    var k;
    k, rest := ClientFirst(WantCert, ks);
    k, rest := ClientFirst(WantStatus, rest);
    status := k.GetKind?;
    if status {
      k, rest := ClientFirst(WantVerify, rest);
    }
  }

  lemma ServerKeyRun(cert: bool, ks: seq<Kind>) returns (key: bool, asked: bool, rest: seq<Kind>)
    requires Ends(false, WantKey(cert), ks)
    ensures ks == ServerKeyRead(cert, key, asked, rest) && (asked ==> cert) && Ends(false, Answer(asked), rest)
  {
    var k;
    k, rest := ClientFirst(WantKey(cert), ks);
    key := k.SignatureVerifiedKind? || k.typ.ServerKeyExchange?;
    if key {
      if cert {
        k, rest := ClientFirst(KeySigned, rest);
      }
      k, rest := ClientFirst(WantRequest(cert), rest);
    }
    asked := k.typ.CertificateRequest?;
    if asked {
      k, rest := ClientFirst(WantHelloDone, rest);
    }
  }

  lemma ClientKeysRun(asked: bool, ks: seq<Kind>) returns (answered: bool, verify: bool, rest: seq<Kind>)
    requires Ends(false, Answer(asked), ks)
    ensures ks == ClientKeys(answered, verify, rest) && (answered ==> asked) && (verify ==> answered)
    ensures Ends(false, WriteCipher(false), rest)
  {
    var k;
    k, rest := ClientFirst(Answer(asked), ks);
    answered := k.typ.Certificate?;
    if answered {
      k, rest := ClientFirst(CertSent, rest);
    }
    k, rest := ClientFirst(KeySent(answered), rest);
    verify := k.SendKind?;
    if verify {
      k, rest := ClientFirst(VerifySent, rest);
    }
  }

  lemma ClientFinalRun(resumed: bool, ks: seq<Kind>) returns (proto: bool, id: bool, rest: seq<Kind>)
    requires Ends(false, WriteCipher(resumed), ks)
    ensures ks == ClientFinal(proto, id, rest) && Ends(false, AfterClientFinished(resumed), rest)
  {
    var k;
    k, rest := ClientFirst(WriteCipher(resumed), ks);
    proto := k.typ.NextProto?;
    if proto {
      id, rest := IdRun(ProtoSent(resumed), resumed, rest);
    } else {
      id, rest := IdRun(WriteCipher(resumed), resumed, ks);
    }
  }

  lemma IdRun(q: Flow, resumed: bool, ks: seq<Kind>) returns (id: bool, rest: seq<Kind>)
    requires (q == WriteCipher(resumed) || q == ProtoSent(resumed)) && Ends(false, q, ks)
    requires q.WriteCipher? ==> |ks| > 0 && ks[0] != SendKind(NextProto)
    ensures ks == Opt(id, SendKind(ChannelId), [SendKind(Finished)] + rest)
    ensures Ends(false, AfterClientFinished(resumed), rest)
  {
    var k;
    k, rest := ClientFirst(q, ks);
    id := k.typ.ChannelId?;
    if id {
      rest := LastRun(resumed, rest);
    }
  }

  lemma LastRun(resumed: bool, ks: seq<Kind>) returns (rest: seq<Kind>)
    requires Ends(false, IdSent(resumed), ks)
    ensures ks == [SendKind(Finished)] + rest && Ends(false, AfterClientFinished(resumed), rest)
  {
    var k;
    k, rest := ClientFirst(IdSent(resumed), ks);
  }

  lemma FinishedRun(resumed: bool, ks: seq<Kind>) returns (rest: seq<Kind>)
    requires Ends(false, WantFinished(resumed), ks)
    ensures ks == [FinishedVerifiedKind] + ([GetKind(Finished)] + rest)
    ensures Ends(false, if resumed then Reply else Done, rest)
  {
    var k;
    k, rest := ClientFirst(WantFinished(resumed), ks);
    k, rest := ClientFirst(FinishedOk(resumed), rest);
  }

  lemma ServerFinalRun(resumed: bool, ks: seq<Kind>) returns (ticket: bool, rest: seq<Kind>)
    requires Ends(false, WantTicket(resumed), ks)
    ensures ks == ServerFinalRead(ticket, rest) && Ends(false, if resumed then Reply else Done, rest)
  {
    var k;
    k, rest := ClientFirst(WantTicket(resumed), ks);
    ticket := k.GetKind?;
    if ticket {
      k, rest := ClientFirst(WantCcs(resumed), rest);
    }
    rest := FinishedRun(resumed, rest);
  }

  lemma FullRun(cert: bool, ks: seq<Kind>) returns (o: Script)
    requires Ends(false, AfterHellos(false, cert), ks)
    ensures Consistent(o) && o.cert == cert && ks == ClientFull(o)
  {
    var rest, status := ks, false;
    if cert {
      status, rest := CertificateRun(ks);
    }
    var key, asked, answered, verify, proto, id, ticket;
    key, asked, rest := ServerKeyRun(cert, rest);
    answered, verify, rest := ClientKeysRun(asked, rest);
    proto, id, rest := ClientFinalRun(false, rest);
    ticket, rest := ServerFinalRun(false, rest);
    Last(false, rest);
    o := Script(false, false, cert, status, key, asked, answered, verify, proto, id, ticket);
  }

  lemma ResumedRun(cert: bool, ks: seq<Kind>) returns (o: Script)
    requires Ends(false, AfterHellos(true, cert), ks)
    ensures Consistent(o) && o.cert == cert && ks == ClientResumed(o)
  {
    var ticket, rest := ServerFinalRun(true, ks);
    var k;
    k, rest := ClientFirst(Reply, rest);
    var proto, id;
    proto, id, rest := ClientFinalRun(true, rest);
    Last(false, rest);
    o := Script(false, true, cert, false, false, false, false, false, proto, id, ticket);
  }

  lemma ClientRun(ks: seq<Kind>) returns (o: Script)
    requires Ends(false, Start, ks)
    ensures Consistent(o) && ks == ClientScript(o)
  {
    var retry, resumed, cert, rest := HellosRun(ks);
    if resumed {
      o := ResumedRun(cert, rest);
    } else {
      o := FullRun(cert, rest);
    }
    o := o.(retry := retry, resumed := resumed);
  }

  // ---------- every script is a complete run ----------

  lemma HellosEnd(retry: bool, resumed: bool, cert: bool, ks: seq<Kind>)
    requires Ends(false, AfterHellos(resumed, cert), ks)
    ensures Ends(false, Start, ClientHellos(retry, resumed, cert, ks))
  {
    var negotiated := [NegotiatedKind(resumed, cert)] + ks;
    var hello := [GetKind(ServerHello)] + negotiated;
    ClientStep(Hellos, NegotiatedKind(resumed, cert), ks);
    ClientStep(if retry then Hello2 else Hello1, GetKind(ServerHello), negotiated);
    if retry {
      ClientStep(Retry, SendKind(ClientHello), hello);
      ClientStep(Hello1, GetKind(HelloVerifyRequest), [SendKind(ClientHello)] + hello);
    }
    ClientStep(Start, SendKind(ClientHello),
         Opt(retry, GetKind(HelloVerifyRequest), Opt(retry, SendKind(ClientHello), hello)));
  }

  lemma CertificateEnd(status: bool, ks: seq<Kind>)
    requires Ends(false, WantKey(true), ks)
    ensures Ends(false, WantCert, CertificateRead(status, ks))
  {
    var verified := [CertVerifiedKind] + ks;
    ClientStep(if status then WantVerify else WantStatus, CertVerifiedKind, ks);
    ClientStep(WantStatus, GetKind(CertificateStatus), verified);
    ClientStep(WantCert, GetKind(Certificate), Opt(status, GetKind(CertificateStatus), verified));
  }

  lemma ServerKeyEnd(cert: bool, key: bool, asked: bool, ks: seq<Kind>)
    requires Ends(false, Answer(asked), ks) && (asked ==> cert)
    ensures Ends(false, WantKey(cert), ServerKeyRead(cert, key, asked, ks))
  {
    var asks := Opt(asked, GetKind(CertificateRequest), [GetKind(ServerHelloDone)] + ks);
    if key {
      RequestEnd(WantRequest(cert), cert, asked, ks);
      if cert {
        ClientStep(KeySigned, GetKind(ServerKeyExchange), asks);
        ClientStep(WantKey(true), SignatureVerifiedKind, [GetKind(ServerKeyExchange)] + asks);
      } else {
        ClientStep(WantKey(false), GetKind(ServerKeyExchange), asks);
      }
    } else {
      RequestEnd(WantKey(cert), cert, asked, ks);
    }
  }

  lemma RequestEnd(q: Flow, cert: bool, asked: bool, ks: seq<Kind>)
    requires (q == WantKey(cert) || q == WantRequest(cert)) && Ends(false, Answer(asked), ks) && (asked ==> cert)
    ensures Ends(false, q, Opt(asked, GetKind(CertificateRequest), [GetKind(ServerHelloDone)] + ks))
  {
    ClientStep(if asked then WantHelloDone else q, GetKind(ServerHelloDone), ks);
    ClientStep(q, GetKind(CertificateRequest), [GetKind(ServerHelloDone)] + ks);
  }

  lemma ClientKeysEnd(asked: bool, answered: bool, verify: bool, ks: seq<Kind>)
    requires Ends(false, WriteCipher(false), ks) && (answered ==> asked) && (verify ==> answered)
    ensures Ends(false, Answer(asked), ClientKeys(answered, verify, ks))
  {
    var verifies := Opt(verify, SendKind(CertificateVerify), [SentCcsKind] + ks);
    VerifyEnd(answered, verify, ks);
    if answered {
      CertificateSentEnd(verifies);
    } else {
      ClientStep(Answer(asked), SendKind(ClientKeyExchange), verifies);
    }
  }

  lemma CertificateSentEnd(ks: seq<Kind>)
    requires Ends(false, KeySent(true), ks)
    ensures Ends(false, Answer(true), [SendKind(Certificate)] + ([SendKind(ClientKeyExchange)] + ks))
  {
    ClientStep(CertSent, SendKind(ClientKeyExchange), ks);
    ClientStep(Answer(true), SendKind(Certificate), [SendKind(ClientKeyExchange)] + ks);
  }

  lemma VerifyEnd(answered: bool, verify: bool, ks: seq<Kind>)
    requires Ends(false, WriteCipher(false), ks) && (verify ==> answered)
    ensures Ends(false, KeySent(answered), Opt(verify, SendKind(CertificateVerify), [SentCcsKind] + ks))
  {
    ClientStep(if verify then VerifySent else KeySent(answered), SentCcsKind, ks);
    ClientStep(KeySent(answered), SendKind(CertificateVerify), [SentCcsKind] + ks);
  }

  lemma ClientFinalEnd(resumed: bool, proto: bool, id: bool, ks: seq<Kind>)
    requires Ends(false, AfterClientFinished(resumed), ks)
    ensures Ends(false, WriteCipher(resumed), ClientFinal(proto, id, ks))
  {
    if proto {
      IdEnd(ProtoSent(resumed), resumed, id, ks);
      ClientStep(WriteCipher(resumed), SendKind(NextProto), Opt(id, SendKind(ChannelId), [SendKind(Finished)] + ks));
    } else {
      IdEnd(WriteCipher(resumed), resumed, id, ks);
    }
  }

  lemma IdEnd(q: Flow, resumed: bool, id: bool, ks: seq<Kind>)
    requires (q == WriteCipher(resumed) || q == ProtoSent(resumed)) && Ends(false, AfterClientFinished(resumed), ks)
    ensures Ends(false, q, Opt(id, SendKind(ChannelId), [SendKind(Finished)] + ks))
  {
    if id {
      ClientStep(IdSent(resumed), SendKind(Finished), ks);
      ClientStep(q, SendKind(ChannelId), [SendKind(Finished)] + ks);
    } else {
      ClientStep(q, SendKind(Finished), ks);
    }
  }

  lemma FinishedEnd(resumed: bool, ks: seq<Kind>)
    requires Ends(false, if resumed then Reply else Done, ks)
    ensures Ends(false, WantFinished(resumed), [FinishedVerifiedKind] + ([GetKind(Finished)] + ks))
  {
    ClientStep(FinishedOk(resumed), GetKind(Finished), ks);
    ClientStep(WantFinished(resumed), FinishedVerifiedKind, [GetKind(Finished)] + ks);
  }

  lemma TicketEnd(resumed: bool, ticket: bool, ks: seq<Kind>)
    requires Ends(false, WantFinished(resumed), ks)
    ensures Ends(false, WantTicket(resumed), Opt(ticket, GetKind(NewSessionTicket), [GotCcsKind] + ks))
  {
    if ticket {
      ClientStep(WantCcs(resumed), GotCcsKind, ks);
      ClientStep(WantTicket(resumed), GetKind(NewSessionTicket), [GotCcsKind] + ks);
    } else {
      ClientStep(WantTicket(resumed), GotCcsKind, ks);
    }
  }

  lemma ServerFinalEnd(resumed: bool, ticket: bool, ks: seq<Kind>)
    requires Ends(false, if resumed then Reply else Done, ks)
    ensures Ends(false, WantTicket(resumed), ServerFinalRead(ticket, ks))
  {
    var finished := [FinishedVerifiedKind] + ([GetKind(Finished)] + ks);
    FinishedEnd(resumed, ks);
    TicketEnd(resumed, ticket, finished);
  }

  lemma ClientEnds(o: Script)
    requires Consistent(o)
    ensures Ends(false, Start, ClientScript(o))
  {
    NothingLeft(false);
    if o.resumed {
      var final := ClientFinal(o.proto, o.id, []);
      ClientFinalEnd(true, o.proto, o.id, []);
      ClientStep(Reply, SentCcsKind, final);
      ServerFinalEnd(true, o.ticket, [SentCcsKind] + final);
      HellosEnd(o.retry, true, o.cert, ClientResumed(o));
    } else {
      var theirs := ServerFinalRead(o.ticket, []);
      var ours := ClientFinal(o.proto, o.id, theirs);
      ServerFinalEnd(false, o.ticket, []);
      ClientFinalEnd(false, o.proto, o.id, theirs);
      ClientKeysEnd(o.asked, o.answered, o.verify, ours);
      ServerKeyEnd(o.cert, o.key, o.asked, ClientKeys(o.answered, o.verify, ours));
      if o.cert {
        CertificateEnd(o.status, AfterCertificate(o));
      }
      HellosEnd(o.retry, false, o.cert, ClientFull(o));
    }
  }

  /** A client's handshake is complete exactly when its log is one of the scripts. */
  lemma Exactly(log: seq<Entry>)
    ensures FlowOf(false, log).Done? <==> exists o :: Consistent(o) && Kinds(log) == ClientScript(o)
  {
    ReachIsFlow(false, log);
    EndsDone(false, Start, Kinds(log));
    if FlowOf(false, log).Done? {
      var o := ClientRun(Kinds(log));
    } else if o :| Consistent(o) && Kinds(log) == ClientScript(o) {
      ClientEnds(o);
    }
  }
}
