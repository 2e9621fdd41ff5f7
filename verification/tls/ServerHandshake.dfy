/**
 `ssl_server_handshake` up to TLS 1.2, in the manner of `ClientHandshake`.  Here too the
 steps are proved to keep the events within the protocol's order and the handshake hash
 equal to what they demand; in particular nothing is hashed before a point from which the
 step may have to be run again.
 */
module ServerHandshake {
  import opened Wrappers
  import opened HandshakeFlow
  import opened Channel

  datatype State =
    StartAccept | ReadClientHello | SelectCertificate | Tls13 | SelectParameters | SendServerHello
    | SendServerCertificate | SendServerKeyExchange | SendServerHelloDone | ReadClientCertificate
    | VerifyClientCertificate | ReadClientKeyExchange | ReadClientCertificateVerify | ReadChangeCipherSpec
    | ProcessCcs | ReadNextProto | ReadChannelId | ReadClientFinished | SendServerFinished | FinishHandshake | Complete

  /** How many steps remain at most.  A server that resumes a session finishes first. */
  function Rank(s: State, resumed: bool): nat {
    match s
    case StartAccept => 23
    case ReadClientHello => 22
    case SelectCertificate => 21
    case Tls13 => 20
    case SelectParameters => 19
    case SendServerHello => 18
    case SendServerCertificate => 17
    case SendServerKeyExchange => 16
    case SendServerHelloDone => 15
    case ReadClientCertificate => 14
    case VerifyClientCertificate => 13
    case ReadClientKeyExchange => 12
    case ReadClientCertificateVerify => 11
    case ReadChangeCipherSpec => 10
    case ProcessCcs => 9
    case ReadNextProto => 8
    case ReadChannelId => 7
    case ReadClientFinished => 6
    case SendServerFinished => if resumed then 17 else 5
    case FinishHandshake => 1
    case Complete => 0
  }

  // ---------- how each event moves the protocol on ----------

  lemma OnHello(q: Flow, q': Flow)
    requires Moves(true, q, GetKind(ClientHello), q')
    ensures q.Start? ==> q'.GotHello?
  {
    Moved(true, q, GetKind(ClientHello), q');
  }

  lemma OnNegotiated(q: Flow, q': Flow, resumed: bool, cert: bool)
    requires Moves(true, q, NegotiatedKind(resumed, cert), q')
    ensures q.GotHello? ==> q'.WillAccept? && q'.resumed == resumed && q'.cert == cert
  {
    Moved(true, q, NegotiatedKind(resumed, cert), q');
  }

  lemma OnServerHelloSent(q: Flow, q': Flow)
    requires Moves(true, q, SendKind(ServerHello), q')
    ensures q.WillAccept? && q.resumed ==> q'.WillTicket? && q'.resumed
    ensures q.WillAccept? && !q.resumed ==> if q.cert then q'.WillCert? else q'.WillKey? && !q'.cert
  {
    Moved(true, q, SendKind(ServerHello), q');
  }

  lemma OnCertificateSent(q: Flow, q': Flow)
    requires Moves(true, q, SendKind(Certificate), q')
    ensures q.WillCert? ==> q'.WillStatus?
  {
    Moved(true, q, SendKind(Certificate), q');
  }

  lemma OnStatusSent(q: Flow, q': Flow)
    requires Moves(true, q, SendKind(CertificateStatus), q')
    ensures q.WillStatus? ==> q'.WillKey? && q'.cert
  {
    Moved(true, q, SendKind(CertificateStatus), q');
  }

  lemma OnKeyExchangeSent(q: Flow, q': Flow)
    requires Moves(true, q, SendKind(ServerKeyExchange), q')
    ensures q.WillStatus? ==> q'.WillRequest? && q'.cert
    ensures q.WillKey? ==> q'.WillRequest? && q'.cert == q.cert
  {
    Moved(true, q, SendKind(ServerKeyExchange), q');
  }

  lemma OnRequestSent(q: Flow, q': Flow)
    requires Moves(true, q, SendKind(CertificateRequest), q')
    ensures q.WillStatus? || ((q.WillKey? || q.WillRequest?) && q.cert) ==> q'.WillDone?
  {
    Moved(true, q, SendKind(CertificateRequest), q');
  }

  lemma OnHelloDoneSent(q: Flow, q': Flow)
    requires Moves(true, q, SendKind(ServerHelloDone), q')
    ensures q.WillStatus? || q.WillKey? || q.WillRequest? ==> q'.Await? && !q'.asked
    ensures q.WillDone? ==> q'.Await? && q'.asked
  {
    Moved(true, q, SendKind(ServerHelloDone), q');
  }

  lemma OnCertificate(q: Flow, q': Flow)
    requires Moves(true, q, GetKind(Certificate), q')
    ensures q.Await? && q.asked ==> q'.GotCert?
  {
    Moved(true, q, GetKind(Certificate), q');
  }

  lemma OnPeerKey(q: Flow, q': Flow)
    requires Moves(true, q, PeerKeyKind, q')
    ensures q.GotCert? ==> q'.HasKey?
  {
    Moved(true, q, PeerKeyKind, q');
  }

  lemma OnCertVerified(q: Flow, q': Flow)
    requires Moves(true, q, CertVerifiedKind, q')
    ensures q.HasKey? ==> q'.KeyOk?
  {
    Moved(true, q, CertVerifiedKind, q');
  }

  lemma OnKeyExchange(q: Flow, q': Flow)
    requires Moves(true, q, GetKind(ClientKeyExchange), q')
    ensures q.Await? || q.GotCert? ==> q'.GotKey? && !q'.withKey
    ensures q.KeyOk? ==> q'.GotKey? && q'.withKey
  {
    Moved(true, q, GetKind(ClientKeyExchange), q');
  }

  lemma OnSignature(q: Flow, q': Flow)
    requires Moves(true, q, SignatureVerifiedKind, q')
    ensures q.GotKey? && q.withKey ==> q'.SigOk?
  {
    Moved(true, q, SignatureVerifiedKind, q');
  }

  lemma OnVerify(q: Flow, q': Flow)
    requires Moves(true, q, GetKind(CertificateVerify), q')
    ensures q.SigOk? ==> q'.AwaitReadCcs? && !q'.resumed
  {
    Moved(true, q, GetKind(CertificateVerify), q');
  }

  lemma OnCcs(q: Flow, q': Flow)
    requires Moves(true, q, GotCcsKind, q')
    ensures q.AwaitReadCcs? ==> q'.AwaitCcs? && q'.resumed == q.resumed
    ensures q.GotKey? && !q.withKey ==> q'.AwaitCcs? && !q'.resumed
  {
    Moved(true, q, GotCcsKind, q');
  }

  lemma OnProto(q: Flow, q': Flow)
    requires Moves(true, q, GetKind(NextProto), q')
    ensures q.AwaitCcs? ==> q'.GotProto? && q'.resumed == q.resumed
  {
    Moved(true, q, GetKind(NextProto), q');
  }

  lemma OnId(q: Flow, q': Flow)
    requires Moves(true, q, GetKind(ChannelId), q')
    ensures q.AwaitCcs? || q.GotProto? ==> q'.AwaitFinished? && q'.resumed == q.resumed
  {
    Moved(true, q, GetKind(ChannelId), q');
  }

  lemma OnFinishedVerified(q: Flow, q': Flow)
    requires Moves(true, q, FinishedVerifiedKind, q')
    ensures q.AwaitCcs? || q.GotProto? || q.AwaitFinished? ==> q'.PeerOk? && q'.resumed == q.resumed
  {
    Moved(true, q, FinishedVerifiedKind, q');
  }

  lemma OnFinished(q: Flow, q': Flow)
    requires Moves(true, q, GetKind(Finished), q')
    ensures q.PeerOk? ==> if q.resumed then q'.Done? else q'.WillTicket? && !q'.resumed
  {
    Moved(true, q, GetKind(Finished), q');
  }

  lemma OnTicketSent(q: Flow, q': Flow)
    requires Moves(true, q, SendKind(NewSessionTicket), q')
    ensures q.WillTicket? ==> q'.WillCcs? && q'.resumed == q.resumed
  {
    Moved(true, q, SendKind(NewSessionTicket), q');
  }

  lemma OnCcsSent(q: Flow, q': Flow)
    requires Moves(true, q, SentCcsKind, q')
    ensures q.WillTicket? || q.WillCcs? ==> q'.WillFinish? && q'.resumed == q.resumed
  {
    Moved(true, q, SentCcsKind, q');
  }

  lemma OnFinishedSent(q: Flow, q': Flow)
    requires Moves(true, q, SendKind(Finished), q')
    ensures q.WillFinish? ==> if q.resumed then q'.AwaitReadCcs? && q'.resumed else q'.Done?
  {
    Moved(true, q, SendKind(Finished), q');
  }

  class Server {
    var state: State
    var wait: Wait
    const io: Channel
    /** `ssl->session`: a session is being resumed. */
    var session: bool
    /** `ssl_cipher_uses_certificate_auth` of the chosen cipher. */
    var cert: bool
    var ssl3: bool
    var statusExpected: bool
    var hasParams: bool
    var certRequest: bool
    /** `hs->peer_pubkey`: the client has sent a certificate. */
    var peerKey: bool
    var ticketExpected: bool
    var nextProto: bool
    var channelId: bool
    /** The ChangeCipherSpec that `ProcessCcs` acts on has arrived. */
    ghost var ccsSeen: bool

    /** Where in the protocol each state stands.  A V2ClientHello is counted when it
        arrives, any other message when it is dropped. */
    ghost predicate Placed()
      reads this, io
    {
      var q := io.flow;
      match state
      case StartAccept => Fresh() && BeforeHello(q)
      case ReadClientHello => Fresh() && BeforeHello(q)
      case SelectCertificate => Fresh() && BeforeHello(q)
      case Tls13 => true
      case SelectParameters => Fresh() && BeforeHello(q)
      case SendServerHello => !peerKey && q.WillAccept? && q.resumed == session && q.cert == cert
      case SendServerCertificate => !session && !peerKey && if cert then q.WillCert? else q.WillKey? && !q.cert
      case SendServerKeyExchange => !session && !peerKey && AfterCertificate(q)
      case SendServerHelloDone => !session && !peerKey && (AfterCertificate(q) || (q.WillRequest? && q.cert == cert))
      case ReadClientCertificate => !session && !peerKey && q.Await? && q.asked == certRequest
      case VerifyClientCertificate => !session && if peerKey then q.HasKey? else q.Await? || q.GotCert?
      case ReadClientKeyExchange => !session && if peerKey then q.KeyOk? else q.Await? || q.GotCert?
      case ReadClientCertificateVerify => !session && q.GotKey? && q.withKey == peerKey
      case ReadChangeCipherSpec => BeforeCcs(q)
      case ProcessCcs => if ccsSeen then q.AwaitCcs? && q.resumed == session else BeforeCcs(q)
      case ReadNextProto => q.AwaitCcs? && q.resumed == session
      case ReadChannelId => (q.AwaitCcs? || q.GotProto?) && q.resumed == session
      case ReadClientFinished => (q.AwaitCcs? || q.GotProto? || q.AwaitFinished?) && q.resumed == session
      case SendServerFinished => q.WillTicket? && q.resumed == session
      case FinishHandshake => q.Done?
      case Complete => q.Done?
    }

    ghost predicate Fresh()
      reads this
    {
      !certRequest && !peerKey
    }

    ghost predicate BeforeHello(q: Flow)
      reads io
    {
      if io.current.Some? && io.current.value.isV2 then q.GotHello? && io.current.value.typ == ClientHello else q.Start?
    }

    ghost predicate BeforeCcs(q: Flow)
      reads this
    {
      (q.AwaitReadCcs? && q.resumed == session) || (!session && q.GotKey? && !q.withKey)
    }

    ghost predicate AfterCertificate(q: Flow)
      reads this
    {
      (q.WillKey? && q.cert == cert) || (cert && q.WillStatus?)
    }

    ghost predicate Valid()
      reads this, io
    {
      && io.Idle() && io.server && Placed()
      && (certRequest ==> cert) && (peerKey ==> io.keyHeld)
    }

    /** What every step promises: unless it fails the invariant holds; if it does not wait
        the rank falls; and a step that suspends has done nothing that running it again
        would repeat. */
    twostate predicate Stepped(ret: Wait)
      reads this, io
    {
      ret != Error ==>
        && Valid()
        && (ret == Ok ==> Rank(state, session) < old(Rank(state, session)))
        && (Suspends(ret) ==> state == old(state) && io.Quiet())
        && (state == ProcessCcs ==> ret == ReadCcs && !ccsSeen)
        && (ret == ReadHello || ret == ReadMessage ==> io.current.None?)
    }

    constructor (mac: (seq<Msg>, bool) -> nat)
      ensures Valid() && state == StartAccept && wait == Ok && io.log == []
    {
      state, wait := StartAccept, Ok;
      session, cert, ssl3, statusExpected, hasParams := false, false, false, false, false;
      certRequest, peerKey := false, false;
      ticketExpected, nextProto, channelId, ccsSeen := false, false, false, false;
      io := new Channel(true, mac);
    }

    method DoStartAccept() returns (ret: Wait)
      requires Valid() && state == StartAccept
      modifies this, io
      ensures Stepped(ret)
      ensures ret == Ok && state == ReadClientHello && io.Quiet()
    {
      state := ReadClientHello;
      ret := Ok;
    }

    /** The hello stays where it is, and out of the hash, until its parameters are chosen. */
    method DoReadClientHello() returns (ret: Wait)
      requires Valid() && state == ReadClientHello
      modifies this, io
      ensures Stepped(ret)
      ensures io.Quiet() && (ret == Ok ==> state == SelectCertificate && io.current == old(io.current))
    {
      if io.current.None? {
        return ReadMessage;
      }
      if io.current.value.typ != ClientHello {
        return Error;
      }
      var handoff: bool := *;
      if handoff {
        return Handoff;
      }
      ret := Attempt(CertSelection);
      if ret != Ok {
        return;
      }
      ReadExtensions();
      state := SelectCertificate;
      ret := Ok;
    }

    /** What the hello asks for. */
    method ReadExtensions()
      modifies `ssl3, `nextProto, `channelId
    {
      ssl3, nextProto, channelId := *, *, *;
    }

    method DoSelectCertificate() returns (ret: Wait)
      requires Valid() && state == SelectCertificate
      modifies this, io
      ensures Stepped(ret)
      ensures io.Quiet() && (ret == Ok ==> state == Tls13 || state == SelectParameters)
    {
      if io.current.None? {
        return ReadMessage;
      }
      ret := Attempt(X509Lookup);
      if ret != Ok {
        return;
      }
      var tls13: bool := *;
      if tls13 {
        state := Tls13;
        return;
      }
      cert := *;
      state := SelectParameters;
    }

    /** Certificates are requested in full handshakes with certificate ciphers only. */
    method ChooseSession()
      modifies `session, `ticketExpected, `certRequest
      ensures certRequest ==> cert && !session
    {
      var request: bool := *;
      session, ticketExpected := *, *;
      certRequest := !session && request && cert;
    }

    /** The ClientHello is hashed only after the session has been found. */
    method DoSelectParameters() returns (ret: Wait)
      requires Valid() && state == SelectParameters
      modifies this, io
      ensures Stepped(ret)
      ensures ret == Ok ==> state == SendServerHello && HelloTaken() && (certRequest ==> cert && !session)
    {
      if io.current.None? {
        return ReadMessage;
      }
      var ticket: bool := *;
      ret := Attempt(if ticket then PendingTicket else PendingSession);
      if ret.Ok? {
        if !io.current.value.typ.ClientHello? {
          return Error;
        }
        SettleHello();
        state := SendServerHello;
      }
    }

    method SettleHello()
      requires io.Idle() && io.server && BeforeHello(io.flow)
      requires io.current.Some? && io.current.value.typ == ClientHello
      modifies io, `session, `ticketExpected, `certRequest
      ensures io.Idle() && HelloTaken() && (certRequest ==> cert && !session)
      ensures io.flow.WillAccept? && io.flow.resumed == session && io.flow.cert == cert
    {
      ChooseSession();
      TakeHello();
    }

    /** The hello is in the hash, once, and what it settled is on record. */
    twostate predicate HelloTaken()
      reads this, io
    {
      && old(io.current).Some? && |old(io.log)| < |io.log|
      && io.log[|io.log| - 1] == Negotiated(session, cert)
      && io.transcript == if old(io.current).value.isV2 then old(io.transcript)
                          else old(io.transcript) + [old(io.current).value]
    }

    method TakeHello()
      requires io.Idle() && io.server && BeforeHello(io.flow)
      requires io.current.Some? && io.current.value.typ == ClientHello
      modifies io
      ensures io.Idle() && HelloTaken()
      ensures io.flow.WillAccept? && io.flow.resumed == session && io.flow.cert == cert
    {
      ghost var q := io.flow;
      io.Hash();
      io.Next();
      if q.Start? {
        OnHello(q, io.flow);
      }
      q := io.flow;
      io.Note(Negotiated(session, cert));
      OnNegotiated(q, io.flow, session, cert);
    }

    /** Which extensions the ServerHello carries. */
    method WriteExtensions()
      modifies `channelId, `statusExpected
      ensures channelId ==> old(channelId)
    {
      var keepId: bool := *;
      channelId := channelId && keepId;
      statusExpected := *;
    }

    method SayHello()
      requires io.Idle() && io.server && io.flow.WillAccept?
      modifies io, `channelId, `statusExpected
      ensures io.Idle() && io.Logged(SendKind(ServerHello))
      ensures var q := old(io.flow);
              if q.resumed then io.flow.WillTicket? && io.flow.resumed
              else if q.cert then io.flow.WillCert? else io.flow.WillKey? && !io.flow.cert
    {
      WriteExtensions();
      ghost var q := io.flow;
      io.Add(ServerHello);
      OnServerHelloSent(q, io.flow);
    }

    method DoSendServerHello() returns (ret: Wait)
      requires Valid() && state == SendServerHello
      modifies this, io
      ensures Stepped(ret)
      ensures ret == Ok ==> state == if session then SendServerFinished else SendServerCertificate
      ensures ret == Ok ==> io.Logged(SendKind(ServerHello))
    {
      var failed: bool := *;
      if failed {
        return Error;
      }
      SayHello();
      state := if session then SendServerFinished else SendServerCertificate;
      ret := Ok;
    }

    method DoSendServerCertificate() returns (ret: Wait)
      requires Valid() && state == SendServerCertificate
      modifies this, io
      ensures Stepped(ret)
      ensures ret == Ok ==> state == SendServerKeyExchange
      ensures ret == Ok ==> if cert then CertificateQueued() else io.Quiet()
    {
      var failed: bool := *;
      if failed {
        return Error;
      }
      hasParams := *;
      if cert {
        QueueCertificate();
      }
      state := SendServerKeyExchange;
      ret := Ok;
    }

    /** The certificate, and its status if that was negotiated. */
    twostate predicate CertificateQueued()
      reads this, io
    {
      var n := |old(io.log)|;
      && old(io.log) <= io.log && |io.log| == n + (if statusExpected then 2 else 1)
      && SentType(io.log[n]).Certificate?
      && (statusExpected ==> SentType(io.log[n + 1]).CertificateStatus?)
    }

    method QueueCertificate()
      requires io.Idle() && io.server && io.flow.WillCert?
      modifies io
      ensures io.Idle() && CertificateQueued()
      ensures if statusExpected then io.flow.WillKey? && io.flow.cert else io.flow.WillStatus?
    {
      ghost var q := io.flow;
      io.Add(Certificate);
      OnCertificateSent(q, io.flow);
      if statusExpected {
        q := io.flow;
        io.Add(CertificateStatus);
        OnStatusSent(q, io.flow);
      }
    }

    method DoSendServerKeyExchange() returns (ret: Wait)
      requires Valid() && state == SendServerKeyExchange
      modifies this, io
      ensures Stepped(ret)
      ensures ret == Ok ==> state == SendServerHelloDone
      ensures ret == Ok ==> if old(hasParams) then io.Logged(SendKind(ServerKeyExchange)) else io.Quiet()
    {
      if hasParams {
        ret := Attempt(if cert then PrivateKey else Error);
        if ret != Ok {
          return;
        }
        SendKey();
      }
      state := SendServerHelloDone;
      ret := Ok;
    }

    method SendKey()
      requires io.Idle() && io.server && (io.flow.WillStatus? || io.flow.WillKey?)
      modifies io, `hasParams
      ensures io.Idle() && io.Logged(SendKind(ServerKeyExchange)) && io.flow.WillRequest?
      ensures io.flow.cert == (old(io.flow).WillStatus? || old(io.flow).cert)
    {
      ghost var q := io.flow;
      io.Add(ServerKeyExchange);
      OnKeyExchangeSent(q, io.flow);
      hasParams := false;
    }

    method DoSendServerHelloDone() returns (ret: Wait)
      requires Valid() && state == SendServerHelloDone
      modifies this, io
      ensures Stepped(ret)
      ensures ret == Flush || ret == Error
      ensures ret == Flush ==> state == ReadClientCertificate && HelloEnded()
    {
      var failed: bool := *;
      if failed {
        return Error;
      }
      EndHello();
      state := ReadClientCertificate;
      ret := Flush;
    }

    /** The request for a certificate, if any, and ServerHelloDone. */
    twostate predicate HelloEnded()
      reads this, io
    {
      var n := |old(io.log)|;
      && old(io.log) <= io.log && |io.log| == n + (if certRequest then 2 else 1)
      && (certRequest ==> SentType(io.log[n]).CertificateRequest?)
      && SentType(io.log[|io.log| - 1]).ServerHelloDone?
    }

    method EndHello()
      requires io.Idle() && io.server && (certRequest ==> cert)
      requires AfterCertificate(io.flow) || (io.flow.WillRequest? && io.flow.cert == cert)
      modifies io
      ensures io.Idle() && HelloEnded() && io.flow.Await? && io.flow.asked == certRequest
    {
      ghost var q := io.flow;
      if certRequest {
        io.Add(CertificateRequest);
        OnRequestSent(q, io.flow);
        q := io.flow;
      }
      io.Add(ServerHelloDone);
      OnHelloDoneSent(q, io.flow);
    }

    /** `required` is `SSL_VERIFY_FAIL_IF_NO_PEER_CERT`. */
    method DoReadClientCertificate() returns (ret: Wait)
      requires Valid() && state == ReadClientCertificate
      modifies this, io
      ensures Stepped(ret)
      ensures ret == Ok ==> state == VerifyClientCertificate
      ensures ret == Ok && !certRequest ==> io.Quiet() && !peerKey
      ensures ret == Ok && peerKey ==> CertificateTaken()
      ensures ret == Ok && !peerKey ==> io.Logged(GetKind(Certificate)) || io.Quiet()
    {
      if certRequest {
        if io.current.None? {
          return ReadMessage;
        }
        var required: bool := *;
        if io.current.value.typ == Certificate {
          var ok := TakeCertificate(required);
          if !ok {
            return Error;
          }
        } else if !ssl3 || io.current.value.typ != ClientKeyExchange || required {
          return Error;
        }
      }
      state := VerifyClientCertificate;
      ret := Ok;
    }

    /** A certificate chain with a key in it. */
    twostate predicate CertificateTaken()
      reads this, io
    {
      && |io.log| == |old(io.log)| + 2 && old(io.log) <= io.log
      && KindOf(io.log[|old(io.log)|]) == GetKind(Certificate) && io.log[|old(io.log)| + 1] == PeerKey
    }

    /** The message is hashed and parsed.  An empty chain, without a key, is an error in
        SSL 3.0 or when a certificate is required. */
    method TakeCertificate(required: bool) returns (ok: bool)
      requires io.Idle() && io.server && io.flow.Await? && io.flow.asked && !peerKey
      requires io.current.Some? && io.current.value.typ == Certificate
      modifies io, `peerKey
      ensures ok ==> io.Idle() && if peerKey then io.flow.HasKey? && io.keyHeld else io.flow.GotCert?
      ensures ok ==> if peerKey then CertificateTaken() else io.Logged(GetKind(Certificate))
    {
      var sent: bool := *;
      ghost var q := io.flow;
      ok := io.Read(Certificate);
      if !ok || (!sent && (ssl3 || required)) {
        return false;
      }
      OnCertificate(q, io.flow);
      if sent {
        q := io.flow;
        io.Note(PeerKey);
        OnPeerKey(q, io.flow);
        peerKey := true;
      }
    }

    method DoVerifyClientCertificate() returns (ret: Wait)
      requires Valid() && state == VerifyClientCertificate
      modifies this, io
      ensures Stepped(ret)
      ensures ret == Ok ==> state == ReadClientKeyExchange
      ensures ret == Ok ==> if peerKey then io.Logged(CertVerifiedKind) else io.Quiet()
    {
      if peerKey {
        ghost var q := io.flow;
        var verified := io.VerifyPeerCert();
        if verified.Retry? {
          return CertVerify;
        }
        if verified.Refused? {
          return Error;
        }
        OnCertVerified(q, io.flow);
      }
      state := ReadClientKeyExchange;
      ret := Ok;
    }

    /** The message is hashed only after a decryption that may have to be retried. */
    method DoReadClientKeyExchange() returns (ret: Wait)
      requires Valid() && state == ReadClientKeyExchange
      modifies this, io
      ensures Stepped(ret)
      ensures ret == Ok ==> state == ReadClientCertificateVerify && io.Logged(GetKind(ClientKeyExchange))
    {
      if io.current.None? {
        return ReadMessage;
      }
      if io.current.value.typ != ClientKeyExchange {
        return Error;
      }
      ret := Attempt(PrivateKey);
      if ret.Ok? {
        var ok := TakeKeyExchange();
        if !ok {
          return Error;
        }
        state := ReadClientCertificateVerify;
      }
    }

    method TakeKeyExchange() returns (ok: bool)
      requires io.Idle() && io.server && io.current.Some? && (io.flow.Await? || io.flow.GotCert? || io.flow.KeyOk?)
      modifies io
      ensures ok ==> io.Idle() && io.flow.GotKey? && io.flow.withKey == old(io.flow).KeyOk?
      ensures ok ==> io.Logged(GetKind(ClientKeyExchange))
    {
      ghost var q := io.flow;
      ok := io.Read(ClientKeyExchange);
      if ok {
        OnKeyExchange(q, io.flow);
      }
    }

    /** The signature is checked against the hash without the message that carries it. */
    method DoReadClientCertificateVerify() returns (ret: Wait)
      requires Valid() && state == ReadClientCertificateVerify
      modifies this, io
      ensures Stepped(ret)
      ensures ret == Ok ==> state == ReadChangeCipherSpec
      ensures ret == Ok ==> if peerKey then SignatureTaken() else io.Quiet()
    {
      if peerKey {
        if io.current.None? {
          return ReadMessage;
        }
        if io.current.value.typ != CertificateVerify {
          return Error;
        }
        var good := TakeSignature();
        if !good {
          return Error;
        }
      }
      state := ReadChangeCipherSpec;
      ret := Ok;
    }

    twostate predicate SignatureTaken()
      reads this, io
    {
      && |io.log| == |old(io.log)| + 2 && old(io.log) <= io.log
      && io.log[|old(io.log)|] == SignatureVerified
      && KindOf(io.log[|old(io.log)| + 1]) == GetKind(CertificateVerify)
    }

    method TakeSignature() returns (good: bool)
      requires io.Idle() && io.server && io.flow.GotKey? && io.flow.withKey
      requires io.current.Some? && io.current.value.typ == CertificateVerify
      modifies io
      ensures good ==> io.Idle() && io.flow.AwaitReadCcs? && !io.flow.resumed && SignatureTaken()
      ensures io.keyHeld == old(io.keyHeld)
    {
      ghost var q := io.flow;
      good := io.VerifySignature();
      if good {
        OnSignature(q, io.flow);
        q := io.flow;
        io.Take();
        OnVerify(q, io.flow);
      }
    }

    method DoReadChangeCipherSpec() returns (ret: Wait)
      requires Valid() && state == ReadChangeCipherSpec
      modifies this, io
      ensures Stepped(ret)
      ensures ret == ReadCcs && state == ProcessCcs && io.Quiet()
    {
      state, ccsSeen := ProcessCcs, false;
      ret := ReadCcs;
    }

    method DoProcessCcs() returns (ret: Wait)
      requires Valid() && state == ProcessCcs && ccsSeen
      modifies this, io
      ensures Stepped(ret)
      ensures (ret == Ok || ret == Error) && io.Quiet() && (ret == Ok ==> state == ReadNextProto)
    {
      var failed: bool := *;
      if failed {
        return Error;
      }
      state := ReadNextProto;
      ret := Ok;
    }

    method DoReadNextProto() returns (ret: Wait)
      requires Valid() && state == ReadNextProto
      modifies this, io
      ensures Stepped(ret)
      ensures ret == Ok ==> state == ReadChannelId
      ensures ret == Ok ==> if nextProto then io.Logged(GetKind(NextProto)) else io.Quiet()
    {
      if nextProto {
        if io.current.None? {
          return ReadMessage;
        }
        var ok := TakeNextProto();
        if !ok {
          return Error;
        }
      }
      state := ReadChannelId;
      ret := Ok;
    }

    method TakeNextProto() returns (ok: bool)
      requires io.Idle() && io.server && io.flow.AwaitCcs? && io.current.Some?
      modifies io
      ensures ok ==> io.Idle() && io.flow.GotProto? && io.flow.resumed == old(io.flow).resumed
      ensures ok ==> io.Logged(GetKind(NextProto))
    {
      ghost var q := io.flow;
      ok := io.Read(NextProto);
      if ok {
        OnProto(q, io.flow);
      }
    }

    /** The signature in it is checked before it is hashed. */
    method DoReadChannelId() returns (ret: Wait)
      requires Valid() && state == ReadChannelId
      modifies this, io
      ensures Stepped(ret)
      ensures ret == Ok ==> state == ReadClientFinished
      ensures ret == Ok ==> if channelId then io.Logged(GetKind(ChannelId)) else io.Quiet()
    {
      if channelId {
        if io.current.None? {
          return ReadMessage;
        }
        var ok := TakeChannelId();
        if !ok {
          return Error;
        }
      }
      state := ReadClientFinished;
      ret := Ok;
    }

    method TakeChannelId() returns (ok: bool)
      requires io.Idle() && io.server && (io.flow.AwaitCcs? || io.flow.GotProto?) && io.current.Some?
      modifies io
      ensures ok ==> io.Idle() && io.flow.AwaitFinished? && io.flow.resumed == old(io.flow).resumed
      ensures ok ==> io.Logged(GetKind(ChannelId))
    {
      var failed: bool := *;
      if io.current.value.typ != ChannelId || failed {
        return false;
      }
      ghost var q := io.flow;
      io.Take();
      OnId(q, io.flow);
      ok := true;
    }

    method DoReadClientFinished() returns (ret: Wait)
      requires Valid() && state == ReadClientFinished
      modifies this, io
      ensures Stepped(ret)
      ensures ret == Ok || ret == ReadMessage || ret == Error
      ensures ret == Ok ==> state == if session then FinishHandshake else SendServerFinished
      ensures ret == Ok ==>
                |io.log| == |old(io.log)| + 2
                && io.log[|old(io.log)|] == FinishedVerified(io.mac(old(io.transcript), false))
    {
      if io.current.None? {
        return ReadMessage;
      }
      var ok := TakeFinished();
      if !ok {
        return Error;
      }
      state := if session then FinishHandshake else SendServerFinished;
      ret := Ok;
    }

    /** The Finished, and the record of the hashes for Channel ID, which may fail. */
    method TakeFinished() returns (ok: bool)
      requires io.Idle() && io.server && (io.flow.AwaitCcs? || io.flow.GotProto? || io.flow.AwaitFinished?)
      requires io.current.Some?
      modifies io
      ensures ok ==> io.Idle() && io.keyHeld == old(io.keyHeld)
      ensures ok ==> if old(io.flow).resumed then io.flow.Done? else io.flow.WillTicket? && !io.flow.resumed
      ensures ok ==>
                |io.log| == |old(io.log)| + 2
                && io.log[|old(io.log)|] == FinishedVerified(io.mac(old(io.transcript), false))
    {
      var failed: bool := *;
      ghost var q, mid := io.flow, io.flow;
      ok, mid := io.GetFinished();
      if ok {
        OnFinishedVerified(q, mid);
        OnFinished(mid, io.flow);
      }
      ok := ok && !failed;
    }

    method DoSendServerFinished() returns (ret: Wait)
      requires Valid() && state == SendServerFinished
      modifies this, io
      ensures Stepped(ret)
      ensures ret == Flush || ret == Error
      ensures ret == Flush ==> state == if session then ReadChangeCipherSpec else FinishHandshake
      ensures ret == Flush ==> FlightSent()
    {
      var failed: bool := *;
      if failed {
        return Error;
      }
      SendLastFlight();
      state := if session then ReadChangeCipherSpec else FinishHandshake;
      ret := Flush;
    }

    /** What the server sends last: a ticket if one is due, its ChangeCipherSpec and its
        Finished. */
    twostate predicate FlightSent()
      reads this, io
    {
      var n, k := |old(io.log)|, if ticketExpected then 1 else 0;
      && old(io.log) <= io.log && |io.log| == n + k + 2
      && (ticketExpected ==> SentType(io.log[n]).NewSessionTicket?)
      && io.log[n + k].SentCcs?
      && SentType(io.log[n + k + 1]).Finished?
    }

    method SendLastFlight()
      requires Valid() && state == SendServerFinished
      modifies io
      ensures io.Idle() && FlightSent()
      ensures io.keyHeld == old(io.keyHeld)
      ensures if session then io.flow.AwaitReadCcs? && io.flow.resumed else io.flow.Done?
    {
      ghost var q := io.flow;
      if ticketExpected {
        io.Add(NewSessionTicket);
        OnTicketSent(q, io.flow);
      }
      SendFinished();
    }

    method SendFinished()
      requires io.Idle() && io.server && (io.flow.WillTicket? || io.flow.WillCcs?)
      modifies io
      ensures io.Idle() && io.keyHeld == old(io.keyHeld)
      ensures if old(io.flow).resumed then io.flow.AwaitReadCcs? && io.flow.resumed else io.flow.Done?
      ensures |io.log| == |old(io.log)| + 2 && old(io.log) <= io.log
      ensures io.log[|old(io.log)|].SentCcs? && SentType(io.log[|old(io.log)| + 1]).Finished?
    {
      ghost var q := io.flow;
      io.Note(SentCcs);
      OnCcsSent(q, io.flow);
      q := io.flow;
      io.AddFinished();
      OnFinishedSent(q, io.flow);
    }

    method DoFinishHandshake() returns (ret: Wait)
      requires Valid() && state == FinishHandshake
      modifies this, io
      ensures Stepped(ret)
      ensures ret == Ok && state == Complete && io.Quiet()
    {
      state := Complete;
      ret := Ok;
    }

    /** One turn of the loop of `ssl_server_handshake`. */
    method DoStep() returns (ret: Wait)
      requires Valid() && state != Complete && (state == ProcessCcs ==> ccsSeen)
      modifies this, io
      ensures Stepped(ret)
    {
      match state
      case StartAccept => ret := DoStartAccept();
      case ReadClientHello => ret := DoReadClientHello();
      case SelectCertificate => ret := DoSelectCertificate();
      case Tls13 => ret := Stop;
      case SelectParameters => ret := DoSelectParameters();
      case SendServerHello => ret := DoSendServerHello();
      case SendServerCertificate => ret := DoSendServerCertificate();
      case SendServerKeyExchange => ret := DoSendServerKeyExchange();
      case SendServerHelloDone => ret := DoSendServerHelloDone();
      case ReadClientCertificate => ret := DoReadClientCertificate();
      case VerifyClientCertificate => ret := DoVerifyClientCertificate();
      case ReadClientKeyExchange => ret := DoReadClientKeyExchange();
      case ReadClientCertificateVerify => ret := DoReadClientCertificateVerify();
      case ReadChangeCipherSpec => ret := DoReadChangeCipherSpec();
      case ProcessCcs => ret := DoProcessCcs();
      case ReadNextProto => ret := DoReadNextProto();
      case ReadChannelId => ret := DoReadChannelId();
      case ReadClientFinished => ret := DoReadClientFinished();
      case SendServerFinished => ret := DoSendServerFinished();
      case FinishHandshake => ret := DoFinishHandshake();
    }

    /** The state between calls, when `w` is what the handshake waits for. */
    ghost predicate Ready(w: Wait)
      reads this, io
    {
      && Valid()
      && (state == ProcessCcs ==> w == ReadCcs && !ccsSeen)
      && (w == ReadHello || w == ReadMessage ==> io.current.None?)
    }

    /** `ssl_server_handshake`: steps until one waits or the handshake is complete. */
    method Handshake() returns (ret: Wait)
      requires Valid() && (state == ProcessCcs ==> ccsSeen)
      modifies this, io
      ensures ret != Error ==> Ready(ret)
      ensures ret == Ok ==> state == Complete
    {
      ret := Ok;
      while state != Complete
        invariant Valid() && ret == Ok && (state == ProcessCcs ==> ccsSeen)
        decreases Rank(state, session)
      {
        ret := DoStep();
        if ret != Ok {
          return;
        }
      }
    }

    /** What a finished handshake has done, whatever the suspensions on the way: hashed
        each message once, sent one Finished and verified one, and, if it holds a client's
        key, verified the certificate it came in and the client's signature. */
    ghost predicate Settled()
      reads this, io
    {
      && state == Complete && io.transcript == Hashed(io.log)
      && FlowOf(true, io.log).Done? && CountSentFinished(io.log) == 1 && CountVerified(io.log) == 1
      && (peerKey || PeerKey in io.log ==> SignatureVerified in io.log && CertVerified in io.log)
    }

    /** `ssl_run_handshake`, called again and again: the transport makes progress `turns`
        times before it blocks.  `ret` is 1 when the handshake is complete or, if `early`,
        when the application may go ahead. */
    method RunHandshake(turns: nat) returns (ret: int, early: bool)
      requires wait != Error ==> Ready(wait)
      modifies this, io
      ensures wait != Error ==> Ready(wait)
      ensures old(wait) == Error ==> ret == -1 && wait == Error
      ensures ret == 1 && !early ==> Settled()
    {
      ret, early := -1, false;
      var more := true;
      for turn := 0 to turns
        invariant wait != Error ==> Ready(wait)
        invariant old(wait) == Error ==> wait == Error
        invariant more && ret == -1
      {
        more, ret, early := Turn();
        if !more {
          if ret == 1 && !early {
            Conclude();
          }
          return;
        }
      }
    }

    /** One turn of its loop: what was waited for, then the state machine.  `more` is false
        when it returns. */
    method Turn() returns (more: bool, ret: int, early: bool)
      requires wait != Error ==> Ready(wait)
      modifies this, io
      ensures wait != Error ==> Ready(wait)
      ensures old(wait) == Error ==> !more && ret == -1 && wait == Error
      ensures more ==> ret == -1
      ensures !more && ret == 1 && !early ==> state == Complete && wait != Error
    {
      more, ret, early := false, -1, false;
      if wait == Error {
        return;
      }
      if wait == EarlyReturn {
        wait := Ok;
        return false, 1, true;
      }
      var go := Arrives();
      if go {
        more, ret := Proceed();
      }
    }

    /** What was waited for: the transport may block, and a callback's wait is over once it
        has been reported. */
    method Arrives() returns (go: bool)
      requires wait != Error && wait != EarlyReturn && Ready(wait)
      modifies this, io
      ensures !go ==> wait != Error && Ready(wait)
      ensures go ==> Valid() && (state == ProcessCcs ==> ccsSeen)
    {
      if wait == Flush || wait == ReadHello || wait == ReadMessage || wait == ReadCcs {
        var blocked: bool := *;
        if blocked {
          return false;
        }
        Resolve();
      } else if wait != Ok {
        wait := if wait == Stop then Stop else Ok;
        return false;
      }
      go := true;
    }

    /** The rest of the turn: the state machine runs until it waits. */
    method Proceed() returns (more: bool, ret: int)
      requires Valid() && (state == ProcessCcs ==> ccsSeen)
      modifies this, io
      ensures wait != Error ==> Ready(wait)
      ensures more ==> ret == -1
      ensures !more && ret == 1 ==> state == Complete && wait != Error
    {
      wait := Handshake();
      more, ret := wait != Ok && wait != Error, if wait == Ok then 1 else -1;
    }

    /** What the handshake waited for has happened. */
    method Resolve()
      requires Ready(wait) && wait != Ok
      modifies this, io
      ensures Valid() && wait == old(wait) && state == old(state) && (state == ProcessCcs ==> ccsSeen)
    {
      if wait == ReadHello || wait == ReadMessage {
        io.Receive();
      } else if wait == ReadCcs && state == ProcessCcs {
        ghost var q := io.flow;
        io.Note(GotCcs);
        OnCcs(q, io.flow);
        ccsSeen := true;
      }
    }

    lemma Conclude()
      requires Valid() && state == Complete
      ensures Settled()
    {
      KeptMeans(io.server, io.mac, io.log, io.flow, io.keyHeld, io.transcript, io.InHand());
      OneFinishedEach(true, io.log);
      HeldInLog(io.log);
      if PeerKey in io.log {
        ServerDoneProved(io.log);
      }
    }
  }
}
