/**
 `ssl_client_handshake` up to TLS 1.2: a resumable state machine whose steps queue and
 consume messages.  What callbacks, parsers, cryptography and the peer decide is left
 open; every step is proved to keep the log of events within the protocol's order and the
 handshake hash equal to what that log demands, and to make progress unless it suspends.
 */
module ClientHandshake {
  import opened Wrappers
  import opened HandshakeFlow
  import opened Channel

  datatype State =
    StartConnect | EnterEarlyData | ReadHelloVerify | ReadServerHello | Tls13
    | ReadServerCertificate | ReadCertificateStatus | VerifyServerCertificate | ReadServerKeyExchange
    | ReadCertificateRequest | ReadServerHelloDone | SendClientCertificate | SendClientKeyExchange
    | SendCertificateVerify | SendClientFinished | FinishFlight | ReadSessionTicket | ProcessCcs
    | ReadServerFinished | FinishHandshake | Complete

  /** How many steps remain at most.  A resumed session goes through the last states in
      another order. */
  function Rank(s: State, resumed: bool): nat {
    match s
    case StartConnect => 21
    case EnterEarlyData => 20
    case ReadHelloVerify => 19
    case ReadServerHello => 18
    case Tls13 => 17
    case ReadServerCertificate => 16
    case ReadCertificateStatus => 15
    case VerifyServerCertificate => 14
    case ReadServerKeyExchange => 13
    case ReadCertificateRequest => 12
    case ReadServerHelloDone => 11
    case SendClientCertificate => 10
    case SendClientKeyExchange => 9
    case SendCertificateVerify => 8
    case SendClientFinished => if resumed then 3 else 7
    case FinishFlight => if resumed then 2 else 6
    case ReadSessionTicket => if resumed then 7 else 5
    case ProcessCcs => if resumed then 6 else 4
    case ReadServerFinished => if resumed then 5 else 3
    case FinishHandshake => 1
    case Complete => 0
  }

  // ---------- how each event moves the protocol on ----------

  lemma OnHelloSent(q: Flow, q': Flow)
    requires Moves(false, q, SendKind(ClientHello), q')
    ensures q.Start? ==> q'.Hello1?
    ensures q.Retry? ==> q'.Hello2?
  {
    Moved(false, q, SendKind(ClientHello), q');
  }

  lemma OnVerifyRequest(q: Flow, q': Flow)
    requires Moves(false, q, GetKind(HelloVerifyRequest), q')
    ensures q.Hello1? ==> q'.Retry?
  {
    Moved(false, q, GetKind(HelloVerifyRequest), q');
  }

  lemma OnEarlyCcs(q: Flow, q': Flow)
    requires Moves(false, q, SentCcsKind, q')
    ensures q.Hello1? ==> q'.EarlyHello?
  {
    Moved(false, q, SentCcsKind, q');
  }

  lemma OnServerHello(q: Flow, q': Flow)
    requires Moves(false, q, GetKind(ServerHello), q')
    ensures q.Hello1? || q.Hello2? ==> q'.Hellos?
  {
    Moved(false, q, GetKind(ServerHello), q');
  }

  lemma OnNegotiated(q: Flow, q': Flow, resumed: bool, cert: bool)
    requires Moves(false, q, NegotiatedKind(resumed, cert), q')
    ensures q.Hellos? && resumed ==> q'.WantTicket? && q'.resumed
    ensures q.Hellos? && !resumed ==> if cert then q'.WantCert? else q'.WantKey? && !q'.cert
  {
    Moved(false, q, NegotiatedKind(resumed, cert), q');
  }

  lemma OnCertificate(q: Flow, q': Flow)
    requires Moves(false, q, GetKind(Certificate), q')
    ensures q.WantCert? ==> q'.WantStatus?
  {
    Moved(false, q, GetKind(Certificate), q');
  }

  lemma OnStatus(q: Flow, q': Flow)
    requires Moves(false, q, GetKind(CertificateStatus), q')
    ensures q.WantStatus? ==> q'.WantVerify?
  {
    Moved(false, q, GetKind(CertificateStatus), q');
  }

  lemma OnCertVerified(q: Flow, q': Flow)
    requires Moves(false, q, CertVerifiedKind, q')
    ensures q.WantStatus? || q.WantVerify? ==> q'.WantKey? && q'.cert
  {
    Moved(false, q, CertVerifiedKind, q');
  }

  lemma OnSignature(q: Flow, q': Flow)
    requires Moves(false, q, SignatureVerifiedKind, q')
    ensures q.WantKey? && q.cert ==> q'.KeySigned?
  {
    Moved(false, q, SignatureVerifiedKind, q');
  }

  lemma OnKeyExchange(q: Flow, q': Flow)
    requires Moves(false, q, GetKind(ServerKeyExchange), q')
    ensures q.WantKey? && !q.cert ==> q'.WantRequest? && !q'.cert
    ensures q.KeySigned? ==> q'.WantRequest? && q'.cert
  {
    Moved(false, q, GetKind(ServerKeyExchange), q');
  }

  lemma OnRequest(q: Flow, q': Flow)
    requires Moves(false, q, GetKind(CertificateRequest), q')
    ensures (q.WantKey? || q.WantRequest?) && q.cert ==> q'.WantHelloDone?
  {
    Moved(false, q, GetKind(CertificateRequest), q');
  }

  lemma OnHelloDone(q: Flow, q': Flow)
    requires Moves(false, q, GetKind(ServerHelloDone), q')
    ensures q.WantKey? || q.WantRequest? ==> q'.Answer? && !q'.asked
    ensures q.WantHelloDone? ==> q'.Answer? && q'.asked
  {
    Moved(false, q, GetKind(ServerHelloDone), q');
  }

  lemma OnCertificateSent(q: Flow, q': Flow)
    requires Moves(false, q, SendKind(Certificate), q')
    ensures q.Answer? && q.asked ==> q'.CertSent?
  {
    Moved(false, q, SendKind(Certificate), q');
  }

  lemma OnKeySent(q: Flow, q': Flow)
    requires Moves(false, q, SendKind(ClientKeyExchange), q')
    ensures q.Answer? ==> q'.KeySent? && !q'.withCert
    ensures q.CertSent? ==> q'.KeySent? && q'.withCert
  {
    Moved(false, q, SendKind(ClientKeyExchange), q');
  }

  lemma OnVerifySent(q: Flow, q': Flow)
    requires Moves(false, q, SendKind(CertificateVerify), q')
    ensures q.KeySent? && q.withCert ==> q'.VerifySent?
  {
    Moved(false, q, SendKind(CertificateVerify), q');
  }

  lemma OnCcsSent(q: Flow, q': Flow)
    requires Moves(false, q, SentCcsKind, q')
    ensures q.KeySent? || q.VerifySent? ==> q'.WriteCipher? && !q'.resumed
    ensures q.Reply? ==> q'.WriteCipher? && q'.resumed
  {
    Moved(false, q, SentCcsKind, q');
  }

  lemma OnProtoSent(q: Flow, q': Flow)
    requires Moves(false, q, SendKind(NextProto), q')
    ensures q.WriteCipher? ==> q'.ProtoSent? && q'.resumed == q.resumed
  {
    Moved(false, q, SendKind(NextProto), q');
  }

  lemma OnIdSent(q: Flow, q': Flow)
    requires Moves(false, q, SendKind(ChannelId), q')
    ensures q.WriteCipher? || q.ProtoSent? ==> q'.IdSent? && q'.resumed == q.resumed
  {
    Moved(false, q, SendKind(ChannelId), q');
  }

  lemma OnFinishedSent(q: Flow, q': Flow)
    requires Moves(false, q, SendKind(Finished), q')
    ensures q.WriteCipher? || q.ProtoSent? || q.IdSent? ==>
              if q.resumed then q'.Done? else q'.WantTicket? && !q'.resumed
  {
    Moved(false, q, SendKind(Finished), q');
  }

  lemma OnTicket(q: Flow, q': Flow)
    requires Moves(false, q, GetKind(NewSessionTicket), q')
    ensures q.WantTicket? ==> q'.WantCcs? && q'.resumed == q.resumed
  {
    Moved(false, q, GetKind(NewSessionTicket), q');
  }

  lemma OnCcs(q: Flow, q': Flow)
    requires Moves(false, q, GotCcsKind, q')
    ensures q.WantTicket? || q.WantCcs? ==> q'.WantFinished? && q'.resumed == q.resumed
  {
    Moved(false, q, GotCcsKind, q');
  }

  lemma OnFinishedVerified(q: Flow, q': Flow)
    requires Moves(false, q, FinishedVerifiedKind, q')
    ensures q.WantFinished? ==> q'.FinishedOk? && q'.resumed == q.resumed
  {
    Moved(false, q, FinishedVerifiedKind, q');
  }

  lemma OnFinished(q: Flow, q': Flow)
    requires Moves(false, q, GetKind(Finished), q')
    ensures q.FinishedOk? ==> if q.resumed then q'.Reply? else q'.Done?
  {
    Moved(false, q, GetKind(Finished), q');
  }

  class Client {
    var state: State
    var wait: Wait
    const io: Channel
    const isDtls: bool
    /** `hs->early_data_offered`. */
    var earlyOffered: bool
    /** `ssl->session`: one is offered and, from the ServerHello on, being resumed. */
    var session: bool
    /** `ssl_cipher_uses_certificate_auth` and `ssl_cipher_requires_server_key_exchange` of
        the chosen cipher. */
    var cert: bool
    var needsKey: bool
    var ssl3: bool
    var statusExpected: bool
    var certRequest: bool
    var hasCertificate: bool
    var ticketExpected: bool
    var nextProto: bool
    var channelId: bool
    /** The ChangeCipherSpec that `ProcessCcs` acts on has arrived. */
    ghost var ccsSeen: bool

    /** Where in the protocol each state stands. */
    ghost predicate Placed()
      reads this, io
    {
      var q := io.flow;
      match state
      case StartConnect => !certRequest && q.Start?
      case EnterEarlyData => !certRequest && q.Hello1?
      case ReadHelloVerify => isDtls && !certRequest && q.Hello1?
      case ReadServerHello => !certRequest && if earlyOffered && !isDtls then q.EarlyHello? else q.Hello1? || q.Hello2?
      case Tls13 => true
      case ReadServerCertificate => !session && !certRequest && if cert then q.WantCert? else WantsKey(q)
      case ReadCertificateStatus => !session && !certRequest && if cert then q.WantStatus? else WantsKey(q)
      case VerifyServerCertificate =>
        !session && !certRequest && if cert then q.WantStatus? || q.WantVerify? else WantsKey(q)
      case ReadServerKeyExchange => !session && !certRequest && WantsKey(q)
      case ReadCertificateRequest => !session && !certRequest && MayRequest(q)
      case ReadServerHelloDone => !session && if certRequest then q.WantHelloDone? else MayRequest(q)
      case SendClientCertificate => !session && q.Answer? && q.asked == certRequest
      case SendClientKeyExchange =>
        !session
        && if certRequest && (hasCertificate || !ssl3) then q.CertSent? else q.Answer? && q.asked == certRequest
      case SendCertificateVerify => !session && q.KeySent? && (certRequest && hasCertificate ==> q.withCert)
      case SendClientFinished => if session then q.Reply? else q.KeySent? || q.VerifySent?
      case FinishFlight => if session then q.Done? else q.WantTicket? && !q.resumed
      case ReadSessionTicket => q.WantTicket? && q.resumed == session
      case ProcessCcs => (if ccsSeen then q.WantFinished? else q.WantTicket? || q.WantCcs?) && q.resumed == session
      case ReadServerFinished => q.WantFinished? && q.resumed == session
      case FinishHandshake => q.Done?
      case Complete => q.Done?
    }

    ghost predicate WantsKey(q: Flow)
      reads this
    {
      q.WantKey? && q.cert == cert
    }

    ghost predicate MayRequest(q: Flow)
      reads this
    {
      (q.WantKey? || q.WantRequest?) && q.cert == cert
    }

    ghost predicate Valid()
      reads this, io
    {
      io.Idle() && !io.server && Placed() && (statusExpected ==> cert)
    }

    /** What every step promises: unless it fails the invariant holds; if it does not wait
        the rank falls; and a step that suspends has done nothing that running it again
        would repeat. */
    twostate predicate Stepped(ret: Wait)
      reads this, io
    {
      ret != Error ==>
        && Valid()
        && (ret == Ok ==> Rank(state, session) < old(Rank(state, session)))
        && (Suspends(ret) ==> state == old(state) && io.Quiet())
        && (state == ProcessCcs ==> ret == ReadCcs && !ccsSeen)
        && (ret == ReadHello || ret == ReadMessage ==> io.current.None?)
    }

    constructor (isDtls: bool, session: bool, earlyOffered: bool, mac: (seq<Msg>, bool) -> nat)
      ensures Valid() && state == StartConnect && wait == Ok && io.log == []
    {
      state, wait := StartConnect, Ok;
      this.isDtls, this.session, this.earlyOffered := isDtls, session, earlyOffered;
      cert, needsKey, ssl3, statusExpected, certRequest, hasCertificate := false, false, false, false, false, false;
      ticketExpected, nextProto, channelId, ccsSeen := false, false, false, false;
      io := new Channel(false, mac);
    }

    method DoStartConnect() returns (ret: Wait)
      requires Valid() && state == StartConnect
      modifies this, io
      ensures Stepped(ret)
      ensures ret != Error ==> ret == Flush && state == EnterEarlyData && io.Logged(SendKind(ClientHello))
    {
      var drop: bool, failed: bool := *, *;
      if session && drop {
        session := false;
      }
      if failed {
        return Error;
      }
      ghost var q := io.flow;
      io.Add(ClientHello);
      OnHelloSent(q, io.flow);
      state := EnterEarlyData;
      ret := Flush;
    }

    /** A ChangeCipherSpec is queued before early data, whose keys may fail to be set. */
    method DoEnterEarlyData() returns (ret: Wait)
      requires Valid() && state == EnterEarlyData
      modifies this, io
      ensures Stepped(ret)
      ensures ret == Ok ==> io.Quiet() && state == if isDtls then ReadHelloVerify else ReadServerHello
      ensures if isDtls || !earlyOffered then ret == Ok else ret == EarlyReturn || ret == Error
      ensures ret == EarlyReturn ==> state == ReadServerHello && io.Logged(SentCcsKind)
    {
      ret := Ok;
      if !isDtls && earlyOffered {
        var ok := BeginEarlyData();
        if !ok {
          return Error;
        }
        ret := EarlyReturn;
      }
      state := if isDtls then ReadHelloVerify else ReadServerHello;
    }

    method BeginEarlyData() returns (ok: bool)
      requires io.Idle() && !io.server && io.flow.Hello1?
      modifies io
      ensures ok ==> io.Idle() && io.flow.EarlyHello? && io.Logged(SentCcsKind)
    {
      ok := *;
      if ok {
        ghost var q := io.flow;
        io.Note(SentCcs);
        OnEarlyCcs(q, io.flow);
      }
    }

    method DoReadHelloVerify() returns (ret: Wait)
      requires Valid() && state == ReadHelloVerify
      modifies this, io
      ensures Stepped(ret)
      ensures ret == Ok || ret == Flush ==> state == ReadServerHello
      ensures ret == Ok ==> io.Quiet()
      ensures ret == Flush ==> |io.log| == |old(io.log)| + 2 && SentType(io.log[|io.log| - 1]).ClientHello?
      ensures ret == Flush ==> io.transcript == [io.log[|io.log| - 1].m]
    {
      if io.current.None? {
        return ReadMessage;
      }
      if io.current.value.typ != HelloVerifyRequest {
        state := ReadServerHello;
        return Ok;
      }
      var failed: bool := *;
      if failed {
        return Error;
      }
      Regreet();
      state := ReadServerHello;
      ret := Flush;
    }

    /** The hash starts afresh with the same hello once more. */
    method Regreet()
      requires io.Idle() && !io.server && io.flow.Hello1?
      requires io.current.Some? && io.current.value.typ == HelloVerifyRequest
      modifies io
      ensures io.Idle() && io.flow.Hello2?
      ensures |io.log| == |old(io.log)| + 2 && SentType(io.log[|io.log| - 1]).ClientHello?
      ensures io.transcript == [io.log[|io.log| - 1].m]
    {
      ghost var q := io.flow;
      io.Restart();
      OnVerifyRequest(q, io.flow);
      q := io.flow;
      io.Add(ClientHello);
      OnHelloSent(q, io.flow);
    }

    method DoReadServerHello() returns (ret: Wait)
      requires Valid() && state == ReadServerHello
      modifies this, io
      ensures Stepped(ret)
      ensures ret == Ok ==> state == Tls13 || state == ReadSessionTicket || state == ReadServerCertificate
      ensures ret == Ok && state == Tls13 ==> io.Quiet()
      ensures ret == Ok && state != Tls13 ==> Accepted()
      ensures ret == Ok && state == ReadSessionTicket ==> old(session) && session
    {
      if io.current.None? {
        return ReadHello;
      }
      var failed: bool, tls13: bool, matches: bool := *, *, *;
      if io.current.value.typ != ServerHello || failed {
        return Error;
      }
      if tls13 {
        state := Tls13;
        return Ok;
      }
      if earlyOffered {
        return Error;
      }
      if !(session && matches) {
        session := false;
      }
      var ok := AcceptServerHello();
      ret := if ok then Ok else Error;
    }

    /** The ServerHello is in the hash, and what it settled is on record. */
    twostate predicate Accepted()
      reads this, io
    {
      && |io.log| == |old(io.log)| + 2 && old(io.log) <= io.log
      && KindOf(io.log[|old(io.log)|]) == GetKind(ServerHello)
      && io.log[|old(io.log)| + 1] == Negotiated(session, cert)
    }

    /** CertificateStatus is negotiated with certificate ciphers only (t1_lib.cc). */
    method Negotiate()
      modifies `cert, `needsKey, `ssl3, `ticketExpected, `nextProto, `channelId, `statusExpected
      ensures statusExpected ==> cert
    {
      var status: bool := *;
      cert, needsKey, ssl3 := *, *, *;
      ticketExpected, nextProto, channelId := *, *, *;
      statusExpected := status && cert;
    }

    /** The parameters of the handshake are settled, then the hello is hashed, its
        extensions are parsed and it is dropped. */
    method AcceptServerHello() returns (ok: bool)
      requires Valid() && state == ReadServerHello && !earlyOffered
      requires io.current.Some? && io.current.value.typ == ServerHello
      modifies this, io
      ensures ok ==> Valid() && session == old(session) && Accepted()
      ensures ok ==> state == if session then ReadSessionTicket else ReadServerCertificate
    {
      Negotiate();
      ok := TakeServerHello();
      state := if session then ReadSessionTicket else ReadServerCertificate;
    }

    method TakeServerHello() returns (ok: bool)
      requires io.Idle() && !io.server && (io.flow.Hello1? || io.flow.Hello2?) && io.current.Some?
      modifies io
      ensures ok ==> io.Idle() && Accepted()
      ensures ok && session ==> io.flow.WantTicket? && io.flow.resumed
      ensures ok && !session ==> if cert then io.flow.WantCert? else io.flow.WantKey? && !io.flow.cert
    {
      ghost var q := io.flow;
      ok := io.Read(ServerHello);
      if ok {
        OnServerHello(q, io.flow);
        q := io.flow;
        io.Note(Negotiated(session, cert));
        OnNegotiated(q, io.flow, session, cert);
      }
    }

    method DoReadServerCertificate() returns (ret: Wait)
      requires Valid() && state == ReadServerCertificate
      modifies this, io
      ensures Stepped(ret)
      ensures ret == Ok ==> state == ReadCertificateStatus
      ensures ret == Ok ==> if cert then io.Logged(GetKind(Certificate)) else io.Quiet()
    {
      if cert {
        if io.current.None? {
          return ReadMessage;
        }
        ghost var q := io.flow;
        var ok := io.Read(Certificate);
        if !ok {
          return Error;
        }
        OnCertificate(q, io.flow);
      }
      state := ReadCertificateStatus;
      ret := Ok;
    }

    /** The server may have changed its mind about sending one. */
    method DoReadCertificateStatus() returns (ret: Wait)
      requires Valid() && state == ReadCertificateStatus
      modifies this, io
      ensures Stepped(ret)
      ensures ret == Ok ==> state == VerifyServerCertificate
      ensures ret == Ok ==> io.Quiet() || (statusExpected && io.Logged(GetKind(CertificateStatus)))
    {
      if !statusExpected {
        state := VerifyServerCertificate;
        return Ok;
      }
      if io.current.None? {
        return ReadMessage;
      }
      if io.current.value.typ != CertificateStatus {
        state := VerifyServerCertificate;
        return Ok;
      }
      ghost var q := io.flow;
      var ok := io.Read(CertificateStatus);
      if !ok {
        return Error;
      }
      OnStatus(q, io.flow);
      state := VerifyServerCertificate;
      ret := Ok;
    }

    method DoVerifyServerCertificate() returns (ret: Wait)
      requires Valid() && state == VerifyServerCertificate
      modifies this, io
      ensures Stepped(ret)
      ensures ret == Ok ==> state == ReadServerKeyExchange
      ensures ret == Ok ==> if cert then io.Logged(CertVerifiedKind) else io.Quiet()
    {
      if !cert {
        state := ReadServerKeyExchange;
        return Ok;
      }
      ghost var q := io.flow;
      var verified := io.VerifyPeerCert();
      if verified.Retry? {
        return CertVerify;
      }
      if verified.Refused? {
        return Error;
      }
      OnCertVerified(q, io.flow);
      state := ReadServerKeyExchange;
      ret := Ok;
    }

    method DoReadServerKeyExchange() returns (ret: Wait)
      requires Valid() && state == ReadServerKeyExchange
      modifies this, io
      ensures Stepped(ret)
      ensures ret == Ok ==> state == ReadCertificateRequest
      ensures ret == Ok ==> KeyExchangeTaken() || (!needsKey && io.Quiet())
    {
      if io.current.None? {
        return ReadMessage;
      }
      if io.current.value.typ != ServerKeyExchange {
        if needsKey {
          return Error;
        }
        state := ReadCertificateRequest;
        return Ok;
      }
      var ok := TakeKeyExchange();
      state := ReadCertificateRequest;
      ret := if ok then Ok else Error;
    }

    /** The message, after a good signature if the cipher has a certificate. */
    twostate predicate KeyExchangeTaken()
      reads this, io
    {
      var n := |old(io.log)|;
      && old(io.log) <= io.log && |io.log| == n + (if cert then 2 else 1)
      && (cert ==> io.log[n] == SignatureVerified)
      && KindOf(io.log[|io.log| - 1]) == GetKind(ServerKeyExchange)
    }

    /** It is hashed, parsed, checked and dropped. */
    method TakeKeyExchange() returns (ok: bool)
      requires io.Idle() && !io.server && WantsKey(io.flow)
      requires io.current.Some? && io.current.value.typ == ServerKeyExchange
      modifies io
      ensures ok ==> io.Idle() && io.flow.WantRequest? && io.flow.cert == cert && KeyExchangeTaken()
    {
      var failed: bool := *;
      ghost var q := io.flow;
      io.Hash();
      if failed {
        return false;
      }
      if cert {
        ok := io.VerifySignature();
        if !ok {
          return;
        }
        OnSignature(q, io.flow);
        q := io.flow;
      }
      io.Next();
      OnKeyExchange(q, io.flow);
      ok := true;
    }

    method DoReadCertificateRequest() returns (ret: Wait)
      requires Valid() && state == ReadCertificateRequest
      modifies this, io
      ensures Stepped(ret)
      ensures ret == Ok ==> state == ReadServerHelloDone
      ensures ret == Ok ==> if certRequest then cert && io.Logged(GetKind(CertificateRequest)) else io.Quiet()
    {
      if cert {
        if io.current.None? {
          return ReadMessage;
        }
        if io.current.value.typ != ServerHelloDone {
          var ok := TakeRequest();
          if !ok {
            return Error;
          }
        }
      }
      state := ReadServerHelloDone;
      ret := Ok;
    }

    method TakeRequest() returns (ok: bool)
      requires io.Idle() && !io.server && MayRequest(io.flow) && cert && io.current.Some?
      modifies io, `certRequest
      ensures ok ==> io.Idle() && io.flow.WantHelloDone? && certRequest && io.Logged(GetKind(CertificateRequest))
    {
      ghost var q := io.flow;
      ok := io.Read(CertificateRequest);
      if ok {
        OnRequest(q, io.flow);
        certRequest := true;
      }
    }

    method DoReadServerHelloDone() returns (ret: Wait)
      requires Valid() && state == ReadServerHelloDone
      modifies this, io
      ensures Stepped(ret)
      ensures ret == Ok ==> state == SendClientCertificate && io.Logged(GetKind(ServerHelloDone))
    {
      if io.current.None? {
        return ReadMessage;
      }
      ghost var q := io.flow;
      var ok := io.Read(ServerHelloDone);
      if !ok {
        return Error;
      }
      OnHelloDone(q, io.flow);
      state := SendClientCertificate;
      ret := Ok;
    }

    /** Without a certificate SSL 3.0 sends nothing, later versions an empty message. */
    method DoSendClientCertificate() returns (ret: Wait)
      requires Valid() && state == SendClientCertificate
      modifies this, io
      ensures Stepped(ret)
      ensures ret == Ok ==> state == SendClientKeyExchange
      ensures ret == Ok ==>
                if certRequest && (hasCertificate || !ssl3) then io.Logged(SendKind(Certificate)) else io.Quiet()
    {
      if certRequest {
        ret := Attempt(X509Lookup);
        if ret != Ok {
          return;
        }
        AnswerRequest();
      }
      state := SendClientKeyExchange;
      ret := Ok;
    }

    /** The certificate callback has chosen. */
    method AnswerRequest()
      requires io.Idle() && !io.server && io.flow.Answer? && io.flow.asked
      modifies io, `hasCertificate
      ensures io.Idle()
      ensures if hasCertificate || !ssl3 then io.flow.CertSent? && io.Logged(SendKind(Certificate))
              else io.flow == old(io.flow) && io.Quiet()
    {
      hasCertificate := *;
      if hasCertificate || !ssl3 {
        ghost var q := io.flow;
        io.Add(Certificate);
        OnCertificateSent(q, io.flow);
      }
    }

    method DoSendClientKeyExchange() returns (ret: Wait)
      requires Valid() && state == SendClientKeyExchange
      modifies this, io
      ensures Stepped(ret)
      ensures ret == Ok ==> state == SendCertificateVerify && io.Logged(SendKind(ClientKeyExchange))
    {
      var failed: bool := *;
      if failed {
        return Error;
      }
      ghost var q := io.flow;
      io.Add(ClientKeyExchange);
      OnKeySent(q, io.flow);
      state := SendCertificateVerify;
      ret := Ok;
    }

    method DoSendCertificateVerify() returns (ret: Wait)
      requires Valid() && state == SendCertificateVerify
      modifies this, io
      ensures Stepped(ret)
      ensures ret == Ok ==> state == SendClientFinished
      ensures ret == Ok ==>
                if certRequest && hasCertificate then io.Logged(SendKind(CertificateVerify)) else io.Quiet()
    {
      if certRequest && hasCertificate {
        ret := Attempt(PrivateKey);
        if ret != Ok {
          return;
        }
        ghost var q := io.flow;
        io.Add(CertificateVerify);
        OnVerifySent(q, io.flow);
      }
      state := SendClientFinished;
      ret := Ok;
    }

    method DoSendClientFinished() returns (ret: Wait)
      requires Valid() && state == SendClientFinished
      modifies this, io
      ensures Stepped(ret)
      ensures ret == Flush ==> state == FinishFlight && FlightSent()
      ensures ret == Flush || ret == IdLookup || ret == Error
    {
      ret := Attempt(if channelId then IdLookup else Error);
      if ret.Ok? {
        SendLastFlight();
        state := FinishFlight;
        ret := Flush;
      }
    }

    /** What the client sends last: its ChangeCipherSpec, the extension messages that were
        negotiated, and its Finished. */
    twostate predicate FlightSent()
      reads this, io
    {
      var n, k := |old(io.log)|, if nextProto then 1 else 0;
      && |io.log| == n + k + (if channelId then 3 else 2) && old(io.log) <= io.log
      && io.log[n].SentCcs?
      && (nextProto ==> SentType(io.log[n + 1]).NextProto?)
      && (channelId ==> SentType(io.log[n + 1 + k]).ChannelId?)
      && SentType(io.log[|io.log| - 1]).Finished?
    }

    method SendLastFlight()
      requires Valid() && state == SendClientFinished
      modifies io
      ensures io.Idle() && FlightSent()
      ensures if session then io.flow.Done? else io.flow.WantTicket? && !io.flow.resumed
    {
      ghost var q := io.flow;
      io.Note(SentCcs);
      OnCcsSent(q, io.flow);
      SendExtensions();
      q := io.flow;
      io.AddFinished();
      OnFinishedSent(q, io.flow);
    }

    /** The messages between the ChangeCipherSpec and the Finished. */
    method SendExtensions()
      requires io.Idle() && !io.server && io.flow.WriteCipher? && io.flow.resumed == session
      modifies io
      ensures io.Idle() && old(io.log) <= io.log
      ensures (io.flow.WriteCipher? || io.flow.ProtoSent? || io.flow.IdSent?) && io.flow.resumed == session
      ensures var n, k := |old(io.log)|, if nextProto then 1 else 0;
              && |io.log| == n + k + (if channelId then 1 else 0)
              && (nextProto ==> SentType(io.log[n]).NextProto?)
              && (channelId ==> SentType(io.log[n + k]).ChannelId?)
    {
      ghost var q := io.flow;
      if nextProto {
        io.Add(NextProto);
        OnProtoSent(q, io.flow);
        q := io.flow;
      }
      if channelId {
        io.Add(ChannelId);
        OnIdSent(q, io.flow);
      }
    }

    method DoFinishFlight() returns (ret: Wait)
      requires Valid() && state == FinishFlight
      modifies this, io
      ensures Stepped(ret)
      ensures (ret == Ok || ret == EarlyReturn || ret == Error) && io.Quiet()
      ensures ret != Error ==> state == if session then FinishHandshake else ReadSessionTicket
    {
      if session {
        state := FinishHandshake;
        return Ok;
      }
      var failed: bool, falseStart: bool := *, *;
      if failed {
        return Error;
      }
      state := ReadSessionTicket;
      ret := if falseStart then EarlyReturn else Ok;
    }

    method DoReadSessionTicket() returns (ret: Wait)
      requires Valid() && state == ReadSessionTicket
      modifies this, io
      ensures Stepped(ret)
      ensures ret == ReadCcs || ret == ReadMessage || ret == Error
      ensures ret == ReadCcs ==> state == ProcessCcs
      ensures ret == ReadCcs ==> if old(ticketExpected) then io.Logged(GetKind(NewSessionTicket)) else io.Quiet()
    {
      if ticketExpected {
        if io.current.None? {
          return ReadMessage;
        }
        var ok := TakeTicket();
        if !ok {
          return Error;
        }
      }
      state, ccsSeen := ProcessCcs, false;
      ret := ReadCcs;
    }

    /** A server may change its mind and send an empty ticket. */
    method TakeTicket() returns (ok: bool)
      requires io.Idle() && !io.server && io.flow.WantTicket? && io.current.Some?
      modifies io, `ticketExpected
      ensures ok ==> io.Idle() && io.flow.WantCcs? && io.flow.resumed == old(io.flow).resumed
      ensures ok ==> io.Logged(GetKind(NewSessionTicket))
    {
      var emptyTicket: bool := *;
      ghost var q := io.flow;
      ok := io.Read(NewSessionTicket);
      if ok {
        OnTicket(q, io.flow);
        ticketExpected := ticketExpected && !emptyTicket;
      }
    }

    method DoProcessCcs() returns (ret: Wait)
      requires Valid() && state == ProcessCcs && ccsSeen
      modifies this, io
      ensures Stepped(ret)
      ensures (ret == Ok || ret == Error) && io.Quiet() && (ret == Ok ==> state == ReadServerFinished)
    {
      var failed: bool := *;
      if failed {
        return Error;
      }
      state := ReadServerFinished;
      ret := Ok;
    }

    method DoReadServerFinished() returns (ret: Wait)
      requires Valid() && state == ReadServerFinished
      modifies this, io
      ensures Stepped(ret)
      ensures ret == Ok || ret == ReadMessage || ret == Error
      ensures ret == Ok ==> state == if session then SendClientFinished else FinishHandshake
      ensures ret == Ok ==>
                |io.log| == |old(io.log)| + 2
                && io.log[|old(io.log)|] == FinishedVerified(io.mac(old(io.transcript), true))
    {
      if io.current.None? {
        return ReadMessage;
      }
      var failed: bool := *;
      ghost var q := io.flow;
      var ok, mid := io.GetFinished();
      if !ok || failed {
        return Error;
      }
      OnFinishedVerified(q, mid);
      OnFinished(mid, io.flow);
      state := if session then SendClientFinished else FinishHandshake;
      ret := Ok;
    }

    method DoFinishHandshake() returns (ret: Wait)
      requires Valid() && state == FinishHandshake
      modifies this, io
      ensures Stepped(ret)
      ensures (ret == Ok || ret == Error) && io.Quiet() && (ret == Ok ==> state == Complete)
    {
      var failed: bool := *;
      if failed {
        return Error;
      }
      state := Complete;
      ret := Ok;
    }

    /** One turn of the loop of `ssl_client_handshake`. */
    method DoStep() returns (ret: Wait)
      requires Valid() && state != Complete && (state == ProcessCcs ==> ccsSeen)
      modifies this, io
      ensures Stepped(ret)
    {
      match state
      case StartConnect => ret := DoStartConnect();
      case EnterEarlyData => ret := DoEnterEarlyData();
      case ReadHelloVerify => ret := DoReadHelloVerify();
      case ReadServerHello => ret := DoReadServerHello();
      case Tls13 => ret := Stop;
      case ReadServerCertificate => ret := DoReadServerCertificate();
      case ReadCertificateStatus => ret := DoReadCertificateStatus();
      case VerifyServerCertificate => ret := DoVerifyServerCertificate();
      case ReadServerKeyExchange => ret := DoReadServerKeyExchange();
      case ReadCertificateRequest => ret := DoReadCertificateRequest();
      case ReadServerHelloDone => ret := DoReadServerHelloDone();
      case SendClientCertificate => ret := DoSendClientCertificate();
      case SendClientKeyExchange => ret := DoSendClientKeyExchange();
      case SendCertificateVerify => ret := DoSendCertificateVerify();
      case SendClientFinished => ret := DoSendClientFinished();
      case FinishFlight => ret := DoFinishFlight();
      case ReadSessionTicket => ret := DoReadSessionTicket();
      case ProcessCcs => ret := DoProcessCcs();
      case ReadServerFinished => ret := DoReadServerFinished();
      case FinishHandshake => ret := DoFinishHandshake();
    }

    /** The state between calls, when `w` is what the handshake waits for. */
    ghost predicate Ready(w: Wait)
      reads this, io
    {
      && Valid()
      && (state == ProcessCcs ==> w == ReadCcs && !ccsSeen)
      && (w == ReadHello || w == ReadMessage ==> io.current.None?)
    }

    /** `ssl_client_handshake`: steps until one waits or the handshake is complete. */
    method Handshake() returns (ret: Wait)
      requires Valid() && (state == ProcessCcs ==> ccsSeen)
      modifies this, io
      ensures ret != Error ==> Ready(ret)
      ensures ret == Ok ==> state == Complete
    {
      ret := Ok;
      while state != Complete
        invariant Valid() && ret == Ok && (state == ProcessCcs ==> ccsSeen)
        decreases Rank(state, session)
      {
        ret := DoStep();
        if ret != Ok {
          return;
        }
      }
    }

    /** What a finished handshake has done, whatever the suspensions on the way: hashed
        each message once, sent one Finished and verified one; and, unless the cipher has no
        certificate, verified the server's before it sent a ClientKeyExchange, and the
        signature on its key exchange before it took that. */
    ghost predicate Settled()
      reads this, io
    {
      && state == Complete && io.transcript == Hashed(io.log)
      && FlowOf(false, io.log).Done? && CountSentFinished(io.log) == 1 && CountVerified(io.log) == 1
      && (forall i :: 0 <= i < |io.log| && SentType(io.log[i]).ClientKeyExchange? ==> Vouched(io.log[..i]))
      && (forall i :: 0 <= i < |io.log| && KindOf(io.log[i]) == GetKind(ServerKeyExchange) ==> Signed(io.log[..i]))
    }

    /** `ssl_run_handshake`, called again and again: the transport makes progress `turns`
        times before it blocks.  `ret` is 1 when the handshake is complete or, if `early`,
        when the application may go ahead. */
    method RunHandshake(turns: nat) returns (ret: int, early: bool)
      requires wait != Error ==> Ready(wait)
      modifies this, io
      ensures wait != Error ==> Ready(wait)
      ensures old(wait) == Error ==> ret == -1 && wait == Error
      ensures ret == 1 && !early ==> Settled()
    {
      ret, early := -1, false;
      var more := true;
      for turn := 0 to turns
        invariant wait != Error ==> Ready(wait)
        invariant old(wait) == Error ==> wait == Error
        invariant more && ret == -1
      {
        more, ret, early := Turn();
        if !more {
          if ret == 1 && !early {
            Conclude();
          }
          return;
        }
      }
    }

    /** One turn of its loop: what was waited for, then the state machine.  `more` is false
        when it returns. */
    method Turn() returns (more: bool, ret: int, early: bool)
      requires wait != Error ==> Ready(wait)
      modifies this, io
      ensures wait != Error ==> Ready(wait)
      ensures old(wait) == Error ==> !more && ret == -1 && wait == Error
      ensures more ==> ret == -1
      ensures !more && ret == 1 && !early ==> state == Complete && wait != Error
    {
      more, ret, early := false, -1, false;
      if wait == Error {
        return;
      }
      if wait == EarlyReturn {
        wait := Ok;
        return false, 1, true;
      }
      var go := Arrives();
      if go {
        more, ret := Proceed();
      }
    }

    /** What was waited for: the transport may block, and a callback's wait is over once it
        has been reported. */
    method Arrives() returns (go: bool)
      requires wait != Error && wait != EarlyReturn && Ready(wait)
      modifies this, io
      ensures !go ==> wait != Error && Ready(wait)
      ensures go ==> Valid() && (state == ProcessCcs ==> ccsSeen)
    {
      if wait == Flush || wait == ReadHello || wait == ReadMessage || wait == ReadCcs {
        var blocked: bool := *;
        if blocked {
          return false;
        }
        Resolve();
      } else if wait != Ok {
        wait := if wait == Stop then Stop else Ok;
        return false;
      }
      go := true;
    }

    /** The rest of the turn: the state machine runs until it waits. */
    method Proceed() returns (more: bool, ret: int)
      requires Valid() && (state == ProcessCcs ==> ccsSeen)
      modifies this, io
      ensures wait != Error ==> Ready(wait)
      ensures more ==> ret == -1
      ensures !more && ret == 1 ==> state == Complete && wait != Error
    {
      wait := Handshake();
      more, ret := wait != Ok && wait != Error, if wait == Ok then 1 else -1;
    }

    /** What the handshake waited for has happened. */
    method Resolve()
      requires Ready(wait) && wait != Ok
      modifies this, io
      ensures Valid() && wait == old(wait) && state == old(state) && (state == ProcessCcs ==> ccsSeen)
    {
      if wait == ReadHello || wait == ReadMessage {
        io.Receive();
      } else if wait == ReadCcs && state == ProcessCcs {
        ghost var q := io.flow;
        io.Note(GotCcs);
        OnCcs(q, io.flow);
        ccsSeen := true;
      }
    }

    lemma Conclude()
      requires Valid() && state == Complete
      ensures Settled()
    {
      KeptMeans(io.server, io.mac, io.log, io.flow, io.keyHeld, io.transcript, io.InHand());
      OneFinishedEach(false, io.log);
      forall i | 0 <= i < |io.log| && SentType(io.log[i]).ClientKeyExchange?
        ensures Vouched(io.log[..i])
      {
        VerifiedBeforeKeyExchange(io.log, i);
      }
      forall i | 0 <= i < |io.log| && KindOf(io.log[i]) == GetKind(ServerKeyExchange)
        ensures Signed(io.log[..i])
      {
        KeyExchangeSigned(io.log, i);
      }
    }
  }
}
