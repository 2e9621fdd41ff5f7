/**
 The handshake protocol before TLS 1.3 as seen by one endpoint (sections 7.3 and 7.4 of
 RFC 5246): what happens in order, which message sequences are allowed, and what the
 handshake hash must cover.  The state machines of the client and the server are proved
 against this in modules `ClientHandshake` and `ServerHandshake`.
 */
module HandshakeFlow {
  import opened Wrappers

  datatype MsgType =
    ClientHello | HelloVerifyRequest | ServerHello | NewSessionTicket | Certificate | CertificateStatus
    | ServerKeyExchange | CertificateRequest | ServerHelloDone | ClientKeyExchange | CertificateVerify
    | NextProto | ChannelId | Finished | OtherType

  /** `raw` stands for the bytes; `isV2` marks a ClientHello in SSL 2.0 format. */
  datatype Msg = Msg(typ: MsgType, raw: nat, isV2: bool)

  /** What an endpoint does: messages and ChangeCipherSpecs in both directions, and the
      checks it makes.  `Negotiated` tells whether a session is resumed and whether the
      cipher authenticates with a certificate. */
  datatype Entry =
    Sent(m: Msg) | Got(m: Msg) | SentCcs | GotCcs
    | Negotiated(resumed: bool, cert: bool) | PeerKey | CertVerified | SignatureVerified | FinishedVerified(raw: nat)

  // ---------- the handshake hash ----------

  /** Every message sent or received, in order and once each, except that a
      HelloVerifyRequest wipes out itself and what came before it. */
  function Hashed(log: seq<Entry>): seq<Msg> {
    if log == [] then [] else HashNext(Hashed(log[..|log| - 1]), log[|log| - 1])
  }

  function HashNext(hash: seq<Msg>, e: Entry): seq<Msg> {
    match e
    case Sent(m) => hash + [m]
    case Got(m) => if m.typ.HelloVerifyRequest? then [] else hash + [m]
    case _ => hash
  }

  /** How many times message `m` was sent or received. */
  function Occurrences(log: seq<Entry>, m: Msg): nat {
    if log == [] then 0
    else
      var e := log[|log| - 1];
      Occurrences(log[..|log| - 1], m) + if e == Sent(m) || e == Got(m) then 1 else 0
  }

  /** Without a HelloVerifyRequest, each message is in the hash as often as it occurred. */
  lemma {:induction false} HashedOnce(log: seq<Entry>, m: Msg)
    requires forall e :: e in log && e.Got? ==> !e.m.typ.HelloVerifyRequest?
    ensures multiset(Hashed(log))[m] == Occurrences(log, m)
  {
    if log != [] {
      assert log[|log| - 1] in log;
      HashedOnce(log[..|log| - 1], m);
    }
  }

  /** After one, the hash is that of what came later. */
  lemma {:induction false} HashedAfterVerify(before: seq<Entry>, m: Msg, after: seq<Entry>)
    requires m.typ.HelloVerifyRequest?
    ensures Hashed(before + [Got(m)] + after) == Hashed(after)
    decreases |after|
  {
    var log := before + [Got(m)] + after;
    if after == [] {
      assert log[..|log| - 1] == before;
    } else {
      assert log[..|log| - 1] == before + [Got(m)] + after[..|after| - 1];
      HashedAfterVerify(before, m, after[..|after| - 1]);
    }
  }

  // ---------- the order of events ----------

  /** How far the handshake has got: on the client, then on the server. */
  datatype Flow =
    Bad | Start | Done
    | Hello1 | EarlyHello | Retry | Hello2 | Hellos
    | WantCert | WantStatus | WantVerify | WantKey(cert: bool) | KeySigned | WantRequest(cert: bool) | WantHelloDone
    | Answer(asked: bool) | CertSent | KeySent(withCert: bool) | VerifySent
    | WriteCipher(resumed: bool) | ProtoSent(resumed: bool) | IdSent(resumed: bool)
    | WantTicket(resumed: bool) | WantCcs(resumed: bool) | WantFinished(resumed: bool) | FinishedOk(resumed: bool)
    | Reply
    | GotHello | WillAccept(resumed: bool, cert: bool)
    | WillCert | WillStatus | WillKey(cert: bool) | WillRequest(cert: bool) | WillDone
    | Await(asked: bool) | GotCert | HasKey | KeyOk | GotKey(withKey: bool) | SigOk
    | AwaitCcs(resumed: bool) | GotProto(resumed: bool) | AwaitFinished(resumed: bool) | PeerOk(resumed: bool)
    | WillTicket(resumed: bool) | WillCcs(resumed: bool) | WillFinish(resumed: bool) | AwaitReadCcs(resumed: bool)

  /** What the protocol's order depends on. */
  datatype Kind =
    SendKind(typ: MsgType) | GetKind(typ: MsgType) | SentCcsKind | GotCcsKind
    | NegotiatedKind(resumed: bool, cert: bool) | PeerKeyKind | CertVerifiedKind | SignatureVerifiedKind
    | FinishedVerifiedKind

  function KindOf(e: Entry): Kind {
    match e
    case Sent(m) => SendKind(m.typ)
    case Got(m) => GetKind(m.typ)
    case SentCcs => SentCcsKind
    case GotCcs => GotCcsKind
    case Negotiated(resumed, cert) => NegotiatedKind(resumed, cert)
    case PeerKey => PeerKeyKind
    case CertVerified => CertVerifiedKind
    case SignatureVerified => SignatureVerifiedKind
    case FinishedVerified(_) => FinishedVerifiedKind
  }

  function SentType(e: Entry): MsgType {
    if e.Sent? then e.m.typ else OtherType
  }

  function SendType(k: Kind): MsgType {
    if k.SendKind? then k.typ else OtherType
  }

  function GetType(k: Kind): MsgType {
    if k.GetKind? then k.typ else OtherType
  }

  /** Figures 1 and 2 of RFC 5246 with the optional messages of RFC 6347, RFC 6066 and
      RFC 5077. */
  function FlowNext(server: bool, q: Flow, k: Kind): Flow {
    if server then ServerNext(q, k) else ClientNext(q, k)
  }

  /** After early data, whose ChangeCipherSpec follows the hello, only TLS 1.3 goes on. */
  function ClientNext(q: Flow, k: Kind): Flow {
    var s, g := SendType(k), GetType(k);
    match q
    case Start => if s.ClientHello? then Hello1 else Bad
    case Hello1 =>
      if g.HelloVerifyRequest? then Retry else if g.ServerHello? then Hellos
      else if k.SentCcsKind? then EarlyHello else Bad
    case Retry => if s.ClientHello? then Hello2 else Bad
    case Hello2 => if g.ServerHello? then Hellos else Bad
    case Hellos =>
      if !k.NegotiatedKind? then Bad
      else if k.resumed then WantTicket(true) else if k.cert then WantCert else WantKey(false)
    case WantCert => if g.Certificate? then WantStatus else Bad
    case WantStatus => if g.CertificateStatus? then WantVerify else if k.CertVerifiedKind? then WantKey(true) else Bad
    case WantVerify => if k.CertVerifiedKind? then WantKey(true) else Bad
    case WantKey(cert) =>
      if g.ServerKeyExchange? && !cert then WantRequest(false)
      else if k.SignatureVerifiedKind? && cert then KeySigned
      else if g.CertificateRequest? && cert then WantHelloDone
      else if g.ServerHelloDone? then Answer(false) else Bad
    case KeySigned => if g.ServerKeyExchange? then WantRequest(true) else Bad
    case WantRequest(cert) =>
      if g.CertificateRequest? && cert then WantHelloDone else if g.ServerHelloDone? then Answer(false) else Bad
    case WantHelloDone => if g.ServerHelloDone? then Answer(true) else Bad
    case Answer(asked) =>
      if s.Certificate? && asked then CertSent else if s.ClientKeyExchange? then KeySent(false) else Bad
    case CertSent => if s.ClientKeyExchange? then KeySent(true) else Bad
    case KeySent(withCert) =>
      if s.CertificateVerify? && withCert then VerifySent else if k.SentCcsKind? then WriteCipher(false) else Bad
    case VerifySent => if k.SentCcsKind? then WriteCipher(false) else Bad
    case WriteCipher(resumed) =>
      if s.NextProto? then ProtoSent(resumed) else if s.ChannelId? then IdSent(resumed)
      else if s.Finished? then AfterClientFinished(resumed) else Bad
    case ProtoSent(resumed) =>
      if s.ChannelId? then IdSent(resumed) else if s.Finished? then AfterClientFinished(resumed) else Bad
    case IdSent(resumed) => if s.Finished? then AfterClientFinished(resumed) else Bad
    case WantTicket(resumed) =>
      if g.NewSessionTicket? then WantCcs(resumed) else if k.GotCcsKind? then WantFinished(resumed) else Bad
    case WantCcs(resumed) => if k.GotCcsKind? then WantFinished(resumed) else Bad
    case WantFinished(resumed) => if k.FinishedVerifiedKind? then FinishedOk(resumed) else Bad
    case FinishedOk(resumed) => if !g.Finished? then Bad else if resumed then Reply else Done
    case Reply => if k.SentCcsKind? then WriteCipher(true) else Bad
    case _ => Bad
  }

  function ServerNext(q: Flow, k: Kind): Flow {
    var s, g := SendType(k), GetType(k);
    match q
    case Start => if g.ClientHello? then GotHello else Bad
    case GotHello => if k.NegotiatedKind? then WillAccept(k.resumed, k.cert) else Bad
    case WillAccept(resumed, cert) =>
      if !s.ServerHello? then Bad else if resumed then WillTicket(true) else if cert then WillCert else WillKey(false)
    case WillCert => if s.Certificate? then WillStatus else Bad
    case WillStatus => if s.CertificateStatus? then WillKey(true) else AfterServerCert(true, s)
    case WillKey(cert) => AfterServerCert(cert, s)
    case WillRequest(cert) =>
      if s.CertificateRequest? && cert then WillDone else if s.ServerHelloDone? then Await(false) else Bad
    case WillDone => if s.ServerHelloDone? then Await(true) else Bad
    case Await(asked) =>
      if g.Certificate? && asked then GotCert else if g.ClientKeyExchange? then GotKey(false) else Bad
    case GotCert => if k.PeerKeyKind? then HasKey else if g.ClientKeyExchange? then GotKey(false) else Bad
    case HasKey => if k.CertVerifiedKind? then KeyOk else Bad
    case KeyOk => if g.ClientKeyExchange? then GotKey(true) else Bad
    case GotKey(withKey) =>
      if withKey then (if k.SignatureVerifiedKind? then SigOk else Bad)
      else if k.GotCcsKind? then AwaitCcs(false) else Bad
    case SigOk => if g.CertificateVerify? then AwaitReadCcs(false) else Bad
    case AwaitReadCcs(resumed) => if k.GotCcsKind? then AwaitCcs(resumed) else Bad
    case AwaitCcs(resumed) =>
      if g.NextProto? then GotProto(resumed) else if g.ChannelId? then AwaitFinished(resumed)
      else if k.FinishedVerifiedKind? then PeerOk(resumed) else Bad
    case GotProto(resumed) =>
      if g.ChannelId? then AwaitFinished(resumed) else if k.FinishedVerifiedKind? then PeerOk(resumed) else Bad
    case AwaitFinished(resumed) => if k.FinishedVerifiedKind? then PeerOk(resumed) else Bad
    case PeerOk(resumed) => if !g.Finished? then Bad else if resumed then Done else WillTicket(false)
    case WillTicket(resumed) =>
      if s.NewSessionTicket? then WillCcs(resumed) else if k.SentCcsKind? then WillFinish(resumed) else Bad
    case WillCcs(resumed) => if k.SentCcsKind? then WillFinish(resumed) else Bad
    case WillFinish(resumed) => if !s.Finished? then Bad else if resumed then AwaitReadCcs(true) else Done
    case _ => Bad
  }

  /** `q'` follows `q` on `k`.  The order above is unfolded only in proofs that mention
      `Peek`. */
  ghost predicate Moves(server: bool, q: Flow, k: Kind, q': Flow) {
    forall n: nat {:trigger Peek(n)} :: Peek(n) ==> q' == FlowNext(server, q, k)
  }

  ghost predicate Peek(n: nat) {
    true
  }

  lemma Moved(server: bool, q: Flow, k: Kind, q': Flow)
    requires Moves(server, q, k, q')
    ensures q' == FlowNext(server, q, k)
  {
    assert Peek(0);
  }

  function AfterClientFinished(resumed: bool): Flow {
    if resumed then Done else WantTicket(false)
  }

  function AfterServerCert(cert: bool, s: MsgType): Flow {
    if s.ServerKeyExchange? then WillRequest(cert)
    else if s.CertificateRequest? && cert then WillDone
    else if s.ServerHelloDone? then Await(false) else Bad
  }

  function FlowOf(server: bool, log: seq<Entry>): Flow {
    if log == [] then Start else FlowNext(server, FlowOf(server, log[..|log| - 1]), KindOf(log[|log| - 1]))
  }

  // ---------- what the order implies ----------

  function CountSentFinished(log: seq<Entry>): nat {
    if log == [] then 0
    else CountSentFinished(log[..|log| - 1]) + if SentType(log[|log| - 1]).Finished? then 1 else 0
  }

  function CountVerified(log: seq<Entry>): nat {
    if log == [] then 0
    else CountVerified(log[..|log| - 1]) + if log[|log| - 1].FinishedVerified? then 1 else 0
  }

  function FinishedSentBy(q: Flow): nat {
    match q
    case Done => 1
    case WantTicket(resumed) => if resumed then 0 else 1
    case WantCcs(resumed) => if resumed then 0 else 1
    case WantFinished(resumed) => if resumed then 0 else 1
    case FinishedOk(resumed) => if resumed then 0 else 1
    case AwaitReadCcs(resumed) => if resumed then 1 else 0
    case AwaitCcs(resumed) => if resumed then 1 else 0
    case GotProto(resumed) => if resumed then 1 else 0
    case AwaitFinished(resumed) => if resumed then 1 else 0
    case PeerOk(resumed) => if resumed then 1 else 0
    case _ => 0
  }

  function VerifiedBy(q: Flow): nat {
    match q
    case Done => 1
    case Reply => 1
    case FinishedOk(_) => 1
    case PeerOk(_) => 1
    case WillTicket(resumed) => if resumed then 0 else 1
    case WillCcs(resumed) => if resumed then 0 else 1
    case WillFinish(resumed) => if resumed then 0 else 1
    case WriteCipher(resumed) => if resumed then 1 else 0
    case ProtoSent(resumed) => if resumed then 1 else 0
    case IdSent(resumed) => if resumed then 1 else 0
    case _ => 0
  }

  lemma ClientSent(q: Flow, k: Kind)
    requires !ClientNext(q, k).Bad?
    ensures FinishedSentBy(ClientNext(q, k)) == FinishedSentBy(q) + if k.SendKind? && k.typ.Finished? then 1 else 0
  {
  }

  lemma ClientVerified(q: Flow, k: Kind)
    requires !ClientNext(q, k).Bad?
    ensures VerifiedBy(ClientNext(q, k)) == VerifiedBy(q) + if k.FinishedVerifiedKind? then 1 else 0
  {
  }

  lemma ServerSent(q: Flow, k: Kind)
    requires !ServerNext(q, k).Bad?
    ensures FinishedSentBy(ServerNext(q, k)) == FinishedSentBy(q) + if k.SendKind? && k.typ.Finished? then 1 else 0
  {
  }

  lemma ServerVerified(q: Flow, k: Kind)
    requires !ServerNext(q, k).Bad?
    ensures VerifiedBy(ServerNext(q, k)) == VerifiedBy(q) + if k.FinishedVerifiedKind? then 1 else 0
  {
  }

  lemma {:induction false} FinishedCounts(server: bool, log: seq<Entry>)
    requires !FlowOf(server, log).Bad?
    ensures CountSentFinished(log) == FinishedSentBy(FlowOf(server, log))
    ensures CountVerified(log) == VerifiedBy(FlowOf(server, log))
  {
    if log != [] {
      var q, e := FlowOf(server, log[..|log| - 1]), KindOf(log[|log| - 1]);
      BadStays(server, q, e);
      if server {
        ServerSent(q, e);
        ServerVerified(q, e);
      } else {
        ClientSent(q, e);
        ClientVerified(q, e);
      }
      FinishedCounts(server, log[..|log| - 1]);
    }
  }

  lemma BadStays(server: bool, q: Flow, k: Kind)
    requires !FlowNext(server, q, k).Bad?
    ensures !q.Bad? && !q.Done?
  {
  }

  lemma LastMoves(server: bool, log: seq<Entry>, i: nat)
    requires i < |log|
    ensures Moves(server, FlowOf(server, log[..i]), KindOf(log[i]), FlowOf(server, log[..i + 1]))
  {
    assert log[..i + 1][..i] == log[..i];
  }

  /** What is in order has been so all along. */
  lemma {:induction false} InOrderThroughout(server: bool, log: seq<Entry>, i: nat)
    requires !FlowOf(server, log).Bad? && i <= |log|
    ensures !FlowOf(server, log[..i]).Bad?
    decreases |log|
  {
    if i == |log| {
      assert log[..i] == log;
    } else {
      BadStays(server, FlowOf(server, log[..|log| - 1]), KindOf(log[|log| - 1]));
      InOrderThroughout(server, log[..|log| - 1], i);
      assert log[..|log| - 1][..i] == log[..i];
    }
  }

  /** A complete handshake sent exactly one Finished and verified exactly one. */
  lemma OneFinishedEach(server: bool, log: seq<Entry>)
    requires FlowOf(server, log).Done?
    ensures CountSentFinished(log) == 1 && CountVerified(log) == 1
  {
    FinishedCounts(server, log);
  }

  /** Flows a client passes only after the server's certificate has been verified, if the
      cipher has one. */
  predicate PastVerify(q: Flow) {
    CertFlow(q) || q.Answer? || q.CertSent? || q.KeySent?
  }

  /** Those of them that only certificate ciphers come to. */
  predicate CertFlow(q: Flow) {
    ((q.WantKey? || q.WantRequest?) && q.cert) || q.KeySigned? || q.WantHelloDone?
  }

  /** Those that only other ciphers come to. */
  predicate BareFlow(q: Flow) {
    (q.WantKey? || q.WantRequest?) && !q.cert
  }

  lemma PastVerifyFrom(q: Flow, k: Kind)
    requires PastVerify(FlowNext(false, q, k))
    ensures PastVerify(q) || k.CertVerifiedKind? || BareFlow(q)
    ensures CertFlow(FlowNext(false, q, k)) ==>
              k.CertVerifiedKind? || (CertFlow(q) && !q.WantHelloDone?)
  {
  }

  lemma {:induction false} VerifyFirst(log: seq<Entry>)
    requires PastVerify(FlowOf(false, log))
    ensures CertVerified in log || Negotiated(false, false) in log
    ensures CertFlow(FlowOf(false, log)) ==> CertVerified in log
  {
    var before, e := log[..|log| - 1], log[|log| - 1];
    assert log == before + [e];
    PastVerifyFrom(FlowOf(false, before), KindOf(e));
    if PastVerify(FlowOf(false, before)) {
      VerifyFirst(before);
    } else if BareFlow(FlowOf(false, before)) {
      NoCertificate(before);
    }
  }

  lemma NoCertificateFrom(q: Flow, k: Kind)
    requires BareFlow(FlowNext(false, q, k))
    ensures (q.WantKey? && !q.cert) || (k.NegotiatedKind? && !k.resumed && !k.cert)
  {
  }

  lemma {:induction false} NoCertificate(log: seq<Entry>)
    requires BareFlow(FlowOf(false, log))
    ensures Negotiated(false, false) in log
  {
    var before, e := log[..|log| - 1], log[|log| - 1];
    assert log == before + [e];
    NoCertificateFrom(FlowOf(false, before), KindOf(e));
    if FlowOf(false, before).WantKey? && !FlowOf(false, before).cert {
      NoCertificate(before);
    }
  }

  /** The server's certificate was verified, unless the negotiated cipher has none. */
  predicate Vouched(log: seq<Entry>) {
    CertVerified in log || Negotiated(false, false) in log
  }

  /** Flows in which a client can send its ClientKeyExchange. */
  lemma KeyExchangeFrom(q: Flow, k: Kind, q': Flow)
    requires Moves(false, q, k, q') && k == SendKind(ClientKeyExchange) && !q'.Bad?
    ensures PastVerify(q)
  {
    Moved(false, q, k, q');
  }

  /** On a client whose log is in order, the server's certificate was verified before a
      ClientKeyExchange was sent, unless the negotiated cipher has none. */
  lemma VerifiedBeforeKeyExchange(log: seq<Entry>, i: nat)
    requires !FlowOf(false, log).Bad? && i < |log| && SentType(log[i]).ClientKeyExchange?
    ensures Vouched(log[..i])
  {
    InOrderThroughout(false, log, i + 1);
    LastMoves(false, log, i);
    KeyExchangeFrom(FlowOf(false, log[..i]), KindOf(log[i]), FlowOf(false, log[..i + 1]));
    VerifyFirst(log[..i]);
  }

  /** A ServerKeyExchange comes with a signature that was checked, unless the cipher has no
      certificate to check it with. */
  predicate Signed(log: seq<Entry>) {
    Negotiated(false, false) in log || (log != [] && log[|log| - 1] == SignatureVerified)
  }

  lemma KeyExchangeAfter(q: Flow, k: Kind, q': Flow)
    requires Moves(false, q, k, q') && k == GetKind(ServerKeyExchange) && !q'.Bad?
    ensures (q.WantKey? && !q.cert) || q.KeySigned?
  {
    Moved(false, q, k, q');
  }

  lemma SignedAfter(q: Flow, k: Kind, q': Flow)
    requires Moves(false, q, k, q') && q'.KeySigned?
    ensures k.SignatureVerifiedKind?
  {
    Moved(false, q, k, q');
  }

  /** A server's key exchange is taken only when its signature was the last thing checked. */
  lemma SignedLast(log: seq<Entry>)
    requires FlowOf(false, log).KeySigned?
    ensures log != [] && log[|log| - 1] == SignatureVerified
  {
    var n := |log| - 1;
    assert log[..n + 1] == log;
    LastMoves(false, log, n);
    SignedAfter(FlowOf(false, log[..n]), KindOf(log[n]), FlowOf(false, log));
  }

  /** On a client whose log is in order, the signature on the server's key exchange was
      checked immediately before it was taken. */
  lemma KeyExchangeSigned(log: seq<Entry>, i: nat)
    requires !FlowOf(false, log).Bad? && i < |log| && KindOf(log[i]) == GetKind(ServerKeyExchange)
    ensures Signed(log[..i])
  {
    InOrderThroughout(false, log, i + 1);
    LastMoves(false, log, i);
    KeyExchangeAfter(FlowOf(false, log[..i]), KindOf(log[i]), FlowOf(false, log[..i + 1]));
    if FlowOf(false, log[..i]).KeySigned? {
      SignedLast(log[..i]);
    } else {
      NoCertificate(log[..i]);
    }
  }

  /** Flows in which a server holds a client's key and has yet to check its signature. */
  predicate KeyFlow(q: Flow) {
    q.HasKey? || q.KeyOk? || (q.GotKey? && q.withKey)
  }

  /** On a server, holding a client key at the end means its CertificateVerify was
      checked; and the certificate before that. */
  lemma {:induction false} KeyIsProved(log: seq<Entry>)
    requires !FlowOf(true, log).Bad? && PeerKey in log
    ensures KeyFlow(FlowOf(true, log)) || SignatureVerified in log
    ensures FlowOf(true, log).HasKey? || CertVerified in log
  {
    var before, e := log[..|log| - 1], log[|log| - 1];
    assert log == before + [e];
    BadStays(true, FlowOf(true, before), KindOf(e));
    if PeerKey in before {
      KeyIsProved(before);
      if KeyFlow(FlowOf(true, log)) {
      } else if KeyFlow(FlowOf(true, before)) {
        assert e == SignatureVerified;
      }
    }
  }

  lemma ServerDoneProved(log: seq<Entry>)
    requires FlowOf(true, log).Done? && PeerKey in log
    ensures SignatureVerified in log && CertVerified in log
  {
    KeyIsProved(log);
  }

  // ---------- Finished messages ----------

  /** Every Finished, sent or verified, is the MAC of the hash just before it: `mac` takes
      the hashed messages and whether the server is the sender. */
  predicate Authentic(server: bool, mac: (seq<Msg>, bool) -> nat, log: seq<Entry>) {
    log == []
    || (Authentic(server, mac, log[..|log| - 1])
        && EntryAuthentic(server, mac, Hashed(log[..|log| - 1]), log[|log| - 1]))
  }

  predicate EntryAuthentic(server: bool, mac: (seq<Msg>, bool) -> nat, hash: seq<Msg>, e: Entry) {
    && (e.FinishedVerified? ==> e.raw == mac(hash, !server))
    && (SentType(e).Finished? ==> e.m.raw == mac(hash, server))
  }

  // ---------- what an endpoint keeps ----------

  /** A client's key has come in. */
  predicate HoldsKey(log: seq<Entry>) {
    log != [] && (HoldsKey(log[..|log| - 1]) || log[|log| - 1].PeerKey?)
  }

  lemma {:induction false} HeldInLog(log: seq<Entry>)
    ensures HoldsKey(log) <==> PeerKey in log
  {
    if log != [] {
      HeldInLog(log[..|log| - 1]);
      assert log == log[..|log| - 1] + [log[|log| - 1]];
    }
  }

  /** The log is authentic, `q` is as far as it has got, `key` tells whether a client's key
      has come in, and the hash is that of the log, but for a message in hand. */
  predicate InStep(server: bool, mac: (seq<Msg>, bool) -> nat, log: seq<Entry>, q: Flow, key: bool, hash: seq<Msg>) {
    Authentic(server, mac, log) && q == FlowOf(server, log) && key == HoldsKey(log) && hash == Hashed(log)
  }

  /** The same, unfolded only in proofs that mention `Look`. */
  ghost predicate Kept(server: bool, mac: (seq<Msg>, bool) -> nat, log: seq<Entry>, q: Flow, key: bool, hash: seq<Msg>,
                       hand: Option<Msg>)
  {
    match hand
    case None => forall n: nat {:trigger Look(n)} :: Look(n) ==> InStep(server, mac, log, q, key, hash)
    case Some(m) =>
      forall n: nat {:trigger Look(n)} :: Look(n) ==>
        hash == Hashed(log) + [m] && InStep(server, mac, log, q, key, Hashed(log))
  }

  ghost predicate Look(n: nat) {
    true
  }

  lemma KeptAtStart(server: bool, mac: (seq<Msg>, bool) -> nat)
    ensures Kept(server, mac, [], Start, false, [], None)
  {
  }

  lemma KeptMeans(server: bool, mac: (seq<Msg>, bool) -> nat, log: seq<Entry>, q: Flow, key: bool, hash: seq<Msg>,
                  hand: Option<Msg>)
    requires Kept(server, mac, log, q, key, hash, hand)
    ensures InStep(server, mac, log, q, key, Hashed(log))
    ensures hash == if hand.Some? then Hashed(log) + [hand.value] else Hashed(log)
  {
    assert Look(0);
  }

  lemma NeverBack(server: bool, q: Flow, k: Kind)
    ensures !FlowNext(server, q, k).Start?
  {
  }

  /** One entry more. */
  lemma Appended(server: bool, mac: (seq<Msg>, bool) -> nat, log: seq<Entry>, e: Entry)
    requires Authentic(server, mac, log) && EntryAuthentic(server, mac, Hashed(log), e)
    ensures Authentic(server, mac, log + [e])
    ensures FlowOf(server, log + [e]) == FlowNext(server, FlowOf(server, log), KindOf(e))
    ensures HoldsKey(log + [e]) == (HoldsKey(log) || e.PeerKey?)
    ensures Hashed(log + [e]) == HashNext(Hashed(log), e)
  {
    assert (log + [e])[..|log|] == log;
  }

  /** An entry that takes effect at once. */
  lemma KeptAppending(server: bool, mac: (seq<Msg>, bool) -> nat, log: seq<Entry>, q: Flow, key: bool,
                      hash: seq<Msg>, e: Entry)
    returns (q': Flow)
    requires Kept(server, mac, log, q, key, hash, None) && EntryAuthentic(server, mac, hash, e)
    ensures Kept(server, mac, log + [e], q', key || e.PeerKey?, HashNext(hash, e), None)
    ensures Moves(server, q, KindOf(e), q')
  {
    KeptMeans(server, mac, log, q, key, hash, None);
    Appended(server, mac, log, e);
    q' := FlowNext(server, q, KindOf(e));
  }

  /** An entry that leaves the hash alone, whatever is in hand. */
  lemma KeptNoting(server: bool, mac: (seq<Msg>, bool) -> nat, log: seq<Entry>, q: Flow, key: bool, hash: seq<Msg>,
                   hand: Option<Msg>, e: Entry) returns (q': Flow)
    requires Kept(server, mac, log, q, key, hash, hand) && !e.Sent? && !e.Got? && !e.FinishedVerified?
    ensures Kept(server, mac, log + [e], q', key || e.PeerKey?, hash, hand) && Moves(server, q, KindOf(e), q')
  {
    KeptMeans(server, mac, log, q, key, hash, hand);
    Appended(server, mac, log, e);
    q' := FlowNext(server, q, KindOf(e));
  }

  /** A message is hashed. */
  lemma KeptHashing(server: bool, mac: (seq<Msg>, bool) -> nat, log: seq<Entry>, q: Flow, key: bool, hash: seq<Msg>,
                    m: Msg)
    requires Kept(server, mac, log, q, key, hash, None)
    ensures Kept(server, mac, log, q, key, hash + [m], Some(m))
  {
    KeptMeans(server, mac, log, q, key, hash, None);
  }

  /** It is dropped. */
  lemma KeptDropping(server: bool, mac: (seq<Msg>, bool) -> nat, log: seq<Entry>, q: Flow, key: bool, hash: seq<Msg>,
                     m: Msg)
    returns (q': Flow)
    requires Kept(server, mac, log, q, key, hash, Some(m)) && !m.typ.HelloVerifyRequest?
    ensures Kept(server, mac, log + [Got(m)], q', key, hash, None) && Moves(server, q, GetKind(m.typ), q')
  {
    KeptMeans(server, mac, log, q, key, hash, Some(m));
    Appended(server, mac, log, Got(m));
    q' := FlowNext(server, q, GetKind(m.typ));
  }

  /** A V2ClientHello enters hash and log as it arrives. */
  lemma KeptArriving(server: bool, mac: (seq<Msg>, bool) -> nat, log: seq<Entry>, q: Flow, key: bool, hash: seq<Msg>,
                     m: Msg)
    returns (q': Flow)
    requires Kept(server, mac, log, q, key, hash, None) && server && q.Start? && m.typ.ClientHello?
    ensures Kept(server, mac, log + [Got(m)], q', key, hash + [m], None) && log == [] && q'.GotHello?
  {
    KeptMeans(server, mac, log, q, key, hash, None);
    if log != [] {
      NeverBack(server, FlowOf(server, log[..|log| - 1]), KindOf(log[|log| - 1]));
    }
    Appended(server, mac, log, Got(m));
    q' := FlowNext(server, q, GetKind(m.typ));
  }

  lemma {:induction false} AuthenticAt(server: bool, mac: (seq<Msg>, bool) -> nat, log: seq<Entry>, i: nat)
    requires Authentic(server, mac, log) && i < |log|
    ensures EntryAuthentic(server, mac, Hashed(log[..i]), log[i])
    decreases |log|
  {
    if i < |log| - 1 {
      AuthenticAt(server, mac, log[..|log| - 1], i);
      assert log[..|log| - 1][..i] == log[..i];
    }
  }

  ghost predicate CollisionFree(mac: (seq<Msg>, bool) -> nat, server: bool) {
    forall a, b :: mac(a, server) == mac(b, server) ==> a == b
  }

  /** When the Finished that one side verified is the one the other side sent, and the MAC
      has no collisions, both have the same messages in their hashes: they agree on the
      whole handshake before it. */
  lemma Agreement(mac: (seq<Msg>, bool) -> nat, server: bool, log: seq<Entry>, i: nat, peer: seq<Entry>, j: nat)
    requires Authentic(server, mac, log) && i < |log| && log[i].FinishedVerified?
    requires Authentic(!server, mac, peer) && j < |peer| && SentType(peer[j]).Finished?
    requires log[i].raw == peer[j].m.raw
    requires CollisionFree(mac, !server)
    ensures Hashed(log[..i]) == Hashed(peer[..j])
  {
    AuthenticAt(server, mac, log, i);
    AuthenticAt(!server, mac, peer, j);
  }
}
