/**
 Opening records: `dtls_open_record` and `dtls1_set_read_state` over whole runs.  The
 cipher is abstract: for each record it says whether the body authenticates and how long
 the plaintext is.
 */
module RecordReading {
  import opened Wrappers
  import opened Words
  import opened ReplayWindow

  const HEADER_LENGTH: nat := 13
  const MAX_ENCRYPTED: nat := 16704
  const MAX_PLAIN: nat := 16384
  const VERSION_MAJOR: nat := 0xFE

  datatype Header = Header(typ: byte, version: nat, number: Number, body: seq<byte>, rest: seq<byte>)

  /** The record header and body, and what follows them. */
  function ParseHeader(packet: seq<byte>): Option<Header> {
    if |packet| < HEADER_LENGTH then None
    else
      var len := BeValue(packet[11..13]);
      if |packet| < HEADER_LENGTH + len || len > MAX_ENCRYPTED then None
      else Some(Header(packet[0], BeValue(packet[1..3]), packet[3..11],
                       packet[HEADER_LENGTH..HEADER_LENGTH + len], packet[HEADER_LENGTH + len..]))
  }

  function EpochOf(n: Number): nat {
    var high: nat, low: nat := n[0], n[1];
    high * 256 + low
  }

  /** `version` is the record version of the read cipher, once there is one; `closed` says
      that the peer has sent close_notify. */
  datatype ReadState =
    ReadState(epoch: nat, recorded: set<nat>, maxSeq: nat, nullCipher: bool, version: nat, closed: bool)

  datatype Result = Closed | Partial | Discarded | Fatal | Opened(typ: byte, number: Number)

  predicate VersionOk(s: ReadState, h: Header) {
    if s.nullCipher then h.version / 256 == VERSION_MAJOR else h.version == s.version
  }

  /** Already recorded, or too old to tell. */
  predicate Stale(s: ReadState, n: Number) {
    BeValue(n) in s.recorded || BeValue(n) + WINDOW <= s.maxSeq
  }

  function Recorded(s: ReadState, n: Number): ReadState {
    s.(recorded := s.recorded + {BeValue(n)}, maxSeq := if BeValue(n) > s.maxSeq then BeValue(n) else s.maxSeq)
  }

  /** What becomes of a datagram's first record, and how many bytes are consumed: all of
      them when the record is malformed, otherwise the record.  `auth` is the length of
      the plaintext if the body authenticates. */
  function Open(s: ReadState, packet: seq<byte>, auth: Option<nat>): (ReadState, Result, nat) {
    if s.closed then (s, Closed, 0)
    else if packet == [] then (s, Partial, 0)
    else
      match ParseHeader(packet)
      case None => (s, Discarded, |packet|)
      case Some(h) =>
        var consumed: nat := HEADER_LENGTH + |h.body|;
        if !VersionOk(s, h) then (s, Discarded, |packet|)
        else if EpochOf(h.number) != s.epoch || Stale(s, h.number) || auth.None? then (s, Discarded, consumed)
        else if auth.value > MAX_PLAIN then (s, Fatal, consumed)
        else (Recorded(s, h.number), Opened(h.typ, h.number), consumed)
  }

  function NewCipher(s: ReadState, version: nat): ReadState {
    ReadState((s.epoch + 1) % 0x1_0000, {}, 0, false, version, s.closed)
  }

  class Reader {
    var epoch: nat
    const window: Window
    var nullCipher: bool
    var version: nat
    var closed: bool

    ghost predicate Valid()
      reads this, window
    {
      window.Valid()
    }

    ghost function View(): ReadState
      reads this, window
    {
      ReadState(epoch, window.recorded, window.maxSeq, nullCipher, version, closed)
    }

    constructor ()
      ensures Valid() && View() == START
    {
      epoch, nullCipher, version, closed := 0, true, 0, false;
      window := new Window();
    }

    /** `dtls_open_record`. */
    method OpenRecord(packet: seq<byte>, auth: Option<nat>) returns (r: Result, consumed: nat)
      requires Valid()
      modifies window
      ensures Valid() && (View(), r, consumed) == Open(old(View()), packet, auth)
    {
      consumed := 0;
      if closed {
        return Closed, consumed;
      }
      if packet == [] {
        return Partial, consumed;
      }
      var parsed := ParseHeader(packet);
      if parsed.None? {
        return Discarded, |packet|;
      }
      var h := parsed.value;
      var versionOk := if nullCipher then h.version / 256 == VERSION_MAJOR else h.version == version;
      if !versionOk {
        return Discarded, |packet|;
      }
      consumed := |packet| - |h.rest|;
      if EpochOf(h.number) != epoch {
        return Discarded, consumed;
      }
      var replay := window.ShouldDiscard(h.number);
      if replay || auth.None? {
        return Discarded, consumed;
      }
      if auth.value > MAX_PLAIN {
        return Fatal, consumed;
      }
      window.Record(h.number);
      r := Opened(h.typ, h.number);
    }

    /** The replay state in `dtls1_set_read_state`. */
    method SetReadState(newVersion: nat)
      requires Valid()
      modifies this, window
      ensures Valid() && View() == NewCipher(old(View()), newVersion)
    {
      epoch := (epoch + 1) % 0x1_0000;
      window.Reset();
      nullCipher, version := false, newVersion;
    }
  }

  // ---------- runs ----------

  datatype Event = Packet(bytes: seq<byte>, auth: Option<nat>) | Change(version: nat) | Close

  const START: ReadState := ReadState(0, {}, 0, true, 0, false)

  function Run(events: seq<Event>): ReadState {
    if events == [] then START
    else
      var s, e := Run(events[..|events| - 1]), events[|events| - 1];
      match e
      case Packet(bytes, auth) => Open(s, bytes, auth).0
      case Change(version) => NewCipher(s, version)
      case Close => s.(closed := true)
  }

  /** What the last event accepts. */
  function Accepts(events: seq<Event>): (ns: seq<Number>)
    requires events != []
    ensures |ns| <= 1
  {
    var e := events[|events| - 1];
    if e.Packet? && Open(Run(events[..|events| - 1]), e.bytes, e.auth).1.Opened?
    then [Open(Run(events[..|events| - 1]), e.bytes, e.auth).1.number]
    else []
  }

  /** The numbers of all records accepted, in order. */
  function Accepted(events: seq<Event>): seq<Number> {
    if events == [] then [] else Accepted(events[..|events| - 1]) + Accepts(events)
  }

  function Changes(events: seq<Event>): nat {
    if events == [] then 0 else Changes(events[..|events| - 1]) + if events[|events| - 1].Change? then 1 else 0
  }

  /** The state remembers exactly the numbers accepted in this epoch. */
  ghost predicate Remembers(s: ReadState, accepted: seq<Number>) {
    && (forall n :: n in accepted ==> EpochOf(n) <= s.epoch)
    && (forall n: Number :: EpochOf(n) == s.epoch ==> (n in accepted <==> BeValue(n) in s.recorded))
    && (forall x :: x in s.recorded ==> x <= s.maxSeq)
    && (s.maxSeq == 0 || s.maxSeq in s.recorded)
  }

  lemma RecordRemembers(s: ReadState, accepted: seq<Number>, n: Number)
    requires Remembers(s, accepted) && EpochOf(n) == s.epoch
    ensures Remembers(Recorded(s, n), accepted + [n])
  {
    forall m: Number | EpochOf(m) == s.epoch
      ensures m in accepted + [n] <==> BeValue(m) in s.recorded + {BeValue(n)}
    {
      if BeValue(m) == BeValue(n) {
        BeValueInjective(m, n);
      }
    }
  }

  lemma ChangeRemembers(s: ReadState, accepted: seq<Number>, version: nat)
    requires Remembers(s, accepted) && s.epoch + 1 < 0x1_0000
    ensures Remembers(NewCipher(s, version), accepted)
  {
  }

  lemma StepRemembers(before: seq<Event>, e: Event, events: seq<Event>)
    requires events != [] && before == events[..|events| - 1] && e == events[|events| - 1]
    requires Changes(events) < 0x1_0000
    requires Run(before).epoch == Changes(before) && Remembers(Run(before), Accepted(before))
    ensures Run(events).epoch == Changes(events)
    ensures Remembers(Run(events), Accepted(events))
  {
    assert Accepted(before) + [] == Accepted(before);
    match e
    case Packet(bytes, auth) => PacketRemembers(Run(before), Accepted(before), bytes, auth);
    case Change(version) => ChangeRemembers(Run(before), Accepted(before), version);
    case Close =>
  }

  lemma PacketRemembers(s: ReadState, accepted: seq<Number>, bytes: seq<byte>, auth: Option<nat>)
    requires Remembers(s, accepted)
    ensures var s', r := Open(s, bytes, auth).0, Open(s, bytes, auth).1;
            s'.epoch == s.epoch && Remembers(s', if r.Opened? then accepted + [r.number] else accepted)
  {
    var r := Open(s, bytes, auth).1;
    if r.Opened? {
      RecordRemembers(s, accepted, r.number);
    }
  }

  lemma {:induction false} RunRemembers(events: seq<Event>)
    requires Changes(events) < 0x1_0000
    ensures Run(events).epoch == Changes(events)
    ensures Remembers(Run(events), Accepted(events))
  {
    if events != [] {
      var before, e := events[..|events| - 1], events[|events| - 1];
      RunRemembers(before);
      StepRemembers(before, e, events);
    }
  }

  lemma AcceptedIsNew(s: ReadState, accepted: seq<Number>, e: Event, n: Number)
    requires Remembers(s, accepted) && n in accepted
    requires e.Packet? && Open(s, e.bytes, e.auth).1.Opened?
    ensures Open(s, e.bytes, e.auth).1.number != n
  {
  }

  /** No record is accepted twice, however often and whenever the network repeats it. */
  lemma {:induction false} AcceptedOnce(events: seq<Event>, i: nat, j: nat)
    requires Changes(events) < 0x1_0000
    requires i < j < |Accepted(events)|
    ensures Accepted(events)[i] != Accepted(events)[j]
  {
    var before := events[..|events| - 1];
    if j < |Accepted(before)| {
      AcceptedOnce(before, i, j);
    } else {
      RunRemembers(before);
      AcceptedIsNew(Run(before), Accepted(before), events[|events| - 1], Accepted(before)[i]);
    }
  }

  /** A record of the current epoch is accepted exactly when it authenticates, is not too
      long, is new, and is above the window or in it. */
  lemma AcceptedIffFresh(events: seq<Event>, packet: seq<byte>, auth: Option<nat>)
    requires Changes(events) < 0x1_0000 && !Run(events).closed
    requires ParseHeader(packet).Some? && VersionOk(Run(events), ParseHeader(packet).value)
    ensures var s, n := Run(events), ParseHeader(packet).value.number;
            var isNew := n !in Accepted(events) && BeValue(n) + WINDOW > s.maxSeq;
            Open(s, packet, auth).1.Opened?
            <==> (EpochOf(n) == s.epoch && auth.Some? && auth.value <= MAX_PLAIN && isNew)
  {
    RunRemembers(events);
  }

  /** The top of the window is the highest number accepted in the epoch. */
  lemma TopIsHighest(events: seq<Event>, n: Number)
    requires Changes(events) < 0x1_0000 && n in Accepted(events) && EpochOf(n) == Changes(events)
    ensures BeValue(n) <= Run(events).maxSeq && Run(events).maxSeq in Run(events).recorded
  {
    RunRemembers(events);
    if Run(events).maxSeq == 0 {
      assert BeValue(n) == 0;
    }
  }

  /** The events without the records that do not authenticate. */
  function Authentic(events: seq<Event>): seq<Event> {
    if events == [] then []
    else
      var before, e := Authentic(events[..|events| - 1]), events[|events| - 1];
      if e.Packet? && e.auth.None? then before else before + [e]
  }

  lemma ForgeryStep(s: ReadState, bytes: seq<byte>)
    ensures Open(s, bytes, None).0 == s && !Open(s, bytes, None).1.Opened?
  {
  }

  /** Records that fail authentication change neither the window nor what is accepted. */
  lemma {:induction false} ForgeriesChangeNothing(events: seq<Event>)
    ensures Run(Authentic(events)) == Run(events)
    ensures Accepted(Authentic(events)) == Accepted(events)
  {
    if events != [] {
      var before, e := events[..|events| - 1], events[|events| - 1];
      ForgeriesChangeNothing(before);
      if e.Packet? && e.auth.None? {
        ForgeryStep(Run(before), e.bytes);
        assert Accepted(before) + [] == Accepted(before);
      } else {
        assert Authentic(events)[..|Authentic(before)|] == Authentic(before);
      }
    }
  }
}
