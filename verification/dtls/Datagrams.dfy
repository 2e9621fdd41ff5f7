/**
 Records on the wire.  What `dtls_open_record` makes of a datagram is stated here by the
 layout that `dtls_seal_record` writes: by a record's type, version, epoch and count, and by
 which counts of the epoch have been accepted before.
 */
module Datagrams {
  import opened Wrappers
  import opened Words
  import opened ReplayWindow
  import opened RecordReading
  import W = RecordWriting

  datatype Record = Record(typ: byte, version: nat, epoch: nat, count: nat, body: seq<byte>)

  /** Type, version, epoch and count, length, body. */
  function Written(r: Record): seq<byte> {
    [r.typ] + Be(r.version, 2) + W.NumberOf(r.epoch, r.count) + Be(|r.body|, 2) + r.body
  }

  /** The fields fit their two, two, six and two bytes. */
  predicate Fits(r: Record) {
    r.version < 0x1_0000 && r.epoch < 0x1_0000 && r.count < W.NUMBERS && |r.body| < 0x1_0000
  }

  // ---------- the layout ----------

  lemma Part(before: seq<byte>, part: seq<byte>, after: seq<byte>)
    ensures (before + part + after)[|before|..|before| + |part|] == part
    ensures (before + part + after)[|before| + |part|..] == after
  {
  }

  /** Where the parts of a record lie. */
  lemma Parts(typ: seq<byte>, version: seq<byte>, number: seq<byte>, len: seq<byte>, body: seq<byte>, t: seq<byte>)
    requires |typ| == 1 && |version| == 2 && |number| == 8 && |len| == 2
    ensures var s := typ + version + number + len + body + t;
            && |s| == 13 + |body| + |t| && s[0] == typ[0]
            && s[1..3] == version && s[3..11] == number && s[11..13] == len
            && s[13..13 + |body|] == body && s[13 + |body|..] == t
  {
    Part([], typ, version + number + len + body + t);
    Part(typ, version, number + len + body + t);
    Part(typ + version, number, len + body + t);
    Part(typ + version + number, len, body + t);
    Part(typ + version + number + len, body, t);
  }

  /** Two bytes of epoch, six of count. */
  lemma NumberParts(epoch: nat, count: nat)
    requires epoch < 0x1_0000 && count < W.NUMBERS
    ensures EpochOf(W.NumberOf(epoch, count)) == epoch
    ensures BeValue(W.NumberOf(epoch, count)[2..]) == count
  {
    var n := W.NumberOf(epoch, count);
    W.SixBytes();
    BeInverse(epoch, 2);
    BeInverse(count, 6);
    assert n[..2] == Be(epoch, 2) && n[2..] == Be(count, 6);
    TwoBytes(n[..2]);
  }

  lemma TwoBytes(bs: seq<byte>)
    requires |bs| == 2
    ensures var high: nat, low: nat := bs[0], bs[1];
            BeValue(bs) == high * 256 + low
  {
    assert BeValue(bs[..1]) == bs[0];
  }

  /** Reading a record undoes writing it, and leaves what follows it in the datagram. */
  lemma ParseWritten(r: Record, t: seq<byte>)
    requires Fits(r)
    ensures ParseHeader(Written(r) + t)
         == if |r.body| <= 16704 then Some(Header(r.typ, r.version, W.NumberOf(r.epoch, r.count), r.body, t)) else None
  {
    W.SixBytes();
    BeInverse(r.version, 2);
    BeInverse(|r.body|, 2);
    Parts([r.typ], Be(r.version, 2), W.NumberOf(r.epoch, r.count), Be(|r.body|, 2), r.body, t);
  }

  /** The record at the start of a datagram. */
  function FirstOf(h: Header): Record {
    Record(h.typ, h.version, EpochOf(h.number), BeValue(h.number[2..]), h.body)
  }

  /** Only what is laid out like a record, up to the longest body there may be, is read as
      one. */
  lemma ParsedIsWritten(packet: seq<byte>)
    requires ParseHeader(packet).Some?
    ensures var h := ParseHeader(packet).value;
            Fits(FirstOf(h)) && |h.body| <= 16704 && packet == Written(FirstOf(h)) + h.rest
  {
    var h := ParseHeader(packet).value;
    NumberWhole(h.number);
    W.SixBytes();
    W.BeOfValue(packet[1..3]);
    BeValueBound(packet[1..3]);
    W.BeOfValue(packet[11..13]);
    Whole(packet, |h.body|);
  }

  lemma Whole(packet: seq<byte>, n: nat)
    requires 13 + n <= |packet|
    ensures packet == [packet[0]] + packet[1..3] + packet[3..11] + packet[11..13] + packet[13..13 + n]
                      + packet[13 + n..]
  {
  }

  lemma NumberWhole(n: Number)
    ensures EpochOf(n) < 0x1_0000 && BeValue(n[2..]) < W.NUMBERS
    ensures n == W.NumberOf(EpochOf(n), BeValue(n[2..]))
  {
    W.SixBytes();
    BeValueBound(n[2..]);
    W.SameNumber(EpochOf(n), n[2..]);
    EpochBytes(n[0], n[1]);
    assert n == [n[0], n[1]] + n[2..];
  }

  lemma EpochBytes(high: nat, low: nat)
    requires high < 256 && low < 256
    ensures high * 256 + low < 0x1_0000
    ensures (high * 256 + low) / 256 == high && (high * 256 + low) % 256 == low
  {
  }

  // ---------- what has been accepted ----------

  /** The version of the current read cipher, once there is one. */
  function ReadVersion(events: seq<Event>): Option<nat> {
    if events == [] then None
    else
      match events[|events| - 1]
      case Change(version) => Some(version)
      case _ => ReadVersion(events[..|events| - 1])
  }

  /** Before the first cipher only the high byte of a version counts. */
  predicate Speaks(events: seq<Event>, version: nat) {
    match ReadVersion(events)
    case None => version / 256 == 0xFE
    case Some(v) => version == v
  }

  lemma {:induction false} StateOf(events: seq<Event>)
    ensures Run(events).closed == (Close in events)
    ensures Run(events).nullCipher == ReadVersion(events).None?
    ensures ReadVersion(events).Some? ==> Run(events).version == ReadVersion(events).value
  {
    if events != [] {
      StateOf(events[..|events| - 1]);
      InLast(events);
    }
  }

  lemma InLast(events: seq<Event>)
    requires events != []
    ensures Close in events <==> Close in events[..|events| - 1] || events[|events| - 1] == Close
  {
    assert events == events[..|events| - 1] + [events[|events| - 1]];
  }

  /** Every number the window has recorded is one accepted in this epoch. */
  lemma {:induction false} RecordedWasAccepted(events: seq<Event>, x: nat) returns (n: Number)
    requires x in Run(events).recorded
    ensures n in Accepted(events) && EpochOf(n) == Run(events).epoch && BeValue(n) == x
  {
    var before, e := events[..|events| - 1], events[|events| - 1];
    if x in Run(before).recorded {
      n := RecordedWasAccepted(before, x);
    } else {
      n := Open(Run(before), e.bytes, e.auth).1.number;
      assert Accepts(events) == [n];
    }
  }

  /** Not accepted before, and less than 64 behind every count accepted in the epoch. */
  ghost predicate Fresh(accepted: seq<Number>, epoch: nat, count: nat) {
    && W.NumberOf(epoch, count) !in accepted
    && forall c: nat :: c < W.NUMBERS && W.NumberOf(epoch, c) in accepted ==> c < count + 64
  }

  /** Within an epoch, numbers are ordered as their counts. */
  lemma NumberValue(epoch: nat, count: nat)
    requires epoch < 0x1_0000 && count < W.NUMBERS
    ensures BeValue(W.NumberOf(epoch, count)) == epoch * W.NUMBERS + count
  {
    W.SixBytes();
    BeInverse(epoch, 2);
    BeInverse(count, 6);
    BeJoin(Be(epoch, 2), Be(count, 6));
  }

  lemma {:induction false} BeJoin(a: seq<byte>, b: seq<byte>)
    ensures BeValue(a + b) == BeValue(a) * Pow256(|b|) + BeValue(b)
    decreases |b|
  {
    if b == [] {
      assert a + b == a;
    } else {
      var m := |b| - 1;
      assert (a + b)[..|a + b| - 1] == a + b[..m];
      BeJoin(a, b[..m]);
      Shifted(BeValue(a), Pow256(m), BeValue(b[..m]));
    }
  }

  lemma Shifted(a: nat, p: nat, low: nat)
    ensures 256 * (a * p + low) == a * (256 * p) + 256 * low
  {
  }

  lemma FreshIffNew(events: seq<Event>, epoch: nat, count: nat)
    requires Changes(events) == epoch < 0x1_0000 && count < W.NUMBERS
    ensures Fresh(Accepted(events), epoch, count) <==> !Stale(Run(events), W.NumberOf(epoch, count))
  {
    var s, n := Run(events), W.NumberOf(epoch, count);
    RunRemembers(events);
    NumberParts(epoch, count);
    NumberValue(epoch, count);
    if Stale(s, n) && n !in Accepted(events) {
      assert s.maxSeq in s.recorded;
      var m := RecordedWasAccepted(events, s.maxSeq);
      var c := BeValue(m[2..]);
      NumberWhole(m);
      NumberValue(epoch, c);
    }
    forall c: nat | !Stale(s, n) && c < W.NUMBERS && W.NumberOf(epoch, c) in Accepted(events)
      ensures c < count + 64
    {
      NumberParts(epoch, c);
      NumberValue(epoch, c);
    }
  }

  // ---------- opening ----------

  /** What becomes of a datagram that starts with a record: the outcome, and how much of the
      datagram is consumed.  A record is accepted exactly when it is of the epoch, fresh,
      authentic and short enough, under its own number; its version apart, it is consumed to
      its last byte either way, and the next record is next. */
  lemma RecordOpens(events: seq<Event>, r: Record, t: seq<byte>, auth: Option<nat>)
    requires Changes(events) < 0x1_0000 && Fits(r)
    ensures var packet := Written(r) + t;
            var (_, outcome, consumed) := Open(Run(events), packet, auth);
            (outcome, consumed) ==
            if Close in events then (Closed, 0)
            else if |r.body| > 16704 || !Speaks(events, r.version) then (Discarded, |packet|)
            else if r.epoch != Changes(events) || !Fresh(Accepted(events), r.epoch, r.count) || auth.None?
            then (Discarded, |Written(r)|)
            else if auth.value > 16384 then (Fatal, |Written(r)|)
            else (Opened(r.typ, W.NumberOf(r.epoch, r.count)), |Written(r)|)
  {
    ParseWritten(r, t);
    StateOf(events);
    RunRemembers(events);
    NumberParts(r.epoch, r.count);
    if r.epoch == Changes(events) {
      FreshIffNew(events, r.epoch, r.count);
    }
  }

  /** A datagram that starts with nothing laid out like a record is dropped whole. */
  lemma GarbageDropped(events: seq<Event>, packet: seq<byte>, auth: Option<nat>)
    requires packet != [] && Close !in events
    requires forall r, t :: Fits(r) && |r.body| <= 16704 ==> packet != Written(r) + t
    ensures Open(Run(events), packet, auth) == (Run(events), Discarded, |packet|)
  {
    StateOf(events);
    if ParseHeader(packet).Some? {
      ParsedIsWritten(packet);
    }
  }
}
