/**
 Write sequence numbers: `ssl_record_sequence_update`, `dtls_seal_record` and
 `dtls1_set_write_state` over whole runs.  Within an epoch the numbers run through the 48
 bits in order, whether the epoch is the current one or the one before, so a number comes
 back only after 2^48 records.
 */
module RecordWriting {
  import opened Wrappers
  import opened Words
  import opened ReplayWindow

  // ---------- the counter ----------

  const NUMBERS: nat := 0x1_0000_0000_0000

  /** The next big-endian integer of the same width. */
  function Successor(bs: seq<byte>): (r: seq<byte>)
    ensures |r| == |bs|
  {
    if bs == [] then []
    else
      var n := |bs| - 1;
      if bs[n] == 255 then Successor(bs[..n]) + [0] else bs[..n] + [bs[n] + 1]
  }

  lemma {:induction false} SuccessorValue(bs: seq<byte>)
    ensures BeValue(Successor(bs)) == (BeValue(bs) + 1) % Pow256(|bs|)
  {
    BeValueBound(bs);
    if bs != [] {
      var n := |bs| - 1;
      SuccessorValue(bs[..n]);
      assert Successor(bs)[..n] == if bs[n] == 255 then Successor(bs[..n]) else bs[..n];
      Carry(BeValue(bs[..n]), bs[n], Pow256(n));
      BeValueBound(bs[..n]);
    }
  }

  lemma Carry(v: nat, b: byte, p: nat)
    requires v < p
    ensures (256 * v + b + 1) % (256 * p)
         == if b == 255 then 256 * ((v + 1) % p) else 256 * v + b + 1
  {
    if b == 255 && v + 1 == p {
      ModUnique(256 * p, 256 * p, 1, 0);
      ModUnique(p, p, 1, 0);
    } else {
      SmallMod(256 * v + b + 1, 256 * p);
      if b == 255 {
        SmallMod(v + 1, p);
      }
    }
  }

  predicate AllOnes(bs: seq<byte>) {
    forall i :: 0 <= i < |bs| ==> bs[i] == 255
  }

  lemma {:induction false} AllOnesValue(bs: seq<byte>)
    ensures AllOnes(bs) <==> BeValue(bs) + 1 == Pow256(|bs|)
  {
    BeValueBound(bs);
    if bs != [] {
      var n := |bs| - 1;
      AllOnesValue(bs[..n]);
      BeValueBound(bs[..n]);
      assert AllOnes(bs) <==> AllOnes(bs[..n]) && bs[n] == 255;
    }
  }

  /** The bytes after `n` are all ones: those become zero and, unless `n` is -1, byte `n`
      takes the carry. */
  lemma {:induction false} SuccessorAt(bs: seq<byte>, n: int)
    requires -1 <= n < |bs| && (n >= 0 ==> bs[n] != 255)
    requires forall k :: n < k < |bs| ==> bs[k] == 255
    ensures forall k :: n < k < |bs| ==> Successor(bs)[k] == 0
    ensures n >= 0 ==> Successor(bs)[n] == bs[n] + 1
    ensures forall k :: 0 <= k < n ==> Successor(bs)[k] == bs[k]
    decreases |bs|
  {
    var m := |bs| - 1;
    if n < m {
      SuccessorAt(bs[..m], n);
    }
  }

  /** `ssl_record_sequence_update` on the bytes from `lo` on: it fails, leaving zeros, when
      they were all ones. */
  method SequenceUpdate(a: array<byte>, lo: nat) returns (ok: bool)
    requires lo <= a.Length
    modifies a
    ensures a[..lo] == old(a[..lo]) && a[lo..] == Successor(old(a[lo..]))
    ensures ok == !AllOnes(old(a[lo..]))
  {
    ghost var was := a[lo..];
    var i := a.Length;
    while i > lo
      invariant lo <= i <= a.Length
      invariant forall k :: 0 <= k < i ==> a[k] == old(a[k])
      invariant forall k :: i <= k < a.Length ==> a[k] == 0
      invariant forall k :: i - lo <= k < |was| ==> was[k] == 255
    {
      i := i - 1;
      a[i] := if a[i] == 255 then 0 else a[i] + 1;
      if a[i] != 0 {
        SuccessorAt(was, i - lo);
        return true;
      }
    }
    SuccessorAt(was, -1);
    ok := false;
  }

  // ---------- sealing ----------

  /** The epochs' counters, as numbers. */
  datatype WriteState = WriteState(epoch: nat, next: nat, last: nat)

  /** The number of a record: two bytes of epoch, six of counter. */
  function NumberOf(epoch: nat, counter: nat): Number {
    Be(epoch, 2) + Be(counter, 6)
  }

  /** A seal needs the cipher to succeed, and a previous epoch if it is to be sealed in. */
  predicate CanSeal(s: WriteState, previous: bool, ok: bool) {
    ok && !(previous && s.epoch == 0)
  }

  /** A seal in the current or the previous epoch spends a number, even should advancing
      the counter then fail. */
  function AfterSeal(s: WriteState, previous: bool): WriteState {
    if previous then s.(last := (s.last + 1) % NUMBERS) else s.(next := (s.next + 1) % NUMBERS)
  }

  function SealNumber(s: WriteState, previous: bool): Number
    requires previous ==> s.epoch > 0
  {
    if previous then NumberOf(s.epoch - 1, s.last) else NumberOf(s.epoch, s.next)
  }

  function Seal(s: WriteState, previous: bool, ok: bool): (WriteState, Option<Number>) {
    if CanSeal(s, previous, ok) then (AfterSeal(s, previous), Some(SealNumber(s, previous))) else (s, None)
  }

  function NewEpoch(s: WriteState): WriteState {
    WriteState((s.epoch + 1) % 0x1_0000, 0, s.next)
  }

  lemma SixBytes()
    ensures Pow256(6) == NUMBERS && Pow256(2) == 0x1_0000
  {
    assert Pow256(3) == 0x100_0000;
  }

  class Writer {
    var epoch: nat
    const current: array<byte>
    const last: array<byte>

    ghost predicate Valid()
      reads this
    {
      current.Length == 8 && last.Length == 8 && current != last && epoch < 0x1_0000
    }

    ghost function View(): WriteState
      requires Valid()
      reads this, current, last
    {
      WriteState(epoch, BeValue(current[2..]), BeValue(last[2..]))
    }

    constructor ()
      ensures Valid() && View() == START
    {
      epoch := 0;
      current := new byte[8](_ => 0);
      last := new byte[8](_ => 0);
      new;
      Zeros(current[2..]);
      Zeros(last[2..]);
    }

    /** `dtls_seal_record`: `number` is what the record is sealed with, if it is, and `len`
        how long the ciphertext gets.  The number is spent before either is found to be out
        of range. */
    method SealRecord(previous: bool, cipherOk: bool, len: nat) returns (ok: bool, number: Option<Number>)
      requires Valid() && (previous ==> epoch >= 1)
      modifies current, last
      ensures Valid() && (View(), number) == Seal(old(View()), previous, cipherOk)
      ensures ok == (cipherOk && len < 0x1_0000
                     && (if previous then old(View()).last else old(View()).next) + 1 < NUMBERS)
    {
      var recordEpoch, a := epoch, current;
      if previous {
        recordEpoch, a := epoch - 1, last;
      }
      if !cipherOk {
        return false, None;
      }
      number := Some([recordEpoch / 256, recordEpoch % 256] + a[2..]);
      SameNumber(recordEpoch, a[2..]);
      ok := CountOn(a);
      ok := ok && len < 0x1_0000;
    }

    /** The counter of six bytes after an epoch's two. */
    static method CountOn(a: array<byte>) returns (ok: bool)
      requires a.Length == 8
      modifies a
      ensures BeValue(a[2..]) == (old(BeValue(a[2..])) + 1) % NUMBERS
      ensures ok == (old(BeValue(a[2..])) + 1 < NUMBERS)
    {
      SixBytes();
      SuccessorValue(a[2..]);
      AllOnesValue(a[2..]);
      BeValueBound(a[2..]);
      ok := SequenceUpdate(a, 2);
    }

    /** The counters in `dtls1_set_write_state`. */
    method SetWriteState()
      requires Valid()
      modifies this, current, last
      ensures Valid() && View() == NewEpoch(old(View()))
    {
      epoch := (epoch + 1) % 0x1_0000;
      forall i | 0 <= i < 8 {
        last[i] := current[i];
      }
      forall i | 0 <= i < 8 {
        current[i] := 0;
      }
      assert last[2..] == old(current[2..]);
      Zeros(current[2..]);
    }
  }

  lemma {:induction false} Zeros(bs: seq<byte>)
    requires forall i :: 0 <= i < |bs| ==> bs[i] == 0
    ensures BeValue(bs) == 0
  {
    if bs != [] {
      Zeros(bs[..|bs| - 1]);
    }
  }

  lemma {:induction false} BeOfValue(bs: seq<byte>)
    ensures Be(BeValue(bs), |bs|) == bs
  {
    if bs != [] {
      BeOfValue(bs[..|bs| - 1]);
    }
  }

  lemma SameNumber(epoch: nat, counter: seq<byte>)
    requires epoch < 0x1_0000 && |counter| == 6
    ensures [epoch / 256, epoch % 256] + counter == NumberOf(epoch, BeValue(counter))
  {
    BeOfValue(counter);
    assert Be(epoch, 2) == [epoch / 256, epoch % 256] by {
      assert Be(epoch / 256, 1) == [epoch / 256];
    }
  }

  // ---------- runs ----------

  datatype Event = SealEvent(previous: bool, ok: bool) | Change

  const START: WriteState := WriteState(0, 0, 0)

  function Run(events: seq<Event>): WriteState {
    if events == [] then START
    else
      var s, e := Run(events[..|events| - 1]), events[|events| - 1];
      match e
      case SealEvent(previous, ok) => if CanSeal(s, previous, ok) then AfterSeal(s, previous) else s
      case Change => NewEpoch(s)
  }

  /** Whether the last event seals a record, and its number. */
  predicate Seals(events: seq<Event>)
    requires events != []
  {
    var e := events[|events| - 1];
    e.SealEvent? && CanSeal(Run(events[..|events| - 1]), e.previous, e.ok)
  }

  function Sealed(events: seq<Event>): Number
    requires events != [] && Seals(events)
  {
    SealNumber(Run(events[..|events| - 1]), events[|events| - 1].previous)
  }

  /** The epoch of that seal, counted without limit. */
  function SealEpoch(events: seq<Event>): int
    requires events != []
  {
    Changes(events) - if events[|events| - 1].SealEvent? && events[|events| - 1].previous then 1 else 0
  }

  function Changes(events: seq<Event>): nat {
    if events == [] then 0 else Changes(events[..|events| - 1]) + if events[|events| - 1].Change? then 1 else 0
  }

  /** How many records have been sealed in epoch `e`. */
  function Count(events: seq<Event>, e: int): nat {
    if events == [] then 0
    else
      Count(events[..|events| - 1], e) + if Seals(events) && SealEpoch(events) == e then 1 else 0
  }

  lemma Prefix(events: seq<Event>, j: nat, i: nat)
    requires i <= j <= |events|
    ensures events[..j][..i] == events[..i]
  {
  }

  lemma {:induction false} CountGrows(events: seq<Event>, j: nat, e: int)
    requires j <= |events|
    ensures Count(events[..j], e) <= Count(events, e)
    ensures Changes(events[..j]) <= Changes(events)
    decreases |events|
  {
    if j == |events| {
      assert events[..j] == events;
    } else {
      CountGrows(events[..|events| - 1], j, e);
      Prefix(events, |events| - 1, j);
    }
  }

  lemma Step(n: nat)
    ensures (n % NUMBERS + 1) % NUMBERS == (n + 1) % NUMBERS
  {
  }

  /** The counters count, modulo 2^48. */
  ghost predicate Counts(s: WriteState, events: seq<Event>) {
    var k := Changes(events);
    && s.epoch == k
    && s.next == Count(events, k) % NUMBERS
    && (k >= 1 ==> s.last == Count(events, k - 1) % NUMBERS)
    && (forall e :: e > k ==> Count(events, e) == 0)
  }

  lemma {:induction false} CountersCount(events: seq<Event>)
    requires Changes(events) < 0x1_0000
    ensures Counts(Run(events), events)
  {
    if events != [] {
      var before := events[..|events| - 1];
      CountersCount(before);
      CountStep(before, events);
    }
  }

  lemma CountStep(before: seq<Event>, events: seq<Event>)
    requires events != [] && before == events[..|events| - 1] && Changes(events) < 0x1_0000
    requires Counts(Run(before), before)
    ensures Counts(Run(events), events)
  {
    if events[|events| - 1].Change? {
      ChangeStep(before, events);
    } else {
      SealStep(before, events);
    }
  }

  lemma ChangeStep(before: seq<Event>, events: seq<Event>)
    requires events != [] && before == events[..|events| - 1] && events[|events| - 1].Change?
    requires Changes(events) < 0x1_0000 && Counts(Run(before), before)
    ensures Counts(Run(events), events)
  {
    var k := Changes(before);
    assert Changes(events) == k + 1;
    SmallMod(k + 1, 0x1_0000);
    SmallMod(0, NUMBERS);
    assert Run(events) == NewEpoch(Run(before));
    assert forall x :: Count(events, x) == Count(before, x);
  }

  lemma SealStep(before: seq<Event>, events: seq<Event>)
    requires events != [] && before == events[..|events| - 1] && events[|events| - 1].SealEvent?
    requires Counts(Run(before), before)
    ensures Counts(Run(events), events)
  {
    var s, s', k, x := Run(before), Run(events), Changes(before), SealEpoch(events);
    assert Changes(events) == k && s'.epoch == s.epoch == k;
    if !Seals(events) {
      assert s' == s;
      assert forall y :: Count(events, y) == Count(before, y);
    } else {
      var n := Count(before, x);
      assert forall y :: Count(events, y) == if y == x then n + 1 else Count(before, y);
      if x == k {
        assert s' == s.(next := (n % NUMBERS + 1) % NUMBERS);
      } else {
        assert s' == s.(last := (n % NUMBERS + 1) % NUMBERS);
      }
      Step(n);
    }
  }

  /** A record's number is its epoch and how many were sealed in that epoch before it. */
  lemma SealedNumber(events: seq<Event>)
    requires events != [] && Changes(events) < 0x1_0000 && Seals(events)
    ensures 0 <= SealEpoch(events) <= Changes(events)
    ensures Sealed(events)
         == NumberOf(SealEpoch(events), Count(events[..|events| - 1], SealEpoch(events)) % NUMBERS)
  {
    var before := events[..|events| - 1];
    var s, e, k := Run(before), SealEpoch(events), Changes(before);
    CountersCount(before);
    assert s.epoch == k && s.next == Count(before, k) % NUMBERS;
    if events[|events| - 1].previous {
      assert e == k - 1 && s.last == Count(before, e) % NUMBERS;
    } else {
      assert e == k;
    }
  }

  lemma NumberInjective(e: nat, c: nat, e': nat, c': nat)
    requires e < 0x1_0000 && e' < 0x1_0000 && c < NUMBERS && c' < NUMBERS
    requires NumberOf(e, c) == NumberOf(e', c')
    ensures e == e' && c == c'
  {
    SixBytes();
    assert Be(e, 2) == NumberOf(e, c)[..2] && Be(c, 6) == NumberOf(e, c)[2..];
    assert Be(e', 2) == NumberOf(e', c')[..2] && Be(c', 6) == NumberOf(e', c')[2..];
    BeInverse(e, 2);
    BeInverse(e', 2);
    BeInverse(c, 6);
    BeInverse(c', 6);
  }

  /** The number of the `i`th event, if it seals. */
  lemma SealedAt(events: seq<Event>, i: nat)
    requires Changes(events) < 0x1_0000 && 0 < i <= |events| && Seals(events[..i])
    ensures var e := SealEpoch(events[..i]);
            && 0 <= e < 0x1_0000
            && Sealed(events[..i]) == NumberOf(e, Count(events[..i - 1], e) % NUMBERS)
  {
    CountGrows(events, i, 0);
    SealedNumber(events[..i]);
    Prefix(events, i, i - 1);
  }

  /** Exactly when two seals share a number: in one epoch, a multiple of 2^48 apart. */
  lemma SameNumberIff(events: seq<Event>, i: nat, j: nat)
    requires Changes(events) < 0x1_0000 && 0 < i < j <= |events|
    requires Seals(events[..i]) && Seals(events[..j])
    ensures Sealed(events[..i]) == Sealed(events[..j])
       <==> SealEpoch(events[..i]) == SealEpoch(events[..j])
            && Count(events[..i - 1], SealEpoch(events[..i])) % NUMBERS
               == Count(events[..j - 1], SealEpoch(events[..i])) % NUMBERS
  {
    var e, e' := SealEpoch(events[..i]), SealEpoch(events[..j]);
    SealedAt(events, i);
    SealedAt(events, j);
    if Sealed(events[..i]) == Sealed(events[..j]) {
      NumberInjective(e, Count(events[..i - 1], e) % NUMBERS, e', Count(events[..j - 1], e') % NUMBERS);
    }
  }

  /** No write number is ever reused while no epoch seals more than 2^48 records, whatever
      retransmissions in the previous epoch come between. */
  lemma NeverReused(events: seq<Event>, i: nat, j: nat)
    requires Changes(events) < 0x1_0000 && 0 < i < j <= |events|
    requires forall e :: Count(events, e) <= NUMBERS
    requires Seals(events[..i]) && Seals(events[..j])
    ensures Sealed(events[..i]) != Sealed(events[..j])
  {
    SameNumberIff(events, i, j);
    var e := SealEpoch(events[..i]);
    if SealEpoch(events[..j]) == e {
      CountsApart(events, i, j, e);
      ModDistinct(Count(events[..i - 1], e), Count(events[..j - 1], e));
    }
  }

  /** A seal in epoch `e` counts. */
  lemma CountPassed(events: seq<Event>, i: nat, e: int)
    requires 0 < i <= |events| && Seals(events[..i]) && SealEpoch(events[..i]) == e
    ensures Count(events[..i - 1], e) + 1 == Count(events[..i], e) <= Count(events, e)
  {
    CountGrows(events, i, e);
    Prefix(events, i, i - 1);
  }

  /** Two seals of an epoch that seals no more than 2^48 records. */
  lemma CountsApart(events: seq<Event>, i: nat, j: nat, e: int)
    requires 0 < i < j <= |events| && Count(events, e) <= NUMBERS
    requires Seals(events[..i]) && SealEpoch(events[..i]) == e
    requires Seals(events[..j]) && SealEpoch(events[..j]) == e
    ensures Count(events[..i - 1], e) < Count(events[..j - 1], e) < Count(events[..i - 1], e) + NUMBERS
  {
    CountPassed(events, i, e);
    CountPassed(events, j, e);
    CountOrder(events, i, j - 1, e);
  }

  lemma CountOrder(events: seq<Event>, i: nat, j: nat, e: int)
    requires i <= j <= |events|
    ensures Count(events[..i], e) <= Count(events[..j], e)
  {
    CountGrows(events[..j], i, e);
    Prefix(events, j, i);
  }

  lemma ModDistinct(x: nat, y: nat)
    requires x < y < x + NUMBERS
    ensures x % NUMBERS != y % NUMBERS
  {
  }

  /** The bound is exact: the record after 2^48 others of its epoch repeats the first
      one's number. */
  lemma Wraps(events: seq<Event>, i: nat, j: nat)
    requires Changes(events) < 0x1_0000 && 0 < i < j <= |events|
    requires Seals(events[..i]) && Seals(events[..j])
    requires SealEpoch(events[..i]) == SealEpoch(events[..j])
    requires Count(events[..i - 1], SealEpoch(events[..i])) == 0
    requires Count(events[..j - 1], SealEpoch(events[..i])) == NUMBERS
    ensures Sealed(events[..i]) == Sealed(events[..j])
  {
    SameNumberIff(events, i, j);
  }
}
