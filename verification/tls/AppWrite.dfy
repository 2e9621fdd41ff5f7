/**
 Writing application data over a transport that may block (`ssl3_write_app_data`): a
 write that could not be finished is repeated with the same arguments and goes on from
 where it was.  Whatever blocks, each byte is sealed exactly once.
 */
module AppWrite {
  import opened Wrappers
  import opened Words

  const MAX_PLAIN: nat := 16384

  /** A write under way: `base` is what had been sealed before it. */
  datatype Attempt = Attempt(input: seq<byte>, addr: nat, base: seq<byte>)

  /** What the limit on early data leaves, in unsigned arithmetic: the counter of early
      bytes has 16 bits, the limit 32. */
  function EarlyRoom(limit: nat, counter: nat): nat {
    (limit - counter) % TWO_32
  }

  /** The counter of early bytes after `total` of them. */
  function Counter(total: nat): nat {
    total % 0x1_0000
  }

  function Sum(ns: seq<nat>): nat {
    if ns == [] then 0 else Sum(ns[..|ns| - 1]) + ns[|ns| - 1]
  }

  /** Sizes of early records, one after the other, that the guard lets through. */
  predicate Allowed(limit: nat, maxFragment: nat, ns: seq<nat>) {
    ns == []
    || (var before, n := ns[..|ns| - 1], ns[|ns| - 1];
        Allowed(limit, maxFragment, before)
        && 0 < n <= maxFragment && n <= EarlyRoom(limit, Counter(Sum(before))))
  }

  lemma SumOne(ns: seq<nat>, n: nat)
    ensures Sum(ns + [n]) == Sum(ns) + n
  {
    assert (ns + [n])[..|ns|] == ns;
  }

  lemma AllowedOne(limit: nat, maxFragment: nat, ns: seq<nat>, n: nat)
    requires Allowed(limit, maxFragment, ns)
    requires 0 < n <= maxFragment && n <= EarlyRoom(limit, Counter(Sum(ns)))
    ensures Allowed(limit, maxFragment, ns + [n])
  {
    assert (ns + [n])[..|ns|] == ns;
  }

  /** Below 2^16 the counter is the true total, and the room what is left. */
  lemma {:induction false} LimitHolds(limit: nat, maxFragment: nat, ns: seq<nat>)
    requires limit < 0x1_0000 && Allowed(limit, maxFragment, ns)
    ensures Sum(ns) <= limit
  {
    if ns != [] {
      LimitHolds(limit, maxFragment, ns[..|ns| - 1]);
      SmallMod(Sum(ns[..|ns| - 1]), 0x1_0000);
      SmallMod(limit - Sum(ns[..|ns| - 1]), TWO_32);
    }
  }

  /** From 2^16 on there is always room, whatever the total: any number of single bytes
      goes through. */
  lemma {:induction false} NeverCloses(limit: nat, maxFragment: nat, n: nat) returns (ns: seq<nat>)
    requires 0x1_0000 <= limit < TWO_32 && maxFragment > 0
    ensures Allowed(limit, maxFragment, ns) && Sum(ns) == n
  {
    ns := [];
    if n > 0 {
      ns := NeverCloses(limit, maxFragment, n - 1);
      SmallMod(limit - Counter(Sum(ns)), TWO_32);
      AllowedOne(limit, maxFragment, ns, 1);
      SumOne(ns, 1);
      ns := ns + [1];
    }
  }

  /** The limit on early data is kept by every run exactly when it is below 2^16.  A limit
      of 2^16 itself lets 2^16 + 1 single bytes through. */
  lemma EarlyLimitHolds(limit: nat, maxFragment: nat)
    requires limit < TWO_32 && maxFragment > 0
    ensures (forall ns :: Allowed(limit, maxFragment, ns) ==> Sum(ns) <= limit) <==> limit < 0x1_0000
  {
    if limit < 0x1_0000 {
      forall ns | Allowed(limit, maxFragment, ns)
        ensures Sum(ns) <= limit
      {
        LimitHolds(limit, maxFragment, ns);
      }
    } else {
      var ns := NeverCloses(limit, maxFragment, limit + 1);
    }
  }

  /** Counter and early records agree when `inFlight` bytes are still to be flushed. */
  predicate Counts(ns: seq<nat>, inFlight: nat, counter: nat) {
    inFlight <= Sum(ns) && counter == Counter(Sum(ns) - inFlight)
  }

  /** What flushing the record under way, or writing one of `n` bytes, can lead to: `ret`
      bytes more are flushed, and a record joins only if none was under way. */
  predicate Went(a: seq<nat>, inFlight: nat, b: seq<nat>, left: nat, n: nat, ret: int) {
    && Sum(b) - left == Sum(a) - inFlight + (if ret > 0 then ret else 0)
    && (b == a || (inFlight == 0 && n > 0 && b == a + [n]))
  }

  /** The run of early records goes on. */
  lemma NextEarly(limit: nat, maxFragment: nat, counter: nat, a: seq<nat>, inFlight: nat, b: seq<nat>, left: nat,
                  n: nat, ret: int)
    requires Allowed(limit, maxFragment, a) && Counts(a, inFlight, counter)
    requires n <= maxFragment && n <= EarlyRoom(limit, counter) && Went(a, inFlight, b, left, n, ret)
    ensures Allowed(limit, maxFragment, b)
  {
    if b != a {
      assert Sum(a) - inFlight == Sum(a);
      AllowedOne(limit, maxFragment, a, n);
    }
  }

  /** Counting what was flushed keeps the counter right. */
  lemma NextCount(counter: nat, a: seq<nat>, inFlight: nat, b: seq<nat>, left: nat, n: nat, ret: int)
    requires Counts(a, inFlight, counter) && Went(a, inFlight, b, left, n, ret)
    ensures Counts(b, left, if ret > 0 then Counter(counter + ret) else counter)
  {
    if ret > 0 {
      CountOn(Sum(a) - inFlight, ret);
    }
  }

  /** Counting what has been flushed. */
  lemma CountOn(total: nat, n: nat)
    ensures Counter(Counter(total) + n) == Counter(total + n)
  {
  }

  /** The early records are a run that the guard let through and, until that phase is over,
      the counter agrees with them.  Unfolded only in proofs that mention `Look`. */
  ghost predicate Early(limit: nat, maxFragment: nat, ns: seq<nat>, over: bool, inFlight: nat, counter: nat) {
    forall k: nat {:trigger Look(k)} :: Look(k) ==>
      Allowed(limit, maxFragment, ns) && (!over ==> Counts(ns, inFlight, counter))
  }

  ghost predicate Look(k: nat) {
    true
  }

  lemma EarlyAtStart(limit: nat, maxFragment: nat, ns: seq<nat>, inFlight: nat, counter: nat)
    requires ns == [] && inFlight == 0 && counter == 0
    ensures Early(limit, maxFragment, ns, false, inFlight, counter)
  {
  }

  lemma EarlyEnds(limit: nat, maxFragment: nat, ns: seq<nat>, over: bool, inFlight: nat, counter: nat)
    requires Early(limit, maxFragment, ns, over, inFlight, counter)
    ensures Allowed(limit, maxFragment, ns) && Early(limit, maxFragment, ns, true, 0, 0)
  {
    assert Look(0);
  }

  /** A turn of the loop, and what it adds to the counter. */
  lemma EarlyGoesOn(limit: nat, maxFragment: nat, counter: nat, a: seq<nat>, inFlight: nat, b: seq<nat>, left: nat,
                    n: nat, ret: int)
    requires Early(limit, maxFragment, a, false, inFlight, counter)
    requires n <= maxFragment && n <= EarlyRoom(limit, counter) && Went(a, inFlight, b, left, n, ret)
    ensures Early(limit, maxFragment, b, false, left, if ret > 0 then Counter(counter + ret) else counter)
  {
    assert Look(0);
    NextEarly(limit, maxFragment, counter, a, inFlight, b, left, n, ret);
    NextCount(counter, a, inFlight, b, left, n, ret);
  }

  lemma Extend(base: seq<byte>, input: seq<byte>, tot: nat, n: nat)
    requires tot + n <= |input|
    ensures base + input[..tot] + input[tot..tot + n] == base + input[..tot + n]
  {
    assert input[..tot] + input[tot..tot + n] == input[..tot + n];
  }

  class Writer {
    const maxFragment: nat
    const partialWrites: bool
    const movingBuffer: bool
    const earlyLimit: nat
    var wnum: nat
    var pending: bool
    var wpendTot: nat
    var wpendBuf: nat
    var wpendRet: nat
    var earlyWritten: nat
    var canEarlyWrite: bool

    /** All application data ever sealed, and the sizes of the records. */
    ghost var sealed: seq<byte>
    ghost var records: seq<nat>
    ghost var attempt: Option<Attempt>
    /** A repeated write had other arguments. */
    ghost var misused: bool
    /** The records sealed as early data, and whether that phase is over. */
    ghost var earlyRecords: seq<nat>
    ghost var earlyOver: bool

    ghost function InFlight(): nat
      reads this
    {
      if pending then wpendTot else 0
    }

    ghost predicate Valid()
      reads this
    {
      Sizes() && (!misused ==> Going()) && EarlyOk()
    }

    /** What has been sealed is what was sealed before and the write's first bytes. */
    ghost predicate Going()
      reads this
    {
      match attempt
      case None => wnum == 0 && !pending
      case Some(t) =>
        && wnum + InFlight() <= |t.input|
        && (pending && !movingBuffer ==> wpendBuf == t.addr + wnum)
        && sealed == t.base + t.input[..wnum + InFlight()]
    }

    constructor (maxFragment: nat, partialWrites: bool, movingBuffer: bool, earlyLimit: nat)
      requires 0 < maxFragment <= MAX_PLAIN && earlyLimit < TWO_32
      ensures Valid() && sealed == [] && records == [] && attempt.None? && !misused && earlyRecords == [] && !earlyOver
    {
      this.maxFragment, this.partialWrites, this.movingBuffer := maxFragment, partialWrites, movingBuffer;
      this.earlyLimit := earlyLimit;
      wnum, pending, wpendTot, wpendBuf, wpendRet := 0, false, 0, 0, 0;
      earlyWritten, canEarlyWrite := 0, true;
      sealed, records, attempt, misused, earlyRecords, earlyOver := [], [], None, false, [], false;
      new;
      EarlyAtStart(earlyLimit, maxFragment, earlyRecords, Settling(), Counted());
    }

    /** `ssl3_write_pending`: flushing may block. */
    method WritePending(addr: nat, len: nat) returns (ret: int)
      requires pending && wpendRet == wpendTot > 0
      modifies `pending
      ensures ret > 0 ==> !pending && ret == wpendRet && wpendTot <= len
      ensures ret <= 0 ==> pending
      ensures wpendTot > len || (!movingBuffer && wpendBuf != addr) ==> ret == -1
    {
      if wpendTot > len || (!movingBuffer && wpendBuf != addr) {
        return -1;
      }
      var flushed: int := *;
      if flushed <= 0 {
        return flushed;
      }
      pending := false;
      ret := wpendRet;
    }

    /** `do_ssl3_write`: seals one record, unless one is still to be flushed. */
    method DoWrite(data: seq<byte>, addr: nat, early: bool) returns (ret: int)
      requires pending ==> wpendRet == wpendTot > 0
      modifies `pending, `wpendTot, `wpendBuf, `wpendRet, `sealed, `records, `earlyRecords
      ensures pending ==> wpendRet == wpendTot > 0
      ensures ret > 0 ==> !pending && ret == wpendRet == wpendTot <= |data|
      ensures old(pending) ==> wpendTot == old(wpendTot) && wpendBuf == old(wpendBuf) && (ret <= 0 ==> pending)
      ensures old(pending) && (wpendTot > |data| || (!movingBuffer && wpendBuf != addr)) ==> ret == -1
      ensures old(pending) ==> sealed == old(sealed) && records == old(records) && earlyRecords == old(earlyRecords)
      ensures !old(pending) && (pending || ret > 0) ==>
        && wpendTot == |data| && wpendBuf == addr && sealed == old(sealed) + data && records == old(records) + [|data|]
        && 0 < |data| && earlyRecords == old(earlyRecords) + if early then [|data|] else []
      ensures !old(pending) && !pending && ret <= 0 ==>
        sealed == old(sealed) && records == old(records) && earlyRecords == old(earlyRecords)
      ensures early ==> Went(old(earlyRecords), old(InFlight()), earlyRecords, InFlight(), |data|, ret)
    {
      SumOne(earlyRecords, |data|);
      if pending {
        ret := WritePending(addr, |data|);
        return;
      }
      if |data| > MAX_PLAIN {
        return -1;
      }
      if data == [] {
        return 0;
      }
      var failed: bool := *;
      if failed {
        return -1;
      }
      sealed, records := sealed + data, records + [|data|];
      earlyRecords := earlyRecords + if early then [|data|] else [];
      wpendTot, wpendBuf, wpendRet, pending := |data|, addr, |data|, true;
      ret := WritePending(addr, |data|);
    }

    /** A limit on early data below 2^16 is never passed. */
    lemma WithinLimit()
      requires Valid() && earlyLimit < 0x1_0000
      ensures Sum(earlyRecords) <= earlyLimit
    {
      EarlyEnds(earlyLimit, maxFragment, earlyRecords, earlyOver, Settling(), Counted());
      LimitHolds(earlyLimit, maxFragment, earlyRecords);
    }

    /** What had been sealed before the write that is under way or about to start. */
    ghost function Base(): seq<byte>
      reads this
    {
      if attempt.Some? then attempt.value.base else sealed
    }

    /** A repeated write has the bytes it had before, at the same address unless the buffer
        may move. */
    ghost predicate Repeats(input: seq<byte>, addr: nat)
      reads this
    {
      attempt.Some? ==> attempt.value.input == input && (movingBuffer || attempt.value.addr == addr)
    }

    /** `ssl3_write_app_data`.  `early` tells that the data is early data, a phase that
        comes first and ends once.  A blocked write is to be repeated with the same
        bytes, where `Repeats` asks for them; after other arguments nothing is promised about the bytes. */
    method WriteAppData(input: seq<byte>, addr: nat, early: bool, shutdown: bool)
      returns (ret: int, needsHandshake: bool)
      requires Valid() && (early ==> canEarlyWrite && !earlyOver)
      modifies this
      ensures Valid() && old(records) <= records
      ensures !shutdown ==> misused == (old(misused) || !old(Repeats(input, addr)))
      ensures shutdown ==> ret == -1 && unchanged(this)
      ensures ret > 0 ==> attempt.None? && ret <= |input|
      ensures !misused && ret > 0 ==> sealed == old(Base()) + input[..ret]
      ensures !misused && ret > 0 && !partialWrites ==> ret == |input|
      ensures !misused && ret <= 0 && !shutdown ==>
        if attempt.Some? then attempt.value == Attempt(input, addr, old(Base())) else sealed == old(Base())
    {
      needsHandshake := false;
      if shutdown {
        return -1, needsHandshake;
      }
      var tot := wnum;
      Begin(input, addr, early);
      wnum := 0;
      if |input| < tot {
        return -1, needsHandshake;
      }
      ret, needsHandshake := Continue(input, addr, early, tot);
    }

    /** The write goes on from byte `start`; what is left of it, if anything, is noted. */
    method Continue(input: seq<byte>, addr: nat, early: bool, start: nat) returns (ret: int, needsHandshake: bool)
      requires ValidExcept(input, addr, start) && start <= |input| && early == !earlyOver && wnum == 0
      modifies `pending, `wpendTot, `wpendBuf, `wpendRet, `earlyWritten, `canEarlyWrite
      modifies `sealed, `records, `earlyRecords
      modifies `wnum, `attempt
      ensures Valid() && old(records) <= records
      ensures ret > 0 ==> attempt.None? && ret <= |input|
      ensures !misused && ret > 0 ==> sealed == old(Base()) + input[..ret]
      ensures !misused && ret > 0 && !partialWrites ==> ret == |input|
      ensures !misused && ret <= 0 ==> if attempt.Some? then attempt == old(attempt) else sealed == old(Base())
    {
      var tot;
      ret, tot, needsHandshake := WriteRest(input, addr, early, start);
      if ret > 0 {
        attempt := None;
        ret := tot + ret;
        return;
      }
      wnum := tot;
      if tot == 0 && !pending {
        attempt := None;
      }
    }

    ghost method Begin(input: seq<byte>, addr: nat, early: bool)
      requires Valid() && (early ==> !earlyOver)
      modifies `misused, `attempt, `earlyOver
      ensures misused == (old(misused) || !old(Repeats(input, addr)))
      ensures attempt == Some(Attempt(input, addr, old(Base()))) && early == !earlyOver
      ensures ValidExcept(input, addr, wnum)
    {
      EarlyEnds(earlyLimit, maxFragment, earlyRecords, earlyOver, Settling(), Counted());
      misused := misused || !Repeats(input, addr);
      attempt := Some(Attempt(input, addr, Base()));
      earlyOver := earlyOver || !early;
    }

    static function Least(a: nat, b: nat): nat {
      if a < b then a else b
    }

    /** The most that may go into a record. */
    function Limit(early: bool): (max: nat)
      requires 0 < maxFragment <= MAX_PLAIN && earlyLimit < TWO_32
      reads this
      ensures max <= maxFragment && (!early ==> max > 0)
      ensures early ==> max <= EarlyRoom(earlyLimit, earlyWritten)
    {
      if early && maxFragment > EarlyRoom(earlyLimit, earlyWritten) then EarlyRoom(earlyLimit, earlyWritten)
      else maxFragment
    }

    /** One turn of the loop: the next record, as long as the data, `max_send_fragment` and
        what is left of the early data allow. */
    method WriteOne(input: seq<byte>, addr: nat, early: bool, tot: nat) returns (ret: int, needsHandshake: bool)
      requires ValidExcept(input, addr, tot) && tot <= |input| && early == !earlyOver
      modifies `pending, `wpendTot, `wpendBuf, `wpendRet, `earlyWritten, `canEarlyWrite
      modifies `sealed, `records, `earlyRecords
      ensures var room := if early then Least(maxFragment, (earlyLimit - old(earlyWritten)) % TWO_32) else maxFragment;
              records == old(records) || records == old(records) + [Least(|input| - tot, room)]
      ensures ret <= 0 ==> ValidExcept(input, addr, tot)
      ensures ret > 0 ==> tot + ret <= |input| && !pending && ValidExcept(input, addr, tot + ret)
    {
      needsHandshake := false;
      var n, max := |input| - tot, Limit(early);
      if max == 0 {
        canEarlyWrite, needsHandshake := false, true;
        return -1, needsHandshake;
      }
      ret := WriteCounted(input, addr, early, tot, if n > max then max else n);
    }

    /** The record, and the counter of early bytes. */
    method WriteCounted(input: seq<byte>, addr: nat, early: bool, tot: nat, nw: nat) returns (ret: int)
      requires ValidExcept(input, addr, tot) && tot + nw <= |input| && early == !earlyOver
      requires nw <= maxFragment && (early ==> nw <= EarlyRoom(earlyLimit, earlyWritten))
      modifies `pending, `wpendTot, `wpendBuf, `wpendRet, `earlyWritten, `sealed, `records, `earlyRecords
      ensures records == old(records) || records == old(records) + [nw]
      ensures ret <= 0 ==> ValidExcept(input, addr, tot)
      ensures ret > 0 ==> tot + ret <= |input| && !pending && ValidExcept(input, addr, tot + ret)
    {
      ghost var was, inFlight := earlyRecords, InFlight();
      ret := WriteRecord(input, addr, early, tot, nw);
      if early {
        EarlyGoesOn(earlyLimit, maxFragment, earlyWritten, was, inFlight, earlyRecords, InFlight(), nw, ret);
      }
      if ret > 0 && early {
        earlyWritten := Counter(earlyWritten + ret);
      }
    }

    /** The record, and what becomes of the bytes of the write. */
    method WriteRecord(input: seq<byte>, addr: nat, early: bool, tot: nat, nw: nat) returns (ret: int)
      requires Sizes() && Bytes(input, addr, tot) && tot + nw <= |input| && nw <= maxFragment
      modifies `pending, `wpendTot, `wpendBuf, `wpendRet, `sealed, `records, `earlyRecords
      ensures Sizes() && (records == old(records) || records == old(records) + [nw])
      ensures Bytes(input, addr, if ret > 0 then tot + ret else tot)
      ensures ret > 0 ==> !pending && tot + ret <= |input|
      ensures early ==> Went(old(earlyRecords), old(InFlight()), earlyRecords, InFlight(), nw, ret)
      ensures !early ==> earlyRecords == old(earlyRecords)
    {
      Extend(attempt.value.base, input, tot, nw);
      ret := DoWrite(input[tot..tot + nw], addr + tot, early);
    }

    /** The loop: from byte `start` on, until a record blocks or all is written.  `ret` is
        what the last record made of it, `tot` what was written before that. */
    method WriteRest(input: seq<byte>, addr: nat, early: bool, start: nat)
      returns (ret: int, tot: nat, needsHandshake: bool)
      requires ValidExcept(input, addr, start) && start <= |input| && early == !earlyOver
      modifies `pending, `wpendTot, `wpendBuf, `wpendRet, `earlyWritten, `canEarlyWrite
      modifies `sealed, `records, `earlyRecords
      ensures old(records) <= records && tot <= |input|
      ensures ret <= 0 ==> ValidExcept(input, addr, tot)
      ensures ret > 0 ==> tot + ret <= |input| && !pending && ValidExcept(input, addr, tot + ret)
      ensures ret > 0 && !partialWrites ==> tot + ret == |input|
    {
      tot := start;
      var n := |input| - tot;
      while true
        invariant n == |input| - tot && tot <= |input| && old(records) <= records
        invariant ValidExcept(input, addr, tot)
        decreases n
      {
        ret, needsHandshake := WriteOne(input, addr, early, tot);
        if ret <= 0 || ret == n || partialWrites {
          return;
        }
        n, tot := n - ret, tot + ret;
      }
    }

    /** The invariant while `tot` stands in for `wnum`. */
    ghost predicate ValidExcept(input: seq<byte>, addr: nat, tot: nat)
      reads this
    {
      Sizes() && Bytes(input, addr, tot) && EarlyOk()
    }

    ghost predicate Sizes()
      reads this
    {
      && 0 < maxFragment <= MAX_PLAIN && earlyLimit < TWO_32
      && (forall r :: r in records ==> 0 < r <= maxFragment)
      && (pending ==> wpendRet == wpendTot > 0)
    }

    ghost predicate Bytes(input: seq<byte>, addr: nat, tot: nat)
      reads this
    {
      && attempt.Some? && attempt.value.input == input && attempt.value.addr == addr
      && (!misused ==>
            && tot + InFlight() <= |input|
            && (pending && !movingBuffer ==> wpendBuf == addr + tot)
            && sealed == attempt.value.base + input[..tot + InFlight()])
    }

    /** The early bytes still to be flushed, and those counted, until that phase is over. */
    ghost function Settling(): nat
      reads this
    {
      if earlyOver then 0 else InFlight()
    }

    ghost function Counted(): nat
      reads this
    {
      if earlyOver then 0 else earlyWritten
    }

    ghost predicate EarlyOk()
      reads this
    {
      Early(earlyLimit, maxFragment, earlyRecords, earlyOver, Settling(), Counted())
    }
  }
}
