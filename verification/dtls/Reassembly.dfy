/**
 A handshake message under reassembly (`hm_fragment`): the bytes received so far and a
 bitmask saying which they are.  The mask is proved to be the set of bytes that some
 mark has covered, and to disappear exactly when that set becomes the whole message.
 */
module Reassembly {
  import opened Words

  /** Bit `k` of a byte. */
  predicate Bit(b: bv8, k: nat)
    requires k < 8
  {
    (b >> k) & 1 == 1
  }

  /** `bit_range`: bits `start`, inclusive, to `end`, exclusive. */
  function BitRange(start: nat, end: nat): bv8
    requires start <= 8 && end <= 8
  {
    (!((1 as bv32 << start) - 1) & ((1 as bv32 << end) - 1) & 0xFF) as bv8
  }

  lemma BitRangeBits(start: nat, end: nat, k: nat)
    requires start <= 8 && end <= 8 && k < 8
    ensures Bit(BitRange(start, end), k) <==> start <= k < end
  {
  }

  lemma OrBits(a: bv8, b: bv8, k: nat)
    requires k < 8
    ensures Bit(a | b, k) <==> Bit(a, k) || Bit(b, k)
  {
    OrShift(a, b, k);
    OrLowest(a >> k, b >> k);
  }

  lemma OrShift(a: bv8, b: bv8, k: nat)
    requires k < 8
    ensures (a | b) >> k == (a >> k) | (b >> k)
  {
  }

  lemma OrLowest(a: bv8, b: bv8)
    ensures (a | b) & 1 == 1 <==> a & 1 == 1 || b & 1 == 1
  {
  }

  lemma AllOnes(b: bv8)
    ensures b == 0xFF <==> forall k: nat | k < 8 :: Bit(b, k)
  {
    if forall k: nat | k < 8 :: Bit(b, k) {
      assert Bit(b, 0) && Bit(b, 1) && Bit(b, 2) && Bit(b, 3);
      assert Bit(b, 4) && Bit(b, 5) && Bit(b, 6) && Bit(b, 7);
    }
  }

  lemma Extensional(a: bv8, b: bv8)
    requires forall k: nat | k < 8 :: Bit(a, k) == Bit(b, k)
    ensures a == b
  {
    assert Bit(a, 0) == Bit(b, 0) && Bit(a, 1) == Bit(b, 1) && Bit(a, 2) == Bit(b, 2) && Bit(a, 3) == Bit(b, 3);
    assert Bit(a, 4) == Bit(b, 4) && Bit(a, 5) == Bit(b, 5) && Bit(a, 6) == Bit(b, 6) && Bit(a, 7) == Bit(b, 7);
  }

  /** The byte positions a mark covers. */
  function Range(start: nat, end: nat): (r: set<nat>)
    ensures forall i: nat :: i in r <==> start <= i < end
    decreases end - start
  {
    if start >= end then {} else {start} + Range(start + 1, end)
  }

  /** Whether the mask `m` has exactly the bits of `got` set. */
  ghost predicate Masks(m: seq<bv8>, got: set<nat>) {
    forall i: nat | i < 8 * |m| :: Bit(m[i / 8], i % 8) <==> i in got
  }

  /** The completeness scan of `dtls1_hm_fragment_mark`, without its early exits. */
  ghost predicate ScanComplete(m: seq<bv8>, msgLen: nat)
    requires |m| == (msgLen + 7) / 8
  {
    && (forall i: nat | i < msgLen / 8 :: m[i] == 0xFF)
    && (msgLen % 8 != 0 ==> m[msgLen / 8] == BitRange(0, msgLen % 8))
  }

  /** The scan succeeds exactly when every byte of the message has been received. */
  lemma ScanIsExact(m: seq<bv8>, got: set<nat>, msgLen: nat)
    requires |m| == (msgLen + 7) / 8 && Masks(m, got)
    requires forall i :: i in got ==> i < msgLen
    ensures ScanComplete(m, msgLen) <==> got == Range(0, msgLen)
  {
    if ScanComplete(m, msgLen) {
      forall i: nat | i < msgLen
        ensures i in got
      {
        assert Bit(m[i / 8], i % 8) <==> i in got;
        if i / 8 < msgLen / 8 {
          AllOnes(m[i / 8]);
        } else {
          BitRangeBits(0, msgLen % 8, i % 8);
        }
      }
    }
    if got == Range(0, msgLen) {
      forall i: nat | i < msgLen / 8
        ensures m[i] == 0xFF
      {
        forall k: nat | k < 8
          ensures Bit(m[i], k)
        {
          assert (8 * i + k) / 8 == i && (8 * i + k) % 8 == k;
          assert 8 * i + k in got;
        }
        AllOnes(m[i]);
      }
      if msgLen % 8 != 0 {
        var last := msgLen / 8;
        forall k: nat | k < 8
          ensures Bit(m[last], k) == Bit(BitRange(0, msgLen % 8), k)
        {
          assert (8 * last + k) / 8 == last && (8 * last + k) % 8 == k;
          assert Bit(m[last], k) <==> 8 * last + k in got;
          BitRangeBits(0, msgLen % 8, k);
        }
        Extensional(m[last], BitRange(0, msgLen % 8));
      }
    }
  }

  class Fragment {
    const typ: nat
    const seqNum: nat
    const msgLen: nat
    /** The message body; the source keeps the 12-byte header in front of it. */
    const data: array<byte>
    /** Null once the message is complete. */
    var reassembly: array?<bv8>
    /** The bytes some mark has covered. */
    ghost var got: set<nat>

    /** The objects the message owns. */
    ghost function Parts(): (s: set<object>)
      reads this
    {
      {this, data} + if reassembly == null then {} else {reassembly}
    }

    ghost predicate Valid()
      reads this, Parts()
    {
      && data.Length == msgLen
      && (reassembly != null ==> reassembly as object != data as object)
      && (forall i :: i in got ==> i < msgLen)
      && (reassembly == null <==> got == Range(0, msgLen))
      && (reassembly != null ==> reassembly.Length == (msgLen + 7) / 8 && Masks(reassembly[..], got))
    }

    /** `dtls1_hm_fragment_new`. */
    constructor (typ: nat, seqNum: nat, msgLen: nat)
      ensures Valid() && got == {} && fresh(Parts())
      ensures this.typ == typ && this.seqNum == seqNum && this.msgLen == msgLen
    {
      this.typ, this.seqNum, this.msgLen := typ, seqNum, msgLen;
      data := new byte[msgLen];
      got := {};
      reassembly := null;
      new;
      if msgLen > 0 {
        reassembly := new bv8[(msgLen + 7) / 8](_ => 0);
        forall i: nat | i < 8 * reassembly.Length
          ensures !Bit(reassembly[..][i / 8], i % 8)
        {
          assert BitRange(0, 0) == 0;
          BitRangeBits(0, 0, i % 8);
        }
        assert 0 in Range(0, msgLen);
      }
    }

    /** `dtls1_hm_fragment_mark`. */
    method Mark(start: nat, end: nat)
      requires Valid() && reassembly != null && start <= end <= msgLen
      modifies this, reassembly
      ensures Valid() && got == old(got) + Range(start, end)
      ensures Parts() <= old(Parts())
    {
      got := got + Range(start, end);
      if start == end {
        return;
      }
      SetBits(reassembly, start, end, old(got));
      ScanIsExact(reassembly[..], got, msgLen);
      var all := Scan(reassembly, msgLen);
      if all {
        reassembly := null;
      }
    }
  }

  /** The mask after `start..end` has been marked: whole bytes in between, part of the
      first and of the last. */
  function Marked(b: bv8, j: nat, start: nat, end: nat): bv8 {
    MarkedFrom(b, j, start / 8, start % 8, end / 8, end % 8)
  }

  /** The same, from bit `k` of byte `i` to bit `k'` of byte `i'`. */
  function MarkedFrom(b: bv8, j: nat, i: nat, k: nat, i': nat, k': nat): bv8
    requires k < 8 && k' < 8
  {
    if j < i || j > i' then b
    else if i == i' then b | BitRange(k, k')
    else if j == i then b | BitRange(k, 8)
    else if j < i' then 0xFF
    else b | BitRange(0, k')
  }

  lemma OrRange(b: bv8, lo: nat, hi: nat, k: nat)
    requires lo <= 8 && hi <= 8 && k < 8
    ensures Bit(b | BitRange(lo, hi), k) <==> Bit(b, k) || lo <= k < hi
  {
    BitRangeBits(lo, hi, k);
    OrBits(b, BitRange(lo, hi), k);
  }

  lemma MarkedBit(b: bv8, j: nat, k: nat, start: nat, end: nat)
    requires k < 8 && start < end
    ensures Bit(Marked(b, j, start, end), k) <==> Bit(b, k) || start <= 8 * j + k < end
  {
    MarkedFromBit(b, j, k, start / 8, start % 8, end / 8, end % 8);
  }

  lemma MarkedFromBit(b: bv8, j: nat, k: nat, i: nat, lo: nat, i': nat, hi: nat)
    requires k < 8 && lo < 8 && hi < 8 && 8 * i + lo < 8 * i' + hi
    ensures Bit(MarkedFrom(b, j, i, lo, i', hi), k) <==> Bit(b, k) || 8 * i + lo <= 8 * j + k < 8 * i' + hi
  {
    if i == i' {
      OrRange(b, lo, hi, k);
    } else if j == i {
      OrRange(b, lo, 8, k);
    } else if j == i' {
      OrRange(b, 0, hi, k);
    } else if i < j < i' {
      AllOnes(0xFF);
    }
  }

  lemma MarkedMasks(m: seq<bv8>, m': seq<bv8>, start: nat, end: nat, got: set<nat>)
    requires start < end && Masks(m, got) && |m'| == |m|
    requires forall j: nat | j < |m| :: m'[j] == Marked(m[j], j, start, end)
    ensures Masks(m', got + Range(start, end))
  {
    forall i: nat | i < 8 * |m'|
      ensures Bit(m'[i / 8], i % 8) <==> i in got + Range(start, end)
    {
      assert Bit(m[i / 8], i % 8) <==> i in got;
      MarkedBit(m[i / 8], i / 8, i % 8, start, end);
    }
  }

  /** The loop that looks for a bit not yet set. */
  method Scan(m: array<bv8>, msgLen: nat) returns (all: bool)
    requires m.Length == (msgLen + 7) / 8
    ensures all == ScanComplete(m[..], msgLen)
  {
    for i := 0 to msgLen / 8
      invariant forall j: nat | j < i :: m[j] == 0xFF
    {
      if m[i] != 0xFF {
        return false;
      }
    }
    all := msgLen % 8 == 0 || m[msgLen / 8] == BitRange(0, msgLen % 8);
  }

  /** The assignments by which `dtls1_hm_fragment_mark` sets bits. */
  method SetBits(m: array<bv8>, start: nat, end: nat, ghost got: set<nat>)
    requires start < end <= 8 * m.Length && Masks(m[..], got)
    modifies m
    ensures Masks(m[..], got + Range(start, end))
  {
    SetFrom(m, start / 8, start % 8, end / 8, end % 8);
    MarkedMasks(old(m[..]), m[..], start, end, got);
  }

  /** The same, from bit `lo` of byte `first` to bit `hi` of byte `last`. */
  method SetFrom(m: array<bv8>, first: nat, lo: nat, last: nat, hi: nat)
    requires lo < 8 && hi < 8 && 8 * first + lo < 8 * last + hi <= 8 * m.Length
    modifies m
    ensures forall j: nat | j < m.Length :: m[j] == MarkedFrom(old(m[j]), j, first, lo, last, hi)
  {
    if first == last {
      m[first] := m[first] | BitRange(lo, hi);
    } else {
      m[first] := m[first] | BitRange(lo, 8);
      for i := first + 1 to last
        invariant forall j: nat | j < m.Length ::
          m[j] == if j < i then MarkedFrom(old(m[j]), j, first, lo, last, hi) else old(m[j])
      {
        m[i] := 0xFF;
      }
      if hi != 0 {
        m[last] := m[last] | BitRange(0, hi);
      } else if last < m.Length {
        EmptyRange(m[last]);
      }
    }
  }

  lemma EmptyRange(b: bv8)
    ensures b | BitRange(0, 0) == b
  {
    assert BitRange(0, 0) == 0;
  }
}
