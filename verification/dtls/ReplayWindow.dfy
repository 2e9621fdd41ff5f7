/**
 Replay protection (section 4.1.2.6 of RFC 6347): a 64-bit map of the record numbers just
 below the highest one received, proved to be a window onto the set of all numbers
 recorded in the epoch.
 */
module ReplayWindow {
  import opened Words

  const WINDOW: nat := 64

  /** Eight bytes as they stand in a record: two of epoch, six of sequence number. */
  type Number = s: seq<byte> | |s| == 8 witness [0, 0, 0, 0, 0, 0, 0, 0]

  /** `to_u64_be`. */
  method ToU64(n: Number) returns (ret: nat)
    ensures ret == BeValue(n) < TWO_64
  {
    ret := 0;
    for i := 0 to 8
      invariant ret == BeValue(n[..i]) < Pow256(i)
    {
      assert n[..i + 1][..i] == n[..i];
      Pow256Small(i);
      SmallMod(ret * 256, TWO_64);
      ret := ret * 256 % TWO_64 + n[i];
    }
    Pow256Small(7);
    assert n[..8] == n;
  }

  lemma Pow256Small(i: nat)
    requires i < 8
    ensures Pow256(i) * 256 <= TWO_64 && Pow256(8) == TWO_64
  {
    assert Pow256(4) == 0x1_0000_0000;
    assert Pow256(8) == TWO_64;
  }

  /** How far below the highest number each recorded one is. */
  ghost function Offsets(recorded: set<nat>, maxSeq: nat): set<nat> {
    set n | n in recorded && n <= maxSeq :: maxSeq - n
  }

  lemma InOffsets(recorded: set<nat>, maxSeq: nat, i: nat)
    ensures i in Offsets(recorded, maxSeq) <==> i <= maxSeq && maxSeq - i in recorded
  {
    if i <= maxSeq && maxSeq - i in recorded {
      assert maxSeq - (maxSeq - i) == i;
    }
  }

  lemma NoOffsets(maxSeq: nat)
    ensures Word(Offsets({}, maxSeq), 0, WINDOW) == 0
  {
    WordTail(Offsets({}, maxSeq), 0, 0, WINDOW);
  }

  /** Raising the highest number moves every offset up. */
  lemma Raise(recorded: set<nat>, maxSeq: nat, n: nat)
    requires n > maxSeq && forall x :: x in recorded ==> x <= maxSeq
    ensures Word(Offsets(recorded, n), 0, WINDOW)
         == if n - maxSeq >= WINDOW then 0
            else ShiftLeft(Word(Offsets(recorded, maxSeq), 0, WINDOW), n - maxSeq, WINDOW)
  {
    var k := n - maxSeq;
    forall i: nat
      ensures i in Offsets(recorded, n) <==> i >= k && i - k in Offsets(recorded, maxSeq)
    {
      InOffsets(recorded, n, i);
      if i >= k {
        InOffsets(recorded, maxSeq, i - k);
      }
    }
    if k < WINDOW {
      ShiftMoves(Offsets(recorded, maxSeq), Offsets(recorded, n), k, WINDOW);
    } else {
      WordTail(Offsets(recorded, n), 0, 0, WINDOW);
    }
  }

  lemma AddOffset(recorded: set<nat>, maxSeq: nat, n: nat)
    requires n <= maxSeq
    ensures Offsets(recorded + {n}, maxSeq) == Offsets(recorded, maxSeq) + {maxSeq - n}
  {
  }

  lemma OffsetsNear(recorded: set<nat>, maxSeq: nat, n: nat)
    requires n <= maxSeq && maxSeq - n >= WINDOW
    ensures Word(Offsets(recorded + {n}, maxSeq), 0, WINDOW) == Word(Offsets(recorded, maxSeq), 0, WINDOW)
  {
    AddOffset(recorded, maxSeq, n);
    WordOutside(Offsets(recorded, maxSeq), maxSeq - n, 0, WINDOW);
  }

  /** `DTLS1_BITMAP`. */
  class Window {
    var bits: nat
    var maxSeq: nat
    /** Every number recorded since the window was last cleared. */
    ghost var recorded: set<nat>

    /** Bit `i` of the map says whether `maxSeq - i` was recorded. */
    ghost predicate Valid()
      reads this
    {
      && bits == Word(Offsets(recorded, maxSeq), 0, WINDOW)
      && (forall n :: n in recorded ==> n <= maxSeq)
    }

    constructor ()
      ensures Valid() && recorded == {} && maxSeq == 0
    {
      bits, maxSeq, recorded := 0, 0, {};
      NoOffsets(0);
    }

    method Reset()
      modifies this
      ensures Valid() && recorded == {} && maxSeq == 0
    {
      bits, maxSeq, recorded := 0, 0, {};
      NoOffsets(0);
    }

    /** `dtls1_bitmap_should_discard`. */
    method ShouldDiscard(n: Number) returns (discard: bool)
      requires Valid()
      ensures discard <==> BeValue(n) in recorded || BeValue(n) + WINDOW <= maxSeq
    {
      var num := ToU64(n);
      if num > maxSeq {
        return false;
      }
      var idx := maxSeq - num;
      if idx >= WINDOW {
        return true;
      }
      BitTest(Offsets(recorded, maxSeq), 0, idx, WINDOW);
      InOffsets(recorded, maxSeq, idx);
      discard := bits / Pow2(idx) % 2 == 1;
    }

    /** `dtls1_bitmap_record`. */
    method Record(n: Number)
      requires Valid()
      modifies this
      ensures Valid() && recorded == old(recorded) + {BeValue(n)}
      ensures maxSeq == if BeValue(n) > old(maxSeq) then BeValue(n) else old(maxSeq)
    {
      var num := ToU64(n);
      if num > maxSeq {
        var shift := num - maxSeq;
        Raise(recorded, maxSeq, num);
        bits := if shift >= WINDOW then 0 else ShiftLeft(bits, shift, WINDOW);
        maxSeq := num;
      }
      var idx := maxSeq - num;
      AddOffset(recorded, maxSeq, num);
      if idx < WINDOW {
        SetBit(Offsets(recorded, maxSeq), 0, idx, WINDOW);
        bits := OrBit(bits, idx);
      } else {
        OffsetsNear(recorded, maxSeq, num);
      }
      recorded := recorded + {num};
    }
  }
}
