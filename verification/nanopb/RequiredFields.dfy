/**
 How `pb_decode_noinit` remembers which required fields it has seen: one bit a field,
 numbered among the required fields only, in two 32-bit words.

 The final comparison shifts a word right by `32 - (count & 31)`.  For a count that is a
 multiple of 32 that is a shift by the word's own width, which C leaves undefined.
 */
module RequiredFields {
  import opened Words
  import opened Message
  import opened Decode

  const ALL_BITS: nat := TWO_32 - 1

  /** `w >> n` on 32 bits. */
  function ShiftRight(w: nat, n: nat): int {
    if n >= 32 then SHIFT_BY_32 else w / Pow2(n)
  }

  lemma AllBitsShifted(k: nat)
    requires k <= 32
    ensures ALL_BITS / Pow2(32 - k) == Pow2(k) - 1
  {
    var p, q := Pow2(32 - k), Pow2(k);
    assert q * p == TWO_32 by {
      Pow2Widths();
      Pow2Add(k, 32 - k);
    }
    assert q * p == (q - 1) * p + p by {
      MulDist(q - 1, 1, p);
    }
    ModUnique(ALL_BITS, p, q - 1, p - 1);
  }

  ghost predicate Tracks(words: seq<nat>, s: set<nat>) {
    |words| == 2 && words[0] == Word(s, 0, 32) && words[1] == Word(s, 32, 32)
  }

  lemma Empty()
    ensures Tracks([0, 0], {})
  {
    WordTail({}, 0, 0, 32);
    WordTail({}, 32, 0, 32);
  }

  /** Records required field number `index`. */
  method Mark(seen: array<nat>, index: nat, ghost s: set<nat>)
    requires index < 64 && Tracks(seen[..], s)
    modifies seen
    ensures Tracks(seen[..], s + {index})
  {
    var tmp := index % 32;
    SetBit(s, 32 * (index / 32), tmp, 32);
    WordOutside(s, index, 32 - 32 * (index / 32), 32);
    seen[index / 32] := OrBit(seen[index / 32], tmp);
  }

  /** The final check.  It is exact for every count below 64 except 32, where it accepts a
      complete message only if the undefined shift happens to yield 0. */
  method Complete(seen: array<nat>, count: nat, ghost s: set<nat>) returns (ok: bool)
    requires count < 64 && Tracks(seen[..], s) && forall i :: i in s ==> i < count
    ensures ok <==> (forall i :: 0 <= i < count ==> i in s) && (count == 32 ==> SHIFT_BY_32 == 0)
  {
    if count == 0 {
      return true;
    }
    var k := count % 32;
    WordFull(s, 0, 32);
    Pow2Widths();
    AllBitsShifted(k);
    for i := 0 to count / 32
      invariant i > 0 ==> forall j :: 0 <= j < 32 ==> j in s
    {
      if seen[i] != ALL_BITS {
        return false;
      }
    }
    WordTail(s, 32 * (count / 32), k, 32);
    WordFull(s, 32 * (count / 32), k);
    assert count / 32 == 1 && k == 0 ==> seen[1] == 0;
    return seen[count / 32] == ShiftRight(ALL_BITS, 32 - k);
  }

  // ---------- required field numbers ----------

  lemma {:induction false} RequiredBeforeMonotone(fs: seq<Field>, i: nat, j: nat)
    requires i <= j <= |fs|
    ensures RequiredBefore(fs, i) <= RequiredBefore(fs, j)
    ensures i < j && fs[i].htype.Required? ==> RequiredBefore(fs, i) < RequiredBefore(fs, j)
    decreases j
  {
    if i < j {
      RequiredBeforeMonotone(fs, i, j - 1);
    }
  }

  lemma {:induction false} RequiredNumber(fs: seq<Field>, n: nat, r: nat) returns (i: nat)
    requires n <= |fs| && r < RequiredBefore(fs, n)
    ensures i < n && fs[i].htype.Required? && RequiredBefore(fs, i) == r
    decreases n
  {
    if fs[n - 1].htype.Required? && RequiredBefore(fs, n - 1) == r {
      i := n - 1;
    } else {
      i := RequiredNumber(fs, n - 1, r);
    }
  }

  /** The bit numbers of a set of field positions. */
  ghost function Numbers(fs: seq<Field>, seen: set<nat>): set<nat> {
    set i | i in seen && i < |fs| :: RequiredBefore(fs, i)
  }

  /** Numbering the required fields loses nothing: every bit is set exactly when every
      required field's position was seen. */
  lemma NumbersComplete(fs: seq<Field>, seen: set<nat>)
    requires forall i :: i in seen ==> i < |fs| && fs[i].htype.Required?
    ensures forall r :: r in Numbers(fs, seen) ==> r < RequiredCount(fs)
    ensures (forall r :: 0 <= r < RequiredCount(fs) ==> r in Numbers(fs, seen))
       <==> (forall i :: 0 <= i < |fs| && fs[i].htype.Required? ==> i in seen)
  {
    forall i | i in seen
      ensures RequiredBefore(fs, i) < RequiredCount(fs)
    {
      RequiredBeforeMonotone(fs, i, |fs|);
    }
    if forall r :: 0 <= r < RequiredCount(fs) ==> r in Numbers(fs, seen) {
      forall i | 0 <= i < |fs| && fs[i].htype.Required?
        ensures i in seen
      {
        RequiredBeforeMonotone(fs, i, |fs|);
        assert RequiredBefore(fs, i) in Numbers(fs, seen);
        var j :| j in seen && j < |fs| && RequiredBefore(fs, j) == RequiredBefore(fs, i);
        RequiredBeforeMonotone(fs, if i < j then i else j, if i < j then j else i);
      }
    }
    if forall i :: 0 <= i < |fs| && fs[i].htype.Required? ==> i in seen {
      forall r | 0 <= r < RequiredCount(fs)
        ensures r in Numbers(fs, seen)
      {
        var i := RequiredNumber(fs, |fs|, r);
        assert i in seen;
      }
    }
  }
}
