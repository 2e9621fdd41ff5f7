/**
 Decoding is compositional: a successful read never looks past what it consumes, so
 field sequences can be decoded one after the other, and unknown fields are inert.
 */
module Composition {
  import opened Words
  import opened Wire
  import opened Message
  import opened Encode
  import opened Decode

  // ---------- a successful read does not depend on what follows ----------

  lemma {:induction false} SkipVarintExtend(s: seq<byte>, t: seq<byte>)
    requires SkipVarint(s).Done?
    ensures SkipVarint(s + t) == SkipVarint(s).Followed(t)
  {
    assert (s + t)[1..] == s[1..] + t;
    if s[0] >= 128 {
      SkipVarintExtend(s[1..], t);
    }
  }

  lemma SubstreamExtend(s: seq<byte>, t: seq<byte>)
    requires Substream(s).Done?
    ensures Substream(s + t) == Substream(s).Followed(t)
  {
    DecVarintFromExtend(s, t, 0, 0, 32);
    var size, rest := DecVarint(s, 32).value, DecVarint(s, 32).rest;
    assert (rest + t)[..size] == rest[..size];
    assert (rest + t)[size..] == rest[size..] + t;
  }

  lemma SkipFieldExtend(wt: nat, s: seq<byte>, t: seq<byte>)
    requires SkipField(wt, s).Done?
    ensures SkipField(wt, s + t) == SkipField(wt, s).Followed(t)
  {
    if wt == WT_VARINT {
      SkipVarintExtend(s, t);
    } else if wt == WT_STRING {
      SubstreamExtend(s, t);
    } else {
      var n := if wt == WT_64BIT then 8 else 4;
      assert (s + t)[n..] == s[n..] + t;
    }
  }

  lemma DecScalarExtend(f: Field, s: seq<byte>, t: seq<byte>)
    requires DecScalar(f, s).Done?
    ensures DecScalar(f, s + t) == DecScalar(f, s).Followed(t)
  {
    if f.ltype.Fixed32? || f.ltype.Fixed64? {
      var n := if f.ltype.Fixed32? then 4 else 8;
      assert (s + t)[..n] == s[..n];
      assert (s + t)[n..] == s[n..] + t;
    } else {
      DecVarintFromExtend(s, t, 0, 0, 64);
    }
  }

  lemma DecFixedLengthExtend(f: Field, s: seq<byte>, t: seq<byte>)
    requires DecFixedLength(f, s).Done?
    ensures DecFixedLength(f, s + t) == DecFixedLength(f, s).Followed(t)
  {
    DecVarintFromExtend(s, t, 0, 0, 32);
    var size, rest := DecVarint(s, 32).value, DecVarint(s, 32).rest;
    if size != 0 {
      assert (rest + t)[..size] == rest[..size];
      assert (rest + t)[size..] == rest[size..] + t;
    }
  }

  lemma DecValueExtend(f: Field, s: seq<byte>, cur: Value, t: seq<byte>)
    requires DecValue(f, s, cur).Done?
    ensures DecValue(f, s + t, cur) == DecValue(f, s, cur).Followed(t)
  {
    if Packable(f.ltype) {
      DecScalarExtend(f, s, t);
    } else if f.ltype.FixedLengthBytes? {
      DecFixedLengthExtend(f, s, t);
    } else {
      SubstreamExtend(s, t);
    }
  }

  lemma DecFieldExtend(f: Field, wt: nat, s: seq<byte>, slot: Slot, t: seq<byte>)
    requires DecField(f, wt, s, slot).Done?
    ensures DecField(f, wt, s + t, slot) == DecField(f, wt, s, slot).Followed(t)
  {
    if IsPacked(f, wt) {
      SubstreamExtend(s, t);
    } else {
      DecValueExtend(f, s, Target(f, slot), t);
    }
  }

  // ---------- field sequences compose ----------

  /** The set of fields seen only accumulates; it never steers the loop. */
  lemma {:induction false} SeenAccumulates(fs: seq<Field>, s: seq<byte>, dest: Msg, seen: set<nat>, more: set<nat>)
    ensures var r, r' := DecLoop(fs, s, dest, seen), DecLoop(fs, s, dest, seen + more);
            r' == if r.Done? then Done(r.value.(seen := r.value.seen + more), r.rest) else Failed
    decreases |s|
  {
    if s != [] && DecTag(s).Tag? {
      var Tag(wt, tag, rest) := DecTag(s);
      var i := Find(fs, tag);
      if i == |fs| {
        if !(fs == [] && tag == 0) && SkipField(wt, rest).Done? {
          SeenAccumulates(fs, SkipField(wt, rest).rest, dest, seen, more);
        }
      } else {
        var r := DecField(fs[i], wt, rest, SlotAt(fs, dest, i));
        if r.Done? {
          assert Seen(fs, seen + more, i) == Seen(fs, seen, i) + more;
          SeenAccumulates(fs, r.rest, Put(fs, dest, i, r.value), Seen(fs, seen, i), more);
        }
      }
    }
  }

  /** Decoding a complete field sequence and then whatever follows it is decoding the
      two in turn into the same struct. */
  lemma {:induction false} DecodeConcat(fs: seq<Field>, a: seq<byte>, b: seq<byte>, dest: Msg, seen: set<nat>)
    requires DecLoop(fs, a, dest, seen).Done? && DecLoop(fs, a, dest, seen).value.clean
    ensures var p := DecLoop(fs, a, dest, seen).value;
            DecLoop(fs, a + b, dest, seen) == DecLoop(fs, b, p.dest, p.seen)
    ensures DecLoop(fs, a, dest, seen).rest == []
    decreases |a|
  {
    if a == [] {
      assert a + b == b;
    } else {
      var Tag(wt, tag, rest) := DecTag(a);
      DecVarintFromExtend(a, b, 0, 0, 32);
      var i := Find(fs, tag);
      if i == |fs| {
        SkipFieldExtend(wt, rest, b);
        DecodeConcat(fs, SkipField(wt, rest).rest, b, dest, seen);
      } else {
        DecFieldExtend(fs[i], wt, rest, SlotAt(fs, dest, i), b);
        var r := DecField(fs[i], wt, rest, SlotAt(fs, dest, i));
        DecodeConcat(fs, r.rest, b, Put(fs, dest, i, r.value), Seen(fs, seen, i));
      }
    }
  }

  /** One complete field the descriptor does not list: a tag, and a payload that its
      wire type skips to the end. */
  predicate UnknownField(fs: seq<Field>, u: seq<byte>) {
    && u != []
    && DecTag(u).Tag?
    && Find(fs, DecTag(u).tag) == |fs|
    && !(fs == [] && DecTag(u).tag == 0)
    && SkipField(DecTag(u).wt, DecTag(u).rest) == Done((), [])
  }

  lemma UnknownFieldAlone(fs: seq<Field>, u: seq<byte>, dest: Msg, seen: set<nat>)
    requires UnknownField(fs, u)
    ensures DecLoop(fs, u, dest, seen) == Done(Progress(dest, seen, true), [])
  {
  }

  lemma UnknownFieldFirst(fs: seq<Field>, u: seq<byte>, b: seq<byte>, dest: Msg, seen: set<nat>)
    requires UnknownField(fs, u)
    ensures DecLoop(fs, u + b, dest, seen) == DecLoop(fs, b, dest, seen)
  {
    UnknownFieldAlone(fs, u, dest, seen);
    DecodeConcat(fs, u, b, dest, seen);
  }

  /** An unknown field at a field boundary changes nothing: not the outcome, not the
      struct, not the required fields seen, not what is left unread. */
  lemma UnknownFieldIsInert(fs: seq<Field>, a: seq<byte>, u: seq<byte>, b: seq<byte>, dest: Msg, seen: set<nat>)
    requires DecLoop(fs, a, dest, seen).Done? && DecLoop(fs, a, dest, seen).value.clean
    requires UnknownField(fs, u)
    ensures DecLoop(fs, a + (u + b), dest, seen) == DecLoop(fs, a + b, dest, seen)
  {
    var p := DecLoop(fs, a, dest, seen).value;
    UnknownFieldFirst(fs, u, b, p.dest, p.seen);
    DecodeConcat(fs, a, b, dest, seen);
    DecodeConcat(fs, a, u + b, dest, seen);
  }

  // ---------- a tag that is cut short ----------

  lemma {:induction false} NeverEnds(s: seq<byte>, k: nat, acc: nat)
    requires k <= 5 && forall i :: 0 <= i < |s| ==> s[i] >= 128
    ensures DecVarintFrom(s, 7 * k, acc, 32) == Stuck(if |s| + k <= 5 then [] else s[5 - k..])
    decreases |s|
  {
    if s != [] && k < 5 {
      NeverEnds(s[1..], k + 1, acc + ShiftLeft(s[0] % 128, 7 * k, 32));
    }
  }

  /** A last tag without its final byte ends the message as if it were not there, as long
      as it has at most five bytes; a longer one is an error. */
  lemma TruncatedTagEnds(fs: seq<Field>, s: seq<byte>, dest: Msg, seen: set<nat>)
    requires s != [] && forall i :: 0 <= i < |s| ==> s[i] >= 128
    ensures DecLoop(fs, s, dest, seen) == if |s| <= 5 then Done(Progress(dest, seen, false), []) else Failed
  {
    NeverEnds(s, 0, 0);
  }
}
