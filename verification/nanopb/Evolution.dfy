/**
 Descriptors that grow.  A reader skips every field that it does not list and a writer may
 send, whatever its type, and so reads a newer writer's message as it would have read an
 older one's.
 */
module Evolution {
  import opened Words
  import opened Wrappers
  import opened Wire
  import opened Message
  import opened Encode
  import opened Decode
  import opened Composition
  import opened RoundTrip

  // ---------- what is skipped ----------

  lemma {:induction false} SkipsVarint(v: nat, t: seq<byte>)
    ensures SkipVarint(EncVarint(v) + t) == Done((), t)
    decreases v
  {
    var s := EncVarint(v) + t;
    if v < 128 {
      assert s[1..] == t;
    } else {
      assert s[1..] == EncVarint(v / 128) + t;
      SkipsVarint(v / 128, t);
    }
  }

  lemma SkipsFixed(n: nat, k: nat, t: seq<byte>)
    ensures SkipBytes(EncFixed(n, k) + t, k) == Done((), t)
  {
    assert (EncFixed(n, k) + t)[k..] == t;
  }

  /** A payload is skipped to its last byte, whatever the type. */
  lemma SkipsValue(f: Field, v: Value, t: seq<byte>)
    requires EncValue(f, v).Some? && |EncValue(f, v).value| < TWO_32
    ensures SkipField(WireType(f.ltype), EncValue(f, v).value + t) == Done((), t)
  {
    if f.ltype.Fixed32? {
      SkipsFixed(ToU64(v.n), 4, t);
    } else if f.ltype.Fixed64? {
      SkipsFixed(ToU64(v.n), 8, t);
    } else if Packable(f.ltype) {
      SkipsVarint(NumToU64(f.ltype, v.n), t);
    } else {
      var body := Body(f, v);
      LenPrefixedRoundTrip(body, t);
    }
  }

  /** What a length-prefixed payload carries. */
  function Body(f: Field, v: Value): seq<byte>
    requires EncValue(f, v).Some? && !Packable(f.ltype)
    ensures EncValue(f, v) == Some(LenPrefixed(Body(f, v)))
  {
    if f.ltype.Submessage? then EncFields(f.ltype.fields, v.slots, 0).value
    else if f.ltype.String? then v.chars
    else v.bytes
  }

  // ---------- fields the reader does not list ----------

  predicate Lists(fs: seq<Field>, tag: nat) {
    exists i :: 0 <= i < |fs| && fs[i].tag == tag
  }

  lemma ForeignStep(fs: seq<Field>, tag: nat, wt: nat, s: seq<byte>, t: seq<byte>, dest: Msg, seen: set<nat>)
    requires 0 < tag < 0x2000_0000 && wt < 8 && !Lists(fs, tag)
    requires SkipField(wt, s) == Done((), t)
    ensures DecLoop(fs, EncTag(wt, tag) + s, dest, seen) == DecLoop(fs, t, dest, seen)
  {
    TagRoundTrip(wt, tag, s);
    assert Find(fs, tag) == |fs|;
  }

  lemma ForeignTagged(fs: seq<Field>, f: Field, v: Value, dest: Msg, seen: set<nat>, t: seq<byte>)
    requires WfField(f) && !Lists(fs, f.tag)
    requires EncTagged(f, v).Some? && |EncTagged(f, v).value| < TWO_32
    ensures DecLoop(fs, EncTagged(f, v).value + t, dest, seen) == DecLoop(fs, t, dest, seen)
  {
    var tag, payload := EncTag(WireType(f.ltype), f.tag), EncValue(f, v).value;
    assert EncTagged(f, v).value + t == tag + (payload + t);
    SkipsValue(f, v, t);
    ForeignStep(fs, f.tag, WireType(f.ltype), payload + t, t, dest, seen);
  }

  lemma {:induction false} ForeignItems(
      fs: seq<Field>, f: Field, items: seq<Value>, dest: Msg, seen: set<nat>, t: seq<byte>)
    requires WfField(f) && !Lists(fs, f.tag)
    requires EncItems(f, items, false).Some? && |EncItems(f, items, false).value| < TWO_32
    ensures DecLoop(fs, EncItems(f, items, false).value + t, dest, seen) == DecLoop(fs, t, dest, seen)
    decreases |items|
  {
    if items == [] {
      assert [] + t == t;
    } else {
      var first, others := EncTagged(f, items[0]).value, EncItems(f, items[1..], false).value;
      assert EncItems(f, items, false).value + t == first + (others + t);
      ForeignTagged(fs, f, items[0], dest, seen, others + t);
      ForeignItems(fs, f, items[1..], dest, seen, t);
    }
  }

  lemma ForeignPacked(fs: seq<Field>, f: Field, body: seq<byte>, dest: Msg, seen: set<nat>, t: seq<byte>)
    requires WfField(f) && !Lists(fs, f.tag) && |body| < TWO_32
    ensures DecLoop(fs, EncTag(WT_STRING, f.tag) + LenPrefixed(body) + t, dest, seen) == DecLoop(fs, t, dest, seen)
  {
    var tag := EncTag(WT_STRING, f.tag);
    assert tag + LenPrefixed(body) + t == tag + (LenPrefixed(body) + t);
    LenPrefixedRoundTrip(body, t);
    ForeignStep(fs, f.tag, WT_STRING, LenPrefixed(body) + t, t, dest, seen);
  }

  /** Everything the encoder may write for a field the reader does not list is skipped:
      numbers of every wire type, strings, submessages and arrays, packed or not. */
  lemma ForeignFieldIsSkipped(fs: seq<Field>, f: Field, slot: Slot, dest: Msg, seen: set<nat>, t: seq<byte>)
    requires WfField(f) && !Lists(fs, f.tag)
    requires EncField(f, slot).Some? && |EncField(f, slot).value| < TWO_32
    ensures DecLoop(fs, EncField(f, slot).value + t, dest, seen) == DecLoop(fs, t, dest, seen)
  {
    if !Emits(f, slot) {
      assert [] + t == t;
    } else if !f.htype.Repeated? {
      ForeignTagged(fs, f, slot.v, dest, seen, t);
    } else if Packable(f.ltype) {
      ForeignPacked(fs, f, EncItems(f, slot.items, true).value, dest, seen, t);
    } else {
      ForeignItems(fs, f, slot.items, dest, seen, t);
    }
  }

  // ---------- a newer writer ----------

  lemma {:induction false} SameLayout(fs: seq<Field>, extra: seq<Field>, i: nat)
    requires i < |fs|
    ensures SlotIndex(fs + extra, i) == SlotIndex(fs, i)
    decreases i
  {
    if i > 0 {
      SameLayout(fs, extra, i - 1);
    }
  }

  /** The newer descriptor writes what the older one does, and the additional fields after
      it. */
  lemma {:induction false} WrittenFirst(fs: seq<Field>, extra: seq<Field>, m: Msg, i: nat)
    requires i <= |fs| && EncFields(fs + extra, m, i).Some?
    ensures EncFields(fs, m, i).Some? && EncFields(fs + extra, m, |fs|).Some?
    ensures EncFields(fs + extra, m, i).value == EncFields(fs, m, i).value + EncFields(fs + extra, m, |fs|).value
    decreases |fs| - i
  {
    if i < |fs| {
      SameLayout(fs, extra, i);
      WrittenFirst(fs, extra, m, i + 1);
    }
  }

  /** A whole message and whatever follows it. */
  lemma {:induction false} FieldsFollowed(fs: seq<Field>, m: Msg, i: nat, t: seq<byte>)
    requires WfFields(fs) && i <= |fs|
    requires EncFields(fs, m, i).Some? && |EncFields(fs, m, i).value| < TWO_32
    ensures DecLoop(fs, EncFields(fs, m, i).value + t, After(fs, m, i), RequiredPositions(fs, i))
         == if FieldsReadable(fs, m, i) then DecLoop(fs, t, Canon(fs, m), RequiredPositions(fs, |fs|)) else Failed
    decreases |fs| - i
  {
    if i == |fs| {
      assert [] + t == t;
    } else {
      var first, others := EncField(fs[i], m[SlotIndex(fs, i)]).value, EncFields(fs, m, i + 1).value;
      assert EncFields(fs, m, i).value + t == first + (others + t);
      FieldsStep(fs, m, i, others + t);
      FieldsFollowed(fs, m, i + 1, t);
    }
  }

  lemma {:induction false} ExtrasSkipped(fs: seq<Field>, all: seq<Field>, m: Msg, i: nat, dest: Msg, seen: set<nat>)
    requires WfFields(all) && i <= |all| && forall k :: i <= k < |all| ==> !Lists(fs, all[k].tag)
    requires EncFields(all, m, i).Some? && |EncFields(all, m, i).value| < TWO_32
    ensures DecLoop(fs, EncFields(all, m, i).value, dest, seen) == DecLoop(fs, [], dest, seen)
    decreases |all| - i
  {
    if i < |all| {
      ForeignFieldIsSkipped(fs, all[i], m[SlotIndex(all, i)], dest, seen, EncFields(all, m, i + 1).value);
      ExtrasSkipped(fs, all, m, i + 1, dest, seen);
    }
  }

  lemma WfPrefix(fs: seq<Field>, extra: seq<Field>)
    requires WfFields(fs + extra)
    ensures WfFields(fs)
    ensures forall k :: |fs| <= k < |fs + extra| ==> !Lists(fs, (fs + extra)[k].tag)
  {
    var all := fs + extra;
    forall k | 0 <= k < |fs|
      ensures fs[k] == all[k] && WfField(fs[k])
    {
    }
    forall k | |fs| <= k < |all|
      ensures !Lists(fs, all[k].tag)
    {
      assert forall j :: 0 <= j < |fs| ==> all[j] == fs[j] && all[j].tag != all[k].tag;
    }
  }

  /** A reader with the older descriptor makes of a newer writer's message what it would have
      made of the message without the additional fields. */
  lemma NewerWriter(fs: seq<Field>, extra: seq<Field>, m: Msg)
    requires WfFields(fs + extra)
    requires EncMessage(fs + extra, m).Some? && |EncMessage(fs + extra, m).value| < TWO_32
    ensures EncMessage(fs, m).Some?
    ensures DecodeMessage(fs, EncMessage(fs + extra, m).value) == DecodeMessage(fs, EncMessage(fs, m).value)
  {
    WfPrefix(fs, extra);
    WrittenFirst(fs, extra, m, 0);
    var later := EncFields(fs + extra, m, |fs|).value;
    FieldsFollowed(fs, m, 0, later);
    FieldsRoundTrip(fs, m, 0);
    if FieldsReadable(fs, m, 0) {
      ExtrasSkipped(fs, fs + extra, m, |fs|, Canon(fs, m), RequiredPositions(fs, |fs|));
    }
  }
}
