/**
 What a field that occurs more than once on the wire leaves behind, in terms of the bytes.
 Of a submessage outside arrays and unions the occurrences merge, as if their payloads had
 been sent as one; a new array entry and a union member start from the defaults; a number,
 byte string or text is replaced by its last occurrence; and packed entries append.
 */
module Merging {
  import opened Words
  import opened Wrappers
  import opened Wire
  import opened Message
  import opened Encode
  import opened Decode
  import opened Composition
  import opened RoundTrip

  /** One occurrence of a length-prefixed field. */
  function Occurrence(f: Field, payload: seq<byte>): seq<byte> {
    EncTag(WT_STRING, f.tag) + LenPrefixed(payload)
  }

  /** A field loop that ran to the end of its input. */
  predicate Clean(r: Decoded<Progress>) {
    r.Done? && r.value.clean
  }

  lemma OccurrenceStep(fs: seq<Field>, i: nat, payload: seq<byte>, dest: Msg, seen: set<nat>, t: seq<byte>)
    requires WfFields(fs) && i < |fs|
    ensures var r := DecField(fs[i], WT_STRING, LenPrefixed(payload) + t, SlotAt(fs, dest, i));
            DecLoop(fs, Occurrence(fs[i], payload) + t, dest, seen)
            == if r.Done? then DecLoop(fs, r.rest, Put(fs, dest, i, r.value), Seen(fs, seen, i)) else Failed
  {
    assert Occurrence(fs[i], payload) + t == EncTag(WT_STRING, fs[i].tag) + (LenPrefixed(payload) + t);
    LoopStep(fs, i, WT_STRING, LenPrefixed(payload) + t, dest, seen);
  }

  // ---------- submessages that merge ----------

  /** A field that holds one submessage for as long as its struct lives. */
  predicate HoldsOne(f: Field) {
    f.ltype.Submessage? && (f.htype.Required? || f.htype.Optional? || f.htype.Singular?)
  }

  /** What is in such a field, whether or not an optional one is flagged as there. */
  function Inner(fs: seq<Field>, m: Msg, i: nat): Msg
    requires i < |fs|
  {
    match SlotAt(fs, m, i)
    case One(v) => if v.Struct? then v.slots else []
    case Maybe(_, v) => if v.Struct? then v.slots else []
    case _ => []
  }

  /** `m` with that submessage replaced, and flagged. */
  function WithInner(fs: seq<Field>, m: Msg, i: nat, inner: Msg): Msg
    requires i < |fs|
  {
    Put(fs, m, i, if fs[i].htype.Optional? then Maybe(true, Struct(inner)) else One(Struct(inner)))
  }

  /** The submessage is decoded into what is already there. */
  lemma SubmessageStep(fs: seq<Field>, i: nat, payload: seq<byte>, dest: Msg, seen: set<nat>, t: seq<byte>)
    requires WfFields(fs) && MessageOk(fs, dest) && i < |fs| && HoldsOne(fs[i]) && |payload| < TWO_32
    ensures var r := DecMessage(fs[i].ltype.fields, payload, Inner(fs, dest, i));
            DecLoop(fs, Occurrence(fs[i], payload) + t, dest, seen)
            == if r.Done? then DecLoop(fs, t, WithInner(fs, dest, i, r.value), Seen(fs, seen, i)) else Failed
  {
    OccurrenceStep(fs, i, payload, dest, seen, t);
    LenPrefixedRoundTrip(payload, t);
    assert SlotOk(fs[i], SlotAt(fs, dest, i));
  }

  lemma InnerIsPut(fs: seq<Field>, dest: Msg, i: nat, inner: Msg, more: Msg)
    requires WfFields(fs) && MessageOk(fs, dest) && i < |fs| && HoldsOne(fs[i])
    requires MessageOk(fs[i].ltype.fields, inner)
    ensures MessageOk(fs, WithInner(fs, dest, i, inner))
    ensures Inner(fs, WithInner(fs, dest, i, inner), i) == inner
    ensures WithInner(fs, WithInner(fs, dest, i, inner), i, more) == WithInner(fs, dest, i, more)
  {
    var slot := if fs[i].htype.Optional? then Maybe(true, Struct(inner)) else One(Struct(inner));
    var slot' := if fs[i].htype.Optional? then Maybe(true, Struct(more)) else One(Struct(more));
    assert ValueOk(fs[i], Struct(inner));
    PutOk(fs, dest, i, slot);
    PutAt(fs, dest, i, slot, slot');
  }

  /** Two payloads in turn, each with all of its required fields, are one. */
  lemma PayloadsJoin(fs: seq<Field>, a: seq<byte>, b: seq<byte>, dest: Msg)
    requires DecMessage(fs, a, dest).Done? && DecLoop(fs, a, dest, {}).value.clean
    requires DecMessage(fs, b, DecMessage(fs, a, dest).value).Done?
    ensures DecMessage(fs, a + b, dest) == DecMessage(fs, b, DecMessage(fs, a, dest).value)
  {
    var p := DecLoop(fs, a, dest, {}).value;
    DecodeConcat(fs, a, b, dest, {});
    SeenAccumulates(fs, b, p.dest, {}, p.seen);
    assert {} + p.seen == p.seen;
  }

  /** Two occurrences of a submessage merge.  When the first payload ends cleanly, they are
      accepted exactly when either is accepted in its turn, with all required fields of its
      own, and then leave what one occurrence with both payloads leaves. */
  lemma OccurrencesMerge(fs: seq<Field>, i: nat, a: seq<byte>, b: seq<byte>, dest: Msg, seen: set<nat>, t: seq<byte>)
    requires WfFields(fs) && MessageOk(fs, dest) && i < |fs| && HoldsOne(fs[i]) && |a| + |b| < TWO_32
    requires Clean(DecLoop(fs[i].ltype.fields, a, Inner(fs, dest, i), {}))
    ensures var first := DecMessage(fs[i].ltype.fields, a, Inner(fs, dest, i));
            DecLoop(fs, Occurrence(fs[i], a) + (Occurrence(fs[i], b) + t), dest, seen)
            == if first.Done? && DecMessage(fs[i].ltype.fields, b, first.value).Done?
               then DecLoop(fs, Occurrence(fs[i], a + b) + t, dest, seen)
               else Failed
  {
    var sub, inner := fs[i].ltype.fields, Inner(fs, dest, i);
    var first := DecMessage(sub, a, inner);
    SubmessageStep(fs, i, a, dest, seen, Occurrence(fs[i], b) + t);
    if first.Done? {
      InnerOk(fs, dest, i);
      DecMessageFits(sub, a, inner);
      var second := DecMessage(sub, b, first.value);
      InnerIsPut(fs, dest, i, first.value, if second.Done? then second.value else []);
      SubmessageStep(fs, i, b, WithInner(fs, dest, i, first.value), Seen(fs, seen, i), t);
      if second.Done? {
        PayloadsJoin(sub, a, b, inner);
        SubmessageStep(fs, i, a + b, dest, seen, t);
        assert Seen(fs, Seen(fs, seen, i), i) == Seen(fs, seen, i);
      }
    }
  }

  lemma InnerOk(fs: seq<Field>, dest: Msg, i: nat)
    requires WfFields(fs) && MessageOk(fs, dest) && i < |fs| && HoldsOne(fs[i])
    ensures WfFields(fs[i].ltype.fields) && MessageOk(fs[i].ltype.fields, Inner(fs, dest, i))
  {
    assert SlotOk(fs[i], SlotAt(fs, dest, i)) && WfField(fs[i]);
  }

  /** In a whole message: sending a submessage in two parts, one after the other, decodes to
      what sending it at once does. */
  lemma SubmessageInParts(fs: seq<Field>, before: seq<byte>, i: nat, a: seq<byte>, b: seq<byte>, t: seq<byte>)
    requires WfFields(fs) && i < |fs| && HoldsOne(fs[i]) && |a| + |b| < TWO_32
    requires Clean(DecLoop(fs, before, Defaults(fs), {}))
    requires var inner := Inner(fs, DecLoop(fs, before, Defaults(fs), {}).value.dest, i);
             var first := DecMessage(fs[i].ltype.fields, a, inner);
             && Clean(DecLoop(fs[i].ltype.fields, a, inner, {}))
             && first.Done? && DecMessage(fs[i].ltype.fields, b, first.value).Done?
    ensures DecodeMessage(fs, before + (Occurrence(fs[i], a) + (Occurrence(fs[i], b) + t)))
         == DecodeMessage(fs, before + (Occurrence(fs[i], a + b) + t))
  {
    var p := DecLoop(fs, before, Defaults(fs), {}).value;
    DefaultsOk(fs);
    DecLoopFits(fs, before, Defaults(fs), {});
    DecodeConcat(fs, before, Occurrence(fs[i], a) + (Occurrence(fs[i], b) + t), Defaults(fs), {});
    DecodeConcat(fs, before, Occurrence(fs[i], a + b) + t, Defaults(fs), {});
    OccurrencesMerge(fs, i, a, b, p.dest, p.seen, t);
  }

  // ---------- submessages that start afresh ----------

  lemma EntryRead(f: Field, payload: seq<byte>, items: seq<Value>, t: seq<byte>)
    requires f.ltype.Submessage? && f.htype.Repeated? && |payload| < TWO_32
    ensures var entry := DecodeMessage(f.ltype.fields, payload);
            DecField(f, WT_STRING, LenPrefixed(payload) + t, Many(items))
            == if |items| < f.arraySize && entry.Done? then Done(Many(items + [Struct(entry.value)]), t) else Failed
  {
    LenPrefixedRoundTrip(payload, t);
  }

  /** A new entry of an array of submessages is its payload decoded into the defaults,
      whatever the entries before it hold. */
  lemma EntryStartsAfresh(fs: seq<Field>, i: nat, payload: seq<byte>, items: seq<Value>, dest: Msg, seen: set<nat>,
                          t: seq<byte>)
    requires WfFields(fs) && i < |fs| && |payload| < TWO_32
    requires fs[i].ltype.Submessage? && fs[i].htype.Repeated? && SlotAt(fs, dest, i) == Many(items)
    ensures var entry := DecodeMessage(fs[i].ltype.fields, payload);
            DecLoop(fs, Occurrence(fs[i], payload) + t, dest, seen)
            == if |items| < fs[i].arraySize && entry.Done?
               then DecLoop(fs, t, Put(fs, dest, i, Many(items + [Struct(entry.value)])), seen)
               else Failed
  {
    EntryRead(fs[i], payload, items, t);
    OccurrenceStep(fs, i, payload, dest, seen, t);
  }

  lemma MemberRead(f: Field, payload: seq<byte>, slot: Slot, t: seq<byte>)
    requires f.ltype.Submessage? && f.htype.Oneof? && |payload| < TWO_32
    ensures var member := DecodeMessage(f.ltype.fields, payload);
            DecField(f, WT_STRING, LenPrefixed(payload) + t, slot)
            == if member.Done? then Done(Member(f.tag, Struct(member.value)), t) else Failed
  {
    LenPrefixedRoundTrip(payload, t);
  }

  /** So is a union member that is a submessage, whatever the union held, be it the same
      member. */
  lemma MemberStartsAfresh(fs: seq<Field>, i: nat, payload: seq<byte>, dest: Msg, seen: set<nat>, t: seq<byte>)
    requires WfFields(fs) && i < |fs| && |payload| < TWO_32
    requires fs[i].ltype.Submessage? && fs[i].htype.Oneof?
    ensures var member := DecodeMessage(fs[i].ltype.fields, payload);
            DecLoop(fs, Occurrence(fs[i], payload) + t, dest, seen)
            == if member.Done? then DecLoop(fs, t, Put(fs, dest, i, Member(fs[i].tag, Struct(member.value))), seen)
               else Failed
  {
    MemberRead(fs[i], payload, SlotAt(fs, dest, i), t);
    OccurrenceStep(fs, i, payload, dest, seen, t);
  }

  // ---------- values that are replaced ----------

  /** What the slot holds once a value that is not a submessage has been read. */
  function Holding(f: Field, v: Value): Slot
    requires !f.htype.Repeated?
  {
    if f.htype.Optional? then Maybe(true, v)
    else if f.htype.Oneof? then Member(f.tag, v)
    else One(v)
  }

  lemma TaggedStep(fs: seq<Field>, i: nat, v: Value, dest: Msg, seen: set<nat>, t: seq<byte>)
    requires WfFields(fs) && i < |fs| && EncValue(fs[i], v).Some?
    ensures EncTagged(fs[i], v).Some?
    ensures var r := DecField(fs[i], WireType(fs[i].ltype), EncValue(fs[i], v).value + t, SlotAt(fs, dest, i));
            DecLoop(fs, EncTagged(fs[i], v).value + t, dest, seen)
            == if r.Done? then DecLoop(fs, r.rest, Put(fs, dest, i, r.value), Seen(fs, seen, i)) else Failed
  {
    var tag, payload := EncTag(WireType(fs[i].ltype), fs[i].tag), EncValue(fs[i], v).value;
    assert EncTagged(fs[i], v).value + t == tag + (payload + t);
    LoopStep(fs, i, WireType(fs[i].ltype), payload + t, dest, seen);
  }

  lemma ValueRead(f: Field, v: Value, slot: Slot, t: seq<byte>)
    requires WfField(f) && !f.ltype.Submessage? && !f.htype.Repeated?
    requires EncValue(f, v).Some? && |EncValue(f, v).value| < TWO_32
    requires f.ltype.String? ==> v.Text? && |v.chars| < f.dataSize
    ensures DecField(f, WireType(f.ltype), EncValue(f, v).value + t, slot) == Done(Holding(f, v), t)
  {
    ValueRoundTrip(f, v, t);
  }

  /** A number, a byte string or a text replaces whatever the field held before, and in a
      union the member that was there. */
  lemma ValueReplaces(fs: seq<Field>, i: nat, v: Value, dest: Msg, seen: set<nat>, t: seq<byte>)
    requires WfFields(fs) && i < |fs| && !fs[i].ltype.Submessage? && !fs[i].htype.Repeated?
    requires EncTagged(fs[i], v).Some? && |EncTagged(fs[i], v).value| < TWO_32
    requires fs[i].ltype.String? ==> v.Text? && |v.chars| < fs[i].dataSize
    ensures DecLoop(fs, EncTagged(fs[i], v).value + t, dest, seen)
         == DecLoop(fs, t, Put(fs, dest, i, Holding(fs[i], v)), Seen(fs, seen, i))
  {
    ValueRead(fs[i], v, SlotAt(fs, dest, i), t);
    TaggedStep(fs, i, v, dest, seen, t);
  }

  /** The last of several occurrences stays. */
  lemma LastValueStays(fs: seq<Field>, i: nat, v: Value, w: Value, dest: Msg, seen: set<nat>, t: seq<byte>)
    requires WfFields(fs) && |dest| == SlotCount(fs)
    requires i < |fs| && !fs[i].ltype.Submessage? && !fs[i].htype.Repeated?
    requires EncTagged(fs[i], v).Some? && |EncTagged(fs[i], v).value| < TWO_32
    requires EncTagged(fs[i], w).Some? && |EncTagged(fs[i], w).value| < TWO_32
    requires fs[i].ltype.String? ==> v.Text? && |v.chars| < fs[i].dataSize && w.Text? && |w.chars| < fs[i].dataSize
    ensures DecLoop(fs, EncTagged(fs[i], v).value + (EncTagged(fs[i], w).value + t), dest, seen)
         == DecLoop(fs, EncTagged(fs[i], w).value + t, dest, seen)
  {
    ValueReplaces(fs, i, v, dest, seen, EncTagged(fs[i], w).value + t);
    ValueReplaces(fs, i, w, Put(fs, dest, i, Holding(fs[i], v)), Seen(fs, seen, i), t);
    ValueReplaces(fs, i, w, dest, seen, t);
    PutAt(fs, dest, i, Holding(fs[i], v), Holding(fs[i], w));
    assert Seen(fs, Seen(fs, seen, i), i) == Seen(fs, seen, i);
  }

  // ---------- packed arrays ----------

  lemma {:induction false} PackedJoin(f: Field, a: seq<byte>, b: seq<byte>, items: seq<Value>)
    requires DecPacked(f, a, items).Done?
    ensures DecPacked(f, a + b, items) == DecPacked(f, b, DecPacked(f, a, items).value)
    decreases |a|
  {
    if a == [] {
      assert a + b == b;
    } else {
      DecScalarExtend(f, a, b);
      PackedJoin(f, DecScalar(f, a).rest, b, items + [Num(DecScalar(f, a).value)]);
    }
  }

  /** The entries of a packed array may come in several occurrences, each of whole
      entries. */
  lemma PackedOccurrencesAppend(
      fs: seq<Field>, i: nat, a: seq<byte>, b: seq<byte>, items: seq<Value>, dest: Msg, seen: set<nat>, t: seq<byte>)
    requires WfFields(fs) && |dest| == SlotCount(fs) && i < |fs| && |a| + |b| < TWO_32
    requires fs[i].htype.Repeated? && Packable(fs[i].ltype)
    requires SlotAt(fs, dest, i) == Many(items) && DecPacked(fs[i], a, items).Done?
    ensures DecLoop(fs, Occurrence(fs[i], a) + (Occurrence(fs[i], b) + t), dest, seen)
         == DecLoop(fs, Occurrence(fs[i], a + b) + t, dest, seen)
  {
    var first := DecPacked(fs[i], a, items).value;
    PackedOccurrence(fs, i, a, items, dest, seen, Occurrence(fs[i], b) + t);
    PackedJoin(fs[i], a, b, items);
    PutAt(fs, dest, i, Many(first), Many(first));
    PackedOccurrence(fs, i, b, first, Put(fs, dest, i, Many(first)), seen, t);
    PackedOccurrence(fs, i, a + b, items, dest, seen, t);
    var second := DecPacked(fs[i], b, first);
    if second.Done? {
      PutAt(fs, dest, i, Many(first), Many(second.value));
    }
  }

  lemma PackedOccurrence(
      fs: seq<Field>, i: nat, payload: seq<byte>, items: seq<Value>, dest: Msg, seen: set<nat>, t: seq<byte>)
    requires WfFields(fs) && i < |fs| && |payload| < TWO_32
    requires fs[i].htype.Repeated? && Packable(fs[i].ltype) && SlotAt(fs, dest, i) == Many(items)
    ensures var r := DecPacked(fs[i], payload, items);
            DecLoop(fs, Occurrence(fs[i], payload) + t, dest, seen)
            == if r.Done? then DecLoop(fs, t, Put(fs, dest, i, Many(r.value)), seen) else Failed
  {
    OccurrenceStep(fs, i, payload, dest, seen, t);
    LenPrefixedRoundTrip(payload, t);
  }

  lemma NumberRead(f: Field, n: int, items: seq<Value>, t: seq<byte>)
    requires WfField(f) && f.htype.Repeated? && Packable(f.ltype) && NumFits(f, n) && |items| < f.arraySize
    ensures EncValue(f, Num(n)).Some?
    ensures DecField(f, WireType(f.ltype), EncValue(f, Num(n)).value + t, Many(items))
         == Done(Many(items + [Num(n)]), t)
  {
    ScalarRoundTrip(f, n, t);
  }

  /** A number of a repeated field that comes unpacked is appended, too. */
  lemma UnpackedAppends(fs: seq<Field>, i: nat, n: int, items: seq<Value>, dest: Msg, seen: set<nat>, t: seq<byte>)
    requires WfFields(fs) && i < |fs|
    requires fs[i].htype.Repeated? && Packable(fs[i].ltype) && NumFits(fs[i], n)
    requires SlotAt(fs, dest, i) == Many(items) && |items| < fs[i].arraySize
    ensures EncTagged(fs[i], Num(n)).Some?
    ensures DecLoop(fs, EncTagged(fs[i], Num(n)).value + t, dest, seen)
         == DecLoop(fs, t, Put(fs, dest, i, Many(items + [Num(n)])), seen)
  {
    NumberRead(fs[i], n, items, t);
    TaggedStep(fs, i, Num(n), dest, seen, t);
  }
}
