/**
 Decoding never overfills a struct: whatever bytes arrive, every array holds at most
 `array_size` entries, every byte string fits its buffer with its size field, and every
 text fits with its NUL, at every nesting level.  So what was decoded can be encoded
 again, and read back.
 */
module Capacity {
  import opened Words
  import opened Message
  import opened Encode
  import opened Decode
  import opened RoundTrip

  predicate ValueInRoom(f: Field, v: Value)
    decreases v, 0
  {
    && (f.ltype.Bytes? && v.Blob? ==> |v.bytes| + BYTES_OFFSET <= f.dataSize)
    && (f.ltype.String? && v.Text? ==> |v.chars| < f.dataSize)
    && (f.ltype.Submessage? && v.Struct? ==> InRoom(f.ltype.fields, v.slots))
  }

  predicate SlotInRoom(f: Field, slot: Slot)
    decreases slot, 0
  {
    match slot
    case One(v) => ValueInRoom(f, v)
    case Maybe(_, v) => ValueInRoom(f, v)
    case Many(items) => |items| <= f.arraySize && forall j :: 0 <= j < |items| ==> ValueInRoom(f, items[j])
    case NoMember => true
    case Member(which, v) => which == f.tag ==> ValueInRoom(f, v)
  }

  /** Every value of the struct, emitted or not, is within its array and its buffer. */
  predicate InRoom(fs: seq<Field>, m: Msg)
    decreases m, 0
  {
    forall i {:trigger SlotIndex(fs, i)} :: 0 <= i < |fs| && SlotIndex(fs, i) < |m| ==>
      SlotInRoom(fs[i], m[SlotIndex(fs, i)])
  }

  /** The defaults written in the descriptors fit the buffers the descriptors give. */
  predicate DefaultsInRoom(fs: seq<Field>) {
    forall i :: 0 <= i < |fs| ==> DefaultInRoom(fs[i])
  }

  predicate DefaultInRoom(f: Field) {
    match f.ltype
    case Submessage(sub) => DefaultsInRoom(sub)
    case _ => ValueInRoom(f, f.default)
  }

  /** No descriptor at any level has a required-field count the decoder cannot check. */
  predicate CheckableThroughout(fs: seq<Field>) {
    Checkable(fs) && forall i :: 0 <= i < |fs| ==> FieldCheckable(fs[i])
  }

  predicate FieldCheckable(f: Field) {
    match f.ltype
    case Submessage(sub) => CheckableThroughout(sub)
    case _ => true
  }

  // ---------- defaults and stores ----------

  lemma {:induction false} DefaultsFit(fs: seq<Field>)
    requires DefaultsInRoom(fs)
    ensures InRoom(fs, Defaults(fs))
    decreases fs, 0
  {
    forall i | 0 <= i < |fs| && SlotIndex(fs, i) < |Defaults(fs)|
      ensures SlotInRoom(fs[i], Defaults(fs)[SlotIndex(fs, i)])
    {
      DefaultsUpToAt(fs, |fs|, i);
      DefaultFits(fs[i]);
    }
  }

  lemma {:induction false} DefaultFits(f: Field)
    requires DefaultInRoom(f)
    ensures ValueInRoom(f, DefaultValue(f))
    decreases f, 0
  {
    if f.ltype.Submessage? {
      DefaultsFit(f.ltype.fields);
    }
  }

  lemma PutInRoom(fs: seq<Field>, m: Msg, i: nat, slot: Slot)
    requires DistinctTags(fs) && InRoom(fs, m) && i < |fs|
    requires SlotInRoom(fs[i], slot)
    requires fs[i].htype.Oneof? ==> slot.Member? && slot.which == fs[i].tag
    ensures InRoom(fs, Put(fs, m, i, slot))
  {
    var k, m' := SlotIndex(fs, i), Put(fs, m, i, slot);
    forall j | 0 <= j < |fs| && SlotIndex(fs, j) < |m'|
      ensures SlotInRoom(fs[j], m'[SlotIndex(fs, j)])
    {
      if SlotIndex(fs, j) == k && j != i {
        SlotIndexMonotone(fs, if i < j then i else j, if i < j then j else i);
        assert fs[j].tag != fs[i].tag;
      }
    }
  }

  // ---------- decoding stays in room ----------

  lemma {:induction false} DecPackedInRoom(f: Field, s: seq<byte>, items: seq<Value>)
    requires |items| <= f.arraySize && forall j :: 0 <= j < |items| ==> ValueInRoom(f, items[j])
    ensures var r := DecPacked(f, s, items);
            r.Done? ==> |r.value| <= f.arraySize && forall j :: 0 <= j < |r.value| ==> ValueInRoom(f, r.value[j])
    decreases |s|
  {
    if s != [] && |items| < f.arraySize && DecScalar(f, s).Done? {
      DecPackedInRoom(f, DecScalar(f, s).rest, items + [Num(DecScalar(f, s).value)]);
    }
  }

  lemma {:induction false} DecValueInRoom(f: Field, s: seq<byte>, cur: Value)
    requires WfField(f) && DefaultInRoom(f) && ValueInRoom(f, cur)
    ensures DecValue(f, s, cur).Done? ==> ValueInRoom(f, DecValue(f, s, cur).value)
    decreases f, 0, 0
  {
    if f.ltype.Submessage? && Substream(s).Done? {
      var fs := f.ltype.fields;
      DefaultsFit(fs);
      DecMessageInRoom(fs, Substream(s).value, if cur.Struct? then cur.slots else Defaults(fs));
    }
  }

  lemma TargetInRoom(f: Field, slot: Slot)
    requires DefaultInRoom(f) && SlotInRoom(f, slot)
    ensures ValueInRoom(f, Target(f, slot))
  {
    DefaultFits(f);
  }

  lemma StoreInRoom(f: Field, slot: Slot, v: Value)
    requires SlotInRoom(f, slot) && ValueInRoom(f, v)
    requires f.htype.Repeated? ==> |Entries(slot)| < f.arraySize
    ensures SlotInRoom(f, Store(f, slot, v))
  {
  }

  lemma {:induction false} DecFieldInRoom(f: Field, wt: nat, s: seq<byte>, slot: Slot)
    requires WfField(f) && DefaultInRoom(f) && SlotInRoom(f, slot)
    ensures DecField(f, wt, s, slot).Done? ==> SlotInRoom(f, DecField(f, wt, s, slot).value)
    decreases f, 1, 0
  {
    if IsPacked(f, wt) {
      if Substream(s).Done? {
        DecPackedInRoom(f, Substream(s).value, Entries(slot));
      }
    } else {
      TargetInRoom(f, slot);
      DecValueInRoom(f, s, Target(f, slot));
      var r := DecValue(f, s, Target(f, slot));
      if r.Done? && !(f.htype.Repeated? && |Entries(slot)| >= f.arraySize) {
        StoreInRoom(f, slot, r.value);
      }
    }
  }

  lemma {:induction false} StoredInRoom(fs: seq<Field>, i: nat, wt: nat, s: seq<byte>, dest: Msg)
    requires WfFields(fs) && DefaultsInRoom(fs) && InRoom(fs, dest) && i < |fs|
    ensures var r := DecField(fs[i], wt, s, SlotAt(fs, dest, i));
            r.Done? ==> InRoom(fs, Put(fs, dest, i, r.value))
    decreases fs, 0, 0
  {
    var r := DecField(fs[i], wt, s, SlotAt(fs, dest, i));
    if r.Done? {
      DecFieldInRoom(fs[i], wt, s, SlotAt(fs, dest, i));
      PutInRoom(fs, dest, i, r.value);
    }
  }

  lemma {:induction false} DecLoopInRoom(fs: seq<Field>, s: seq<byte>, dest: Msg, seen: set<nat>)
    requires WfFields(fs) && DefaultsInRoom(fs) && InRoom(fs, dest)
    ensures DecLoop(fs, s, dest, seen).Done? ==> InRoom(fs, DecLoop(fs, s, dest, seen).value.dest)
    decreases fs, 1, |s|
  {
    if s != [] && DecTag(s).Tag? {
      var Tag(wt, tag, rest) := DecTag(s);
      var i := Find(fs, tag);
      if i == |fs| {
        if SkipField(wt, rest).Done? {
          DecLoopInRoom(fs, SkipField(wt, rest).rest, dest, seen);
        }
      } else {
        var r := DecField(fs[i], wt, rest, SlotAt(fs, dest, i));
        if r.Done? {
          StoredInRoom(fs, i, wt, rest, dest);
          DecLoopInRoom(fs, r.rest, Put(fs, dest, i, r.value), Seen(fs, seen, i));
        }
      }
    }
  }

  /** No input overfills an array or a buffer, at any nesting level. */
  lemma {:induction false} DecMessageInRoom(fs: seq<Field>, s: seq<byte>, dest: Msg)
    requires WfFields(fs) && DefaultsInRoom(fs) && InRoom(fs, dest)
    ensures DecMessage(fs, s, dest).Done? ==> InRoom(fs, DecMessage(fs, s, dest).value)
    decreases fs, 2, 0
  {
    DecLoopInRoom(fs, s, dest, {});
  }

  // ---------- what is in room can be encoded and read back ----------

  lemma {:induction false} ValueEncodes(f: Field, v: Value)
    requires ValueOk(f, v) && ValueInRoom(f, v)
    ensures WithinCapacity(f, v)
    ensures FieldCheckable(f) ==> Readable(f, v)
    decreases v, 0
  {
    if f.ltype.Submessage? {
      FieldsEncode(f.ltype.fields, v.slots, 0);
      assert FieldCheckable(f) ==> CheckableThroughout(f.ltype.fields);
    }
  }

  lemma {:induction false} ItemsEncode(f: Field, items: seq<Value>)
    requires forall j :: 0 <= j < |items| ==> ValueOk(f, items[j]) && ValueInRoom(f, items[j])
    ensures ItemsWithinCapacity(f, items)
    ensures FieldCheckable(f) ==> ItemsReadable(f, items)
    decreases items, 0
  {
    if items != [] {
      ValueEncodes(f, items[0]);
      ItemsEncode(f, items[1..]);
    }
  }

  lemma {:induction false} SlotEncodes(f: Field, slot: Slot)
    requires SlotOk(f, slot) && SlotInRoom(f, slot)
    ensures SlotWithinCapacity(f, slot)
    ensures FieldCheckable(f) ==> SlotReadable(f, slot)
    decreases slot, 0
  {
    if Emits(f, slot) {
      if f.htype.Repeated? {
        ItemsEncode(f, slot.items);
      } else {
        ValueEncodes(f, slot.v);
      }
    }
  }

  lemma {:induction false} FieldsEncode(fs: seq<Field>, m: Msg, i: nat)
    requires MessageOk(fs, m) && InRoom(fs, m) && i <= |fs|
    ensures FieldsWithinCapacity(fs, m, i)
    ensures CheckableThroughout(fs) ==> FieldsReadable(fs, m, i)
    decreases m, 1, |fs| - i
  {
    if i < |fs| {
      SlotEncodes(fs[i], m[SlotIndex(fs, i)]);
      FieldsEncode(fs, m, i + 1);
    }
  }

  /** Whatever `pb_decode` accepts, `pb_encode` accepts in turn; and unless some descriptor
      has exactly the required-field count that cannot be checked, decoding those bytes
      succeeds and gives the message in canonical form.  Module `Unchanged` says when that
      is the message itself. */
  lemma DecodedReencodes(fs: seq<Field>, s: seq<byte>)
    requires WfFields(fs) && DefaultsInRoom(fs) && DecodeMessage(fs, s).Done?
    ensures EncMessage(fs, DecodeMessage(fs, s).value).Some?
    ensures var m := DecodeMessage(fs, s).value;
            var bs := EncMessage(fs, m).value;
            CheckableThroughout(fs) && |bs| < TWO_32 ==> DecodeMessage(fs, bs) == Done(Canon(fs, m), [])
  {
    var m := DecodeMessage(fs, s).value;
    DefaultsOk(fs);
    DefaultsFit(fs);
    DecMessageFits(fs, s, Defaults(fs));
    DecMessageInRoom(fs, s, Defaults(fs));
    FieldsEncode(fs, m, 0);
    EncodeSucceeds(fs, m);
    if CheckableThroughout(fs) && |EncMessage(fs, m).value| < TWO_32 {
      DecodeAfterEncode(fs, m);
    }
  }
}
