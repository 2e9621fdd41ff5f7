/**
 What `pb_encode` emits, as a function from a descriptor and a message to bytes.
 `None` is an error that does not depend on the stream, or a value no C struct of the
 descriptor's type could hold; running out of room is the output stream's business.
 */
module Encode {
  import opened Words
  import opened Wrappers
  import opened Wire
  import opened Message

  const WT_VARINT: nat := 0
  const WT_64BIT: nat := 1
  const WT_STRING: nat := 2
  const WT_32BIT: nat := 5

  function WireType(lt: LType): (wt: nat)
    ensures wt < 8
  {
    if lt.Fixed32? then WT_32BIT
    else if lt.Fixed64? then WT_64BIT
    else if Packable(lt) then WT_VARINT
    else WT_STRING
  }

  function EncTag(wt: nat, tag: nat): seq<byte> {
    EncVarint((8 * tag + wt) % TWO_64)
  }

  function LenPrefixed(body: seq<byte>): seq<byte> {
    EncVarint(|body| % TWO_64) + body
  }

  /** The 64-bit word a number is sent as. */
  function NumToU64(lt: LType, n: int): (u: nat)
    ensures u < TWO_64
  {
    if lt.Svarint? then ZigZag(n) else ToU64(n)
  }

  function EncScalar(f: Field, n: int): Option<seq<byte>> {
    if f.ltype.Fixed32? then Some(EncFixed(ToU64(n), 4))
    else if f.ltype.Fixed64? then Some(EncFixed(ToU64(n), 8))
    else if f.dataSize in {1, 2, 4, 8} then Some(EncVarint(NumToU64(f.ltype, n)))
    else None
  }

  /** The payload of one value, without its tag. */
  function EncValue(f: Field, v: Value): Option<seq<byte>>
    decreases v, 0
  {
    if !Holds(f, v) then None
    else if f.ltype.Submessage? then
      match EncFields(f.ltype.fields, v.slots, 0)
      case None => None
      case Some(body) => Some(LenPrefixed(body))
    else if f.ltype.Bytes? then
      if |v.bytes| + BYTES_OFFSET > f.dataSize then None else Some(LenPrefixed(v.bytes))
    else if f.ltype.FixedLengthBytes? then Some(LenPrefixed(v.bytes))
    else if f.ltype.String? then Some(LenPrefixed(v.chars))
    else EncScalar(f, v.n)
  }

  function EncTagged(f: Field, v: Value): Option<seq<byte>>
    decreases v, 1
  {
    match EncValue(f, v)
    case None => None
    case Some(payload) => Some(EncTag(WireType(f.ltype), f.tag) + payload)
  }

  /** Array entries one after the other, each with its tag unless they are packed. */
  function EncItems(f: Field, items: seq<Value>, packed: bool): Option<seq<byte>>
    decreases items, 0
  {
    if items == [] then Some([])
    else
      match if packed then EncValue(f, items[0]) else EncTagged(f, items[0])
      case None => None
      case Some(first) =>
        match EncItems(f, items[1..], packed)
        case None => None
        case Some(others) => Some(first + others)
  }

  /** `encode_array`: numbers are always packed. */
  function EncArray(f: Field, items: seq<Value>): Option<seq<byte>>
    decreases items, 1
  {
    if items == [] then Some([])
    else if |items| > f.arraySize then None
    else
      match EncItems(f, items, Packable(f.ltype))
      case None => None
      case Some(all) => Some(if Packable(f.ltype) then EncTag(WT_STRING, f.tag) + LenPrefixed(all) else all)
  }

  /** Whether storage of all zeros passes for the field's default. */
  predicate BlankIsZero(f: Field) {
    if f.ltype.FixedLengthBytes? then f.dataSize == 0
    else
      f.ltype.Submessage? ==>
        forall i :: 0 <= i < |f.ltype.fields| ==> BlankIsZero(f.ltype.fields[i])
  }

  /** `pb_check_proto3_default_value`. */
  predicate IsZero(f: Field, v: Value)
    decreases v, 0
  {
    if f.ltype.FixedLengthBytes? then f.dataSize == 0
    else if f.ltype.Submessage? then v.Struct? && SlotsZero(f.ltype.fields, v.slots, 0)
    else v == Blob([]) || v == Text([]) || v == Num(0)
  }

  /** Inside a submessage the check looks at the storage each field starts with: it does
      not ask for a `has_` flag, and of an array it sees the first entry. */
  predicate SlotZero(f: Field, slot: Slot)
    decreases slot, 0
  {
    match slot
    case One(v) => IsZero(f, v)
    case Maybe(_, v) => IsZero(f, v)
    case Many(items) => if items == [] then BlankIsZero(f) else IsZero(f, items[0])
    case NoMember => BlankIsZero(f)
    case Member(which, v) => if which == f.tag then IsZero(f, v) else BlankIsZero(f)
  }

  predicate SlotsZero(fs: seq<Field>, m: Msg, i: nat)
    decreases m, 1, |fs| - i
  {
    i >= |fs|
    || (SlotIndex(fs, i) < |m| && SlotZero(fs[i], m[SlotIndex(fs, i)]) && SlotsZero(fs, m, i + 1))
  }

  /** Whether the encoder writes anything for the field. */
  predicate Emits(f: Field, slot: Slot) {
    match f.htype
    case Required => true
    case Optional => slot.Maybe? && slot.has
    case Singular => slot.One? && !IsZero(f, slot.v)
    case Repeated => slot.Many? && slot.items != []
    case Oneof => slot.Member? && slot.which == f.tag
  }

  /** `encode_basic_field`. */
  function EncField(f: Field, slot: Slot): Option<seq<byte>>
    decreases slot, 0
  {
    if !Emits(f, slot) then Some([])
    else if f.htype.Repeated? then EncArray(f, slot.items)
    else if slot.One? || slot.Maybe? || slot.Member? then EncTagged(f, slot.v)
    else None
  }

  /** The fields from position `i` on, in descriptor order. */
  function EncFields(fs: seq<Field>, m: Msg, i: nat): Option<seq<byte>>
    requires i <= |fs|
    decreases m, 1, |fs| - i
  {
    if i == |fs| then Some([])
    else if SlotIndex(fs, i) >= |m| then None
    else
      match EncField(fs[i], m[SlotIndex(fs, i)])
      case None => None
      case Some(first) =>
        match EncFields(fs, m, i + 1)
        case None => None
        case Some(others) => Some(first + others)
  }

  /** `pb_encode` as a function. */
  function EncMessage(fs: seq<Field>, m: Msg): Option<seq<byte>>
  {
    EncFields(fs, m, 0)
  }

  // ---------- when encoding succeeds ----------

  /** Byte counts and array counts, at every nesting level of what is emitted, are
      within the capacities the descriptor gives. */
  predicate WithinCapacity(f: Field, v: Value)
    decreases v, 0
  {
    && (f.ltype.Bytes? && v.Blob? ==> |v.bytes| + BYTES_OFFSET <= f.dataSize)
    && (f.ltype.Submessage? && v.Struct? ==> FieldsWithinCapacity(f.ltype.fields, v.slots, 0))
  }

  predicate ItemsWithinCapacity(f: Field, items: seq<Value>)
    decreases items, 0
  {
    items == [] || (WithinCapacity(f, items[0]) && ItemsWithinCapacity(f, items[1..]))
  }

  predicate SlotWithinCapacity(f: Field, slot: Slot)
    decreases slot, 0
  {
    Emits(f, slot) ==>
      if f.htype.Repeated? then |slot.items| <= f.arraySize && ItemsWithinCapacity(f, slot.items)
      else !slot.Many? && !slot.NoMember? && WithinCapacity(f, slot.v)
  }

  predicate FieldsWithinCapacity(fs: seq<Field>, m: Msg, i: nat)
    decreases m, 1, |fs| - i
  {
    i >= |fs|
    || (SlotIndex(fs, i) < |m| && SlotWithinCapacity(fs[i], m[SlotIndex(fs, i)]) && FieldsWithinCapacity(fs, m, i + 1))
  }

  lemma {:induction false} EncValueSome(f: Field, v: Value)
    requires WfField(f) && ValueOk(f, v)
    ensures EncValue(f, v).Some? <==> WithinCapacity(f, v)
    decreases v, 0
  {
    if f.ltype.Submessage? {
      EncFieldsSome(f.ltype.fields, v.slots, 0);
    }
  }

  lemma {:induction false} EncItemsSome(f: Field, items: seq<Value>, packed: bool)
    requires WfField(f) && forall j :: 0 <= j < |items| ==> ValueOk(f, items[j])
    ensures EncItems(f, items, packed).Some? <==> ItemsWithinCapacity(f, items)
    decreases items, 0
  {
    if items != [] {
      EncValueSome(f, items[0]);
      EncItemsSome(f, items[1..], packed);
    }
  }

  lemma {:induction false} EncFieldSome(f: Field, slot: Slot)
    requires WfField(f) && SlotOk(f, slot)
    ensures EncField(f, slot).Some? <==> SlotWithinCapacity(f, slot)
    decreases slot, 0
  {
    if Emits(f, slot) {
      if f.htype.Repeated? {
        EncItemsSome(f, slot.items, Packable(f.ltype));
      } else {
        EncValueSome(f, slot.v);
      }
    }
  }

  lemma {:induction false} EncFieldsSome(fs: seq<Field>, m: Msg, i: nat)
    requires WfFields(fs) && MessageOk(fs, m) && i <= |fs|
    ensures EncFields(fs, m, i).Some? <==> FieldsWithinCapacity(fs, m, i)
    decreases m, 1, |fs| - i
  {
    if i < |fs| {
      EncFieldSome(fs[i], m[SlotIndex(fs, i)]);
      EncFieldsSome(fs, m, i + 1);
    }
  }

  /** For a well-formed descriptor, `pb_encode` produces bytes exactly when every array
      count and byte count, at every nesting level, is within its capacity. */
  lemma EncodeSucceeds(fs: seq<Field>, m: Msg)
    requires WfFields(fs) && MessageOk(fs, m)
    ensures EncMessage(fs, m).Some? <==> FieldsWithinCapacity(fs, m, 0)
  {
    EncFieldsSome(fs, m, 0);
  }
}
