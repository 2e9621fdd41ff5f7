/**
 Field descriptors (`pb_field_t`), typed message values in place of C structs, the
 defaults `pb_decode` starts from, and what it means for a value to fit its descriptor.

 `pb_size_t` is the 32-bit configuration the Firestore descriptors insist on.
 */
module Message {
  import opened Words
  import opened Wire

  datatype LType =
    | Varint
    | Uvarint
    | Svarint
    | Fixed32
    | Fixed64
    | Bytes
    | String
    | Submessage(fields: seq<Field>)
    | FixedLengthBytes

  /** `Optional` has a `has_` flag; `Singular` is the proto3 form without one. */
  datatype HType = Required | Optional | Singular | Repeated | Oneof

  /** `sameUnion` is the marker `data_offset == PB_SIZE_MAX`; `default` is what `ptr`
      points to, or the zero value when `ptr` is null. */
  datatype Field = Field(
    tag: nat, ltype: LType, htype: HType, sameUnion: bool,
    dataSize: nat, arraySize: nat, default: Value)

  /** `Text` is a character array up to its first NUL, or all of it if it has none. */
  datatype Value = Num(n: int) | Blob(bytes: seq<byte>) | Text(chars: seq<byte>) | Struct(slots: seq<Slot>)

  /** The part of a struct one field descriptor addresses; the members of a union share one. */
  datatype Slot =
    | One(v: Value)
    | Maybe(has: bool, v: Value)
    | Many(items: seq<Value>)
    | NoMember
    | Member(which: nat, v: Value)

  type Msg = seq<Slot>

  predicate Packable(lt: LType) {
    lt.Varint? || lt.Uvarint? || lt.Svarint? || lt.Fixed32? || lt.Fixed64?
  }

  /** `offsetof(pb_bytes_array_t, bytes)` with a 32-bit size field. */
  const BYTES_OFFSET: nat := 4

  // ---------- the layout of a struct ----------

  predicate SharesSlot(prev: Field, next: Field) {
    prev.htype.Oneof? && next.htype.Oneof? && next.sameUnion
  }

  function SlotIndex(fs: seq<Field>, i: nat): (k: nat)
    requires i < |fs|
    ensures k <= i
  {
    if i == 0 then 0
    else SlotIndex(fs, i - 1) + if SharesSlot(fs[i - 1], fs[i]) then 0 else 1
  }

  function SlotCount(fs: seq<Field>): (n: nat)
  {
    if fs == [] then 0 else SlotIndex(fs, |fs| - 1) + 1
  }

  lemma {:induction false} SlotIndexMonotone(fs: seq<Field>, i: nat, j: nat)
    requires i <= j < |fs|
    ensures SlotIndex(fs, i) <= SlotIndex(fs, j) < SlotCount(fs)
    ensures i < j && SlotIndex(fs, i) == SlotIndex(fs, j) ==> fs[i].htype.Oneof? && fs[j].htype.Oneof?
    ensures i < j && !SharesSlot(fs[j - 1], fs[j]) ==> SlotIndex(fs, i) < SlotIndex(fs, j)
    decreases j - i, |fs| - j
  {
    if i < j {
      SlotIndexMonotone(fs, i, j - 1);
    }
    if j < |fs| - 1 && i == j {
      SlotIndexCount(fs, j);
    } else if i < j {
      SlotIndexCount(fs, j);
    }
  }

  lemma {:induction false} SlotIndexCount(fs: seq<Field>, j: nat)
    requires j < |fs|
    ensures SlotIndex(fs, j) < SlotCount(fs)
    decreases |fs| - j
  {
    if j < |fs| - 1 {
      SlotIndexCount(fs, j + 1);
    }
  }

  /** Two members in a row, the second marked as being of the same union. */
  predicate JoinsPrevious(fs: seq<Field>, k: nat)
    requires 0 < k < |fs|
  {
    fs[k - 1].htype.Oneof? && fs[k].htype.Oneof? && fs[k].sameUnion
  }

  /** All the fields from `i` to `j` are members of one union. */
  predicate OneUnion(fs: seq<Field>, i: nat, j: nat)
    requires i <= j < |fs|
  {
    forall k :: i < k <= j ==> JoinsPrevious(fs, k)
  }

  /** Two fields share a slot exactly when an unbroken run of union members joins them. */
  lemma {:induction false} SharedExactly(fs: seq<Field>, i: nat, j: nat)
    requires i <= j < |fs|
    ensures SlotIndex(fs, i) == SlotIndex(fs, j) <==> OneUnion(fs, i, j)
    decreases j
  {
    if i < j {
      SharedExactly(fs, i, j - 1);
      SlotIndexMonotone(fs, i, j - 1);
      assert OneUnion(fs, i, j) <==> OneUnion(fs, i, j - 1) && JoinsPrevious(fs, j);
    }
  }

  // ---------- well-formed descriptors ----------

  predicate DistinctTags(fs: seq<Field>) {
    forall i, j :: 0 <= i < j < |fs| ==> fs[i].tag != fs[j].tag
  }

  function RequiredBefore(fs: seq<Field>, i: nat): (n: nat)
    requires i <= |fs|
    ensures n <= i
  {
    if i == 0 then 0
    else RequiredBefore(fs, i - 1) + if fs[i - 1].htype.Required? then 1 else 0
  }

  function RequiredCount(fs: seq<Field>): nat {
    RequiredBefore(fs, |fs|)
  }

  /** What the field generator guarantees. */
  predicate WfFields(fs: seq<Field>) {
    && DistinctTags(fs)
    && forall i :: 0 <= i < |fs| ==> WfField(fs[i])
  }

  predicate WfField(f: Field) {
    && 0 < f.tag < 0x2000_0000
    && f.dataSize < TWO_32
    && (Packable(f.ltype) && !f.ltype.Fixed32? && !f.ltype.Fixed64? ==> f.dataSize in {1, 2, 4, 8})
    && (f.ltype.String? ==> f.dataSize > 0)
    && match f.ltype {
         case Submessage(sub) => WfFields(sub)
         case _ => ValueOk(f, f.default)
       }
  }

  /** At every nesting level the decoder's bit set has a bit for each required field, and
      the word after the last full one exists. */
  predicate CountsFit(fs: seq<Field>) {
    && RequiredCount(fs) < 64
    && forall i :: 0 <= i < |fs| ==> FieldCountsFit(fs[i])
  }

  predicate FieldCountsFit(f: Field) {
    match f.ltype
    case Submessage(sub) => CountsFit(sub)
    case _ => true
  }

  // ---------- values that fit their descriptor ----------

  predicate NumFits(f: Field, n: int) {
    if f.ltype.Uvarint? then 0 <= n < Pow2(8 * f.dataSize) && n < TWO_64
    else if f.ltype.Fixed32? then 0 <= n < TWO_32
    else if f.ltype.Fixed64? then 0 <= n < TWO_64
    else IsInt64(n) && 0 <= 2 * n + Pow2(8 * f.dataSize) < 2 * Pow2(8 * f.dataSize)
  }

  /** What a C variable of the field's type can hold, leaving aside what is inside a struct. */
  predicate Holds(f: Field, v: Value) {
    if f.ltype.Submessage? then v.Struct?
    else if f.ltype.Bytes? then v.Blob? && |v.bytes| < TWO_32
    else if f.ltype.FixedLengthBytes? then v.Blob? && |v.bytes| == f.dataSize
    else if f.ltype.String? then v.Text? && 0 !in v.chars && |v.chars| <= f.dataSize
    else v.Num? && NumFits(f, v.n)
  }

  predicate ValueOk(f: Field, v: Value)
    decreases v, 0
  {
    Holds(f, v) && (f.ltype.Submessage? ==> MessageOk(f.ltype.fields, v.slots))
  }

  predicate SlotOk(f: Field, slot: Slot)
    decreases slot, 0
  {
    match f.htype
    case Required => slot.One? && ValueOk(f, slot.v)
    case Singular => slot.One? && ValueOk(f, slot.v)
    case Optional => slot.Maybe? && ValueOk(f, slot.v)
    case Repeated => slot.Many? && forall j :: 0 <= j < |slot.items| ==> ValueOk(f, slot.items[j])
    case Oneof => slot.NoMember? || (slot.Member? && (slot.which == f.tag ==> ValueOk(f, slot.v)))
  }

  /** A struct laid out as the descriptor says. */
  predicate MessageOk(fs: seq<Field>, m: Msg)
    decreases m, 0
  {
    && |m| == SlotCount(fs)
    && forall i {:trigger SlotIndex(fs, i)} :: 0 <= i < |fs| ==>
         SlotIndex(fs, i) < |m| && SlotOk(fs[i], m[SlotIndex(fs, i)])
  }

  /** The slot the iterator's `pData` addresses at field `i`. */
  function SlotAt(fs: seq<Field>, m: Msg, i: nat): Slot
    requires i < |fs|
  {
    if SlotIndex(fs, i) < |m| then m[SlotIndex(fs, i)] else NoMember
  }

  /** `m` with field `i`'s slot replaced. */
  function Put(fs: seq<Field>, m: Msg, i: nat, slot: Slot): (m': Msg)
    requires i < |fs|
    ensures |m'| == |m|
  {
    if SlotIndex(fs, i) < |m| then m[SlotIndex(fs, i) := slot] else m
  }

  lemma PutAt(fs: seq<Field>, m: Msg, i: nat, a: Slot, b: Slot)
    requires i < |fs| && |m| == SlotCount(fs)
    ensures SlotAt(fs, Put(fs, m, i, a), i) == a
    ensures Put(fs, Put(fs, m, i, a), i, b) == Put(fs, m, i, b)
  {
    SlotIndexMonotone(fs, i, i);
  }

  /** Storing into field `i` is seen through the fields of the same union and no others. */
  lemma PutElsewhere(fs: seq<Field>, m: Msg, i: nat, slot: Slot, j: nat)
    requires i < |fs| && j < |fs| && |m| == SlotCount(fs)
    ensures SlotAt(fs, Put(fs, m, i, slot), j)
         == if OneUnion(fs, if i < j then i else j, if i < j then j else i) then slot else SlotAt(fs, m, j)
  {
    SharedExactly(fs, if i < j then i else j, if i < j then j else i);
    SlotIndexCount(fs, i);
    SlotIndexCount(fs, j);
  }

  // ---------- defaults ----------

  /** `pb_field_set_to_default`: a repeated field becomes empty, a union holds no member. */
  function DefaultSlot(f: Field): Slot
    decreases f, 1
  {
    match f.htype
    case Required => One(DefaultValue(f))
    case Singular => One(DefaultValue(f))
    case Optional => Maybe(false, DefaultValue(f))
    case Repeated => Many([])
    case Oneof => NoMember
  }

  function DefaultValue(f: Field): Value
    decreases f, 0
  {
    match f.ltype
    case Submessage(sub) => Struct(Defaults(sub))
    case _ => f.default
  }

  /** `pb_message_set_to_defaults`. */
  function Defaults(fs: seq<Field>): (m: Msg)
    ensures |m| == SlotCount(fs)
    decreases fs, 2
  {
    DefaultsUpTo(fs, |fs|)
  }

  function DefaultsUpTo(fs: seq<Field>, n: nat): (m: Msg)
    requires n <= |fs|
    ensures |m| == if n == 0 then 0 else SlotIndex(fs, n - 1) + 1
    decreases fs, 1, n
  {
    if n == 0 then []
    else if n > 1 && SharesSlot(fs[n - 2], fs[n - 1]) then DefaultsUpTo(fs, n - 1)
    else DefaultsUpTo(fs, n - 1) + [DefaultSlot(fs[n - 1])]
  }

  lemma {:induction false} DefaultsUpToAt(fs: seq<Field>, n: nat, i: nat)
    requires i < n <= |fs|
    ensures SlotIndex(fs, i) < |DefaultsUpTo(fs, n)|
    ensures DefaultsUpTo(fs, n)[SlotIndex(fs, i)] == DefaultSlot(fs[i])
    decreases n
  {
    SlotIndexMonotone(fs, i, n - 1);
    if n > 1 && SharesSlot(fs[n - 2], fs[n - 1]) {
      if i < n - 1 {
        DefaultsUpToAt(fs, n - 1, i);
      } else {
        DefaultsUpToAt(fs, n - 1, n - 2);
        assert DefaultSlot(fs[n - 2]) == NoMember == DefaultSlot(fs[n - 1]);
      }
    } else {
      assert DefaultsUpTo(fs, n) == DefaultsUpTo(fs, n - 1) + [DefaultSlot(fs[n - 1])];
      if i < n - 1 {
        DefaultsUpToAt(fs, n - 1, i);
      }
    }
  }

  /** The defaults fit the descriptor they are made from. */
  lemma {:induction false} DefaultsOk(fs: seq<Field>)
    requires WfFields(fs)
    ensures MessageOk(fs, Defaults(fs))
    decreases fs
  {
    forall i | 0 <= i < |fs|
      ensures SlotIndex(fs, i) < |Defaults(fs)| && SlotOk(fs[i], Defaults(fs)[SlotIndex(fs, i)])
    {
      DefaultsUpToAt(fs, |fs|, i);
      DefaultValueOk(fs[i]);
    }
  }

  lemma {:induction false} DefaultValueOk(f: Field)
    requires WfField(f)
    ensures ValueOk(f, DefaultValue(f))
    decreases f
  {
    if f.ltype.Submessage? {
      DefaultsOk(f.ltype.fields);
    }
  }

  /** Writing one field's slot keeps the struct laid out as it should be; the members of
      one union displace each other. */
  lemma PutOk(fs: seq<Field>, m: Msg, i: nat, slot: Slot)
    requires DistinctTags(fs) && MessageOk(fs, m) && i < |fs|
    requires SlotOk(fs[i], slot)
    requires fs[i].htype.Oneof? ==> slot.Member? && slot.which == fs[i].tag
    ensures MessageOk(fs, Put(fs, m, i, slot))
  {
    var k := SlotIndex(fs, i);
    var m' := m[k := slot];
    forall j | 0 <= j < |fs|
      ensures SlotIndex(fs, j) < |m'| && SlotOk(fs[j], m'[SlotIndex(fs, j)])
    {
      if SlotIndex(fs, j) == k && j != i {
        SlotIndexMonotone(fs, if i < j then i else j, if i < j then j else i);
        assert fs[j].tag != fs[i].tag;
      }
    }
  }
}
