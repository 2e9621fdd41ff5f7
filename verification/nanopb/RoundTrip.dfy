/**
 `pb_decode` after `pb_encode`.  For a well-formed descriptor and any message with an
 encoding shorter than 2^32 bytes, decoding succeeds exactly when every string the
 encoder emits is NUL-terminated inside its buffer and no descriptor in use has exactly
 32 required fields, or the undefined shift happens to yield 0; it then consumes every
 byte and yields the same message, up to the contents of the fields that were absent.
 */
module RoundTrip {
  import opened Words
  import opened Wrappers
  import opened Wire
  import opened Message
  import opened Encode
  import opened Decode

  // ---------- the message that comes back ----------

  /** What comes back for one value: submessages lose the contents of absent fields. */
  function CanonValue(f: Field, v: Value): Value
    decreases v, 0
  {
    if f.ltype.Submessage? && v.Struct? then Struct(After(f.ltype.fields, v.slots, |f.ltype.fields|)) else v
  }

  function CanonItems(f: Field, items: seq<Value>): (r: seq<Value>)
    ensures |r| == |items|
    ensures forall j :: 0 <= j < |r| ==> r[j] == CanonValue(f, items[j])
    decreases items, 0
  {
    if items == [] then [] else [CanonValue(f, items[0])] + CanonItems(f, items[1..])
  }

  function CanonSlot(f: Field, slot: Slot): Slot
    decreases slot, 0
  {
    match slot
    case One(v) => Store(f, slot, CanonValue(f, v))
    case Maybe(_, v) => Store(f, slot, CanonValue(f, v))
    case Member(_, v) => Store(f, slot, CanonValue(f, v))
    case Many(items) => Many(CanonItems(f, items))
    case NoMember => NoMember
  }

  /** The destination once the first `n` fields of `m` have been decoded into defaults. */
  function After(fs: seq<Field>, m: Msg, n: nat): (d: Msg)
    requires n <= |fs|
    ensures |d| == SlotCount(fs)
    decreases m, 1, n
  {
    if n == 0 then Defaults(fs)
    else
      var d, k := After(fs, m, n - 1), SlotIndex(fs, n - 1);
      if k < |m| && Emits(fs[n - 1], m[k]) then Put(fs, d, n - 1, CanonSlot(fs[n - 1], m[k])) else d
  }

  /** `m` with the contents of absent fields replaced by their defaults. */
  function Canon(fs: seq<Field>, m: Msg): (d: Msg)
  {
    After(fs, m, |fs|)
  }

  // ---------- values that can be read back ----------

  /** Every string the encoder emits has room for its NUL, and every submessage it emits
      has a descriptor whose required fields the decoder can check. */
  predicate Readable(f: Field, v: Value)
    decreases v, 0
  {
    && (f.ltype.String? && v.Text? ==> |v.chars| < f.dataSize)
    && (f.ltype.Submessage? && v.Struct? ==>
          Checkable(f.ltype.fields) && FieldsReadable(f.ltype.fields, v.slots, 0))
  }

  predicate ItemsReadable(f: Field, items: seq<Value>)
    decreases items, 0
  {
    items == [] || (Readable(f, items[0]) && ItemsReadable(f, items[1..]))
  }

  predicate SlotReadable(f: Field, slot: Slot)
    decreases slot, 0
  {
    Emits(f, slot) ==>
      match slot
      case One(v) => Readable(f, v)
      case Maybe(_, v) => Readable(f, v)
      case Member(_, v) => Readable(f, v)
      case Many(items) => ItemsReadable(f, items)
      case NoMember => true
  }

  predicate FieldsReadable(fs: seq<Field>, m: Msg, i: nat)
    decreases m, 1, |fs| - i
  {
    i >= |fs|
    || (SlotIndex(fs, i) < |m| && SlotReadable(fs[i], m[SlotIndex(fs, i)]) && FieldsReadable(fs, m, i + 1))
  }

  // ---------- reading back single pieces ----------

  lemma TagRoundTrip(wt: nat, tag: nat, t: seq<byte>)
    requires wt < 8 && 0 < tag < 0x2000_0000
    ensures DecTag(EncTag(wt, tag) + t) == Tag(wt, tag, t)
  {
    SmallMod(8 * tag + wt, TWO_64);
    Varint32RoundTrip(8 * tag + wt, t);
    TagOfWord(EncTag(wt, tag) + t, wt, tag, t);
  }

  lemma TagOfWord(s: seq<byte>, wt: nat, tag: nat, t: seq<byte>)
    requires wt < 8 && 0 < tag
    requires DecVarint(s, 32) == Parsed(8 * tag + wt, t)
    ensures DecTag(s) == Tag(wt, tag, t)
  {
    ModUnique(8 * tag + wt, 8, tag, wt);
  }

  lemma LengthRoundTrip(body: seq<byte>, t: seq<byte>)
    requires |body| < TWO_32
    ensures DecVarint(LenPrefixed(body) + t, 32) == Parsed(|body|, body + t)
  {
    SmallMod(|body|, TWO_64);
    assert LenPrefixed(body) + t == EncVarint(|body|) + (body + t);
    Varint32RoundTrip(|body|, body + t);
  }

  lemma LenPrefixedRoundTrip(body: seq<byte>, t: seq<byte>)
    requires |body| < TWO_32
    ensures Substream(LenPrefixed(body) + t) == Done(body, t)
  {
    LengthRoundTrip(body, t);
    assert (body + t)[..|body|] == body;
    assert (body + t)[|body|..] == t;
  }

  lemma {:induction false} CutNulKeeps(cs: seq<byte>)
    requires 0 !in cs
    ensures CutNul(cs) == cs
  {
    if cs != [] {
      CutNulKeeps(cs[1..]);
    }
  }

  lemma U64RoundTrip(u: nat, t: seq<byte>)
    requires u < TWO_64
    ensures DecU64(EncVarint(u) + t) == Done(u, t)
  {
    Varint64RoundTrip(u, t);
  }

  /** A number of at most 32 bits keeps its value through the sign-extended encoding. */
  lemma VarintToIntInverse(f: Field, n: int)
    requires WfField(f) && Packable(f.ltype) && NumFits(f, n) && !f.ltype.Fixed32? && !f.ltype.Fixed64?
    ensures VarintToInt(f, NumToU64(f.ltype, n)) == n
  {
    if f.ltype.Svarint? {
      ZigZagBijection(n, 0);
    } else if f.ltype.Varint? {
      SignedRoundTrip(n);
      if f.dataSize != 8 {
        NarrowFits(f, n);
      }
    }
  }

  lemma NarrowFits(f: Field, n: int)
    requires f.ltype.Varint? && f.dataSize <= 4 && NumFits(f, n)
    ensures -0x8000_0000 <= n < 0x8000_0000
  {
    Pow2Widths();
    Pow2Monotone(8 * f.dataSize, 32);
  }

  lemma SignedRoundTrip(n: int)
    requires IsInt64(n)
    ensures ToI64(ToU64(n)) == n
    ensures -0x8000_0000 <= n < 0x8000_0000 ==> ToI32(ToU64(n)) == n
  {
    if n < 0 {
      ModUnique(n, TWO_64, -1, n + TWO_64);
      if -0x8000_0000 <= n {
        ModUnique(n + TWO_64, TWO_32, TWO_32 - 1, n + TWO_32);
      }
    }
  }

  lemma FixedScalarRoundTrip(f: Field, n: int, t: seq<byte>)
    requires (f.ltype.Fixed32? || f.ltype.Fixed64?) && NumFits(f, n)
    ensures EncScalar(f, n).Some? && EncScalar(f, n).value != []
    ensures DecScalar(f, EncScalar(f, n).value + t) == Done(n, t)
  {
    var k := if f.ltype.Fixed32? then 4 else 8;
    SmallMod(n, TWO_64);
    assert FixedValue(EncFixed(n, k)) == n by {
      Pow2Widths();
      FixedRoundTrip(n, k);
    }
    var bs := EncFixed(n, k);
    assert (bs + t)[..k] == bs && (bs + t)[k..] == t;
  }

  lemma ScalarRoundTrip(f: Field, n: int, t: seq<byte>)
    requires WfField(f) && Packable(f.ltype) && NumFits(f, n)
    ensures EncScalar(f, n).Some? && EncScalar(f, n).value != []
    ensures DecScalar(f, EncScalar(f, n).value + t) == Done(n, t)
  {
    if f.ltype.Fixed32? || f.ltype.Fixed64? {
      FixedScalarRoundTrip(f, n, t);
    } else {
      VarintToIntInverse(f, n);
      U64RoundTrip(NumToU64(f.ltype, n), t);
    }
  }

  lemma FixedLengthRoundTrip(f: Field, bs: seq<byte>, t: seq<byte>)
    requires |bs| == f.dataSize < TWO_32
    ensures DecFixedLength(f, LenPrefixed(bs) + t) == Done(Blob(bs), t)
  {
    LengthRoundTrip(bs, t);
    assert (bs + t)[..|bs|] == bs;
    assert (bs + t)[|bs|..] == t;
    if |bs| == 0 {
      assert seq(f.dataSize, _ => 0 as byte) == bs;
      assert bs + t == t;
    }
  }

  /** The numbers of a packed array come back in order. */
  lemma {:induction false} PackedRoundTrip(f: Field, items: seq<Value>, done: seq<Value>)
    requires WfField(f) && Packable(f.ltype)
    requires |done| + |items| <= f.arraySize
    requires EncItems(f, items, true).Some?
    ensures DecPacked(f, EncItems(f, items, true).value, done) == Done(done + items, [])
    decreases |items|
  {
    if items == [] {
      assert done + items == done;
    } else {
      var others := EncItems(f, items[1..], true).value;
      ScalarRoundTrip(f, items[0].n, others);
      PackedRoundTrip(f, items[1..], done + [items[0]]);
      assert done + [items[0]] + items[1..] == done + items;
    }
  }

  // ---------- reading back values ----------

  /** One payload, in front of anything. */
  lemma {:induction false} ValueRoundTrip(f: Field, v: Value, t: seq<byte>)
    requires WfField(f) && EncValue(f, v).Some? && |EncValue(f, v).value| < TWO_32
    ensures DecValue(f, EncValue(f, v).value + t, DefaultValue(f))
         == if Readable(f, v) then Done(CanonValue(f, v), t) else Failed
    decreases v, 0
  {
    if Packable(f.ltype) {
      ScalarRoundTrip(f, v.n, t);
    } else if f.ltype.FixedLengthBytes? {
      FixedLengthRoundTrip(f, v.bytes, t);
    } else if f.ltype.Submessage? {
      var fs := f.ltype.fields;
      LenPrefixedRoundTrip(EncFields(fs, v.slots, 0).value, t);
      FieldsRoundTrip(fs, v.slots, 0);
      AllSeen(fs, |fs|);
    } else {
      BufferRoundTrip(f, v, t);
    }
  }

  lemma BufferRoundTrip(f: Field, v: Value, t: seq<byte>)
    requires f.ltype.Bytes? || f.ltype.String?
    requires EncValue(f, v).Some? && |EncValue(f, v).value| < TWO_32
    ensures DecBuffer(f, EncValue(f, v).value + t) == if Readable(f, v) then Done(CanonValue(f, v), t) else Failed
  {
    if f.ltype.Bytes? {
      LenPrefixedRoundTrip(v.bytes, t);
    } else {
      LenPrefixedRoundTrip(v.chars, t);
      CutNulKeeps(v.chars);
    }
  }

  lemma {:induction false} FieldValueRoundTrip(f: Field, v: Value, wt: nat, slot: Slot, t: seq<byte>)
    requires WfField(f) && EncValue(f, v).Some? && |EncValue(f, v).value| < TWO_32
    requires Target(f, slot) == DefaultValue(f) && !IsPacked(f, wt)
    requires f.htype.Repeated? ==> |Entries(slot)| < f.arraySize
    ensures DecField(f, wt, EncValue(f, v).value + t, slot)
         == if Readable(f, v) then Done(Store(f, slot, CanonValue(f, v)), t) else Failed
    decreases v, 1
  {
    ValueRoundTrip(f, v, t);
  }

  lemma FindUnique(fs: seq<Field>, i: nat)
    requires DistinctTags(fs) && i < |fs|
    ensures Find(fs, fs[i].tag) == i
  {
  }

  /** One iteration of the field loop on a tag the encoder wrote for field `i`. */
  lemma LoopStep(fs: seq<Field>, i: nat, wt: nat, s: seq<byte>, dest: Msg, seen: set<nat>)
    requires WfFields(fs) && i < |fs| && wt < 8
    ensures DecLoop(fs, EncTag(wt, fs[i].tag) + s, dest, seen)
         == match DecField(fs[i], wt, s, SlotAt(fs, dest, i))
            case Failed => Failed
            case Done(slot, rest) => DecLoop(fs, rest, Put(fs, dest, i, slot), Seen(fs, seen, i))
  {
    TagRoundTrip(wt, fs[i].tag, s);
    FindUnique(fs, i);
  }

  /** A tagged value, decoded into a slot that resets or already holds the defaults. */
  lemma {:induction false} TaggedRoundTrip(fs: seq<Field>, i: nat, v: Value, dest: Msg, seen: set<nat>, t: seq<byte>)
    requires WfFields(fs) && i < |fs|
    requires EncTagged(fs[i], v).Some? && |EncTagged(fs[i], v).value| < TWO_32
    requires Target(fs[i], SlotAt(fs, dest, i)) == DefaultValue(fs[i])
    requires fs[i].htype.Repeated? ==> !Packable(fs[i].ltype) && |Entries(SlotAt(fs, dest, i))| < fs[i].arraySize
    ensures DecLoop(fs, EncTagged(fs[i], v).value + t, dest, seen)
         == if Readable(fs[i], v)
            then DecLoop(fs, t, Put(fs, dest, i, Store(fs[i], SlotAt(fs, dest, i), CanonValue(fs[i], v))),
                         Seen(fs, seen, i))
            else Failed
    decreases v, 2
  {
    var f := fs[i];
    var tag, payload := EncTag(WireType(f.ltype), f.tag), EncValue(f, v).value;
    assert EncTagged(f, v).value + t == tag + (payload + t);
    FieldValueRoundTrip(f, v, WireType(f.ltype), SlotAt(fs, dest, i), t);
    LoopStep(fs, i, WireType(f.ltype), payload + t, dest, seen);
  }

  // ---------- reading back arrays ----------

  /** Array entries written one by one are appended in order. */
  lemma {:induction false} ItemsRoundTrip(
      fs: seq<Field>, i: nat, items: seq<Value>, done: seq<Value>, dest: Msg, seen: set<nat>, t: seq<byte>)
    requires WfFields(fs) && i < |fs| && |dest| == SlotCount(fs)
    requires fs[i].htype.Repeated? && !Packable(fs[i].ltype)
    requires SlotAt(fs, dest, i) == Many(done) && |done| + |items| <= fs[i].arraySize
    requires items != []
    requires EncItems(fs[i], items, false).Some? && |EncItems(fs[i], items, false).value| < TWO_32
    ensures DecLoop(fs, EncItems(fs[i], items, false).value + t, dest, seen)
         == if ItemsReadable(fs[i], items)
            then DecLoop(fs, t, Put(fs, dest, i, Many(done + CanonItems(fs[i], items))), seen)
            else Failed
    decreases items, 1
  {
    var f := fs[i];
    var first, others := EncTagged(f, items[0]).value, EncItems(f, items[1..], false).value;
    assert EncItems(f, items, false).value + t == first + (others + t);
    TaggedRoundTrip(fs, i, items[0], dest, seen, others + t);
    assert Store(f, SlotAt(fs, dest, i), CanonValue(f, items[0])) == Many(done + [CanonValue(f, items[0])]);
    assert Seen(fs, seen, i) == seen;
    if Readable(f, items[0]) {
      MoreItemsRoundTrip(fs, i, items, done, dest, seen, t);
    }
  }

  /** The same, once the first entry has been stored. */
  lemma {:induction false} MoreItemsRoundTrip(
      fs: seq<Field>, i: nat, items: seq<Value>, done: seq<Value>, dest: Msg, seen: set<nat>, t: seq<byte>)
    requires WfFields(fs) && i < |fs| && |dest| == SlotCount(fs)
    requires fs[i].htype.Repeated? && !Packable(fs[i].ltype)
    requires |done| + |items| <= fs[i].arraySize
    requires items != []
    requires EncItems(fs[i], items[1..], false).Some? && |EncItems(fs[i], items[1..], false).value| < TWO_32
    ensures DecLoop(fs, EncItems(fs[i], items[1..], false).value + t,
                    Put(fs, dest, i, Many(done + [CanonValue(fs[i], items[0])])), seen)
         == if ItemsReadable(fs[i], items[1..])
            then DecLoop(fs, t, Put(fs, dest, i, Many(done + CanonItems(fs[i], items))), seen)
            else Failed
    decreases items, 0, 0
  {
    var f := fs[i];
    var done1, all := done + [CanonValue(f, items[0])], done + CanonItems(f, items);
    assert all == done1 + CanonItems(f, items[1..]);
    if items[1..] == [] {
      assert [] + t == t;
      assert all == done1;
    } else {
      PutAt(fs, dest, i, Many(done1), Many(all));
      ItemsRoundTrip(fs, i, items[1..], done1, Put(fs, dest, i, Many(done1)), seen, t);
    }
  }

  lemma {:induction false} NumbersAreCanonical(f: Field, items: seq<Value>)
    requires Packable(f.ltype)
    ensures CanonItems(f, items) == items && ItemsReadable(f, items)
  {
    if items != [] {
      NumbersAreCanonical(f, items[1..]);
    }
  }

  lemma PackedFieldRoundTrip(fs: seq<Field>, i: nat, items: seq<Value>, dest: Msg, seen: set<nat>, t: seq<byte>)
    requires WfFields(fs) && i < |fs|
    requires fs[i].htype.Repeated? && Packable(fs[i].ltype)
    requires SlotAt(fs, dest, i) == Many([]) && |items| <= fs[i].arraySize
    requires EncItems(fs[i], items, true).Some? && |EncItems(fs[i], items, true).value| < TWO_32
    ensures DecLoop(fs, EncTag(WT_STRING, fs[i].tag) + LenPrefixed(EncItems(fs[i], items, true).value) + t, dest, seen)
         == DecLoop(fs, t, Put(fs, dest, i, Many(items)), seen)
  {
    var f := fs[i];
    var body := EncItems(f, items, true).value;
    assert EncTag(WT_STRING, f.tag) + LenPrefixed(body) + t == EncTag(WT_STRING, f.tag) + (LenPrefixed(body) + t);
    LoopStep(fs, i, WT_STRING, LenPrefixed(body) + t, dest, seen);
    LenPrefixedRoundTrip(body, t);
    PackedRoundTrip(f, items, []);
    assert [] + items == items;
  }

  lemma {:induction false} ArrayRoundTrip(
      fs: seq<Field>, i: nat, items: seq<Value>, dest: Msg, seen: set<nat>, t: seq<byte>)
    requires WfFields(fs) && i < |fs| && |dest| == SlotCount(fs)
    requires fs[i].htype.Repeated? && items != []
    requires EncArray(fs[i], items).Some? && |EncArray(fs[i], items).value| < TWO_32
    requires SlotAt(fs, dest, i) == Many([])
    ensures DecLoop(fs, EncArray(fs[i], items).value + t, dest, seen)
         == if ItemsReadable(fs[i], items)
            then DecLoop(fs, t, Put(fs, dest, i, Many(CanonItems(fs[i], items))), seen)
            else Failed
    decreases items, 2
  {
    if Packable(fs[i].ltype) {
      NumbersAreCanonical(fs[i], items);
      PackedFieldRoundTrip(fs, i, items, dest, seen, t);
    } else {
      ItemsRoundTrip(fs, i, items, [], dest, seen, t);
      assert [] + CanonItems(fs[i], items) == CanonItems(fs[i], items);
    }
  }

  // ---------- reading back fields and messages ----------

  /** No field up to `n` that addresses field `j`'s slot is emitted. */
  predicate Silent(fs: seq<Field>, m: Msg, n: nat, j: nat)
    requires n <= |fs| && j < |fs|
  {
    forall k {:trigger SlotIndex(fs, k)} :: 0 <= k < n && SlotIndex(fs, k) == SlotIndex(fs, j) ==>
      !Emits(fs[k], SlotAt(fs, m, k))
  }

  /** A slot nothing was emitted for still holds its default. */
  lemma {:induction false} Untouched(fs: seq<Field>, m: Msg, n: nat, j: nat)
    requires n <= |fs| && j < |fs| && Silent(fs, m, n, j)
    ensures SlotAt(fs, After(fs, m, n), j) == DefaultSlot(fs[j])
    decreases n
  {
    if n == 0 {
      DefaultsUpToAt(fs, |fs|, j);
    } else {
      Untouched(fs, m, n - 1, j);
    }
  }

  /** Outside a union no other field addresses the slot. */
  lemma SilentBefore(fs: seq<Field>, m: Msg, j: nat)
    requires j < |fs| && !fs[j].htype.Oneof?
    ensures Silent(fs, m, j, j)
  {
    forall k | 0 <= k < j
      ensures SlotIndex(fs, k) != SlotIndex(fs, j)
    {
      SlotIndexMonotone(fs, k, j);
    }
  }

  /** The bytes of one field, in front of anything. */
  lemma {:induction false} FieldRoundTrip(fs: seq<Field>, i: nat, slot: Slot, dest: Msg, seen: set<nat>, t: seq<byte>)
    requires WfFields(fs) && i < |fs| && |dest| == SlotCount(fs)
    requires EncField(fs[i], slot).Some? && |EncField(fs[i], slot).value| < TWO_32
    requires fs[i].htype.Oneof? || SlotAt(fs, dest, i) == DefaultSlot(fs[i])
    ensures DecLoop(fs, EncField(fs[i], slot).value + t, dest, seen)
         == if SlotReadable(fs[i], slot)
            then DecLoop(fs, t, if Emits(fs[i], slot) then Put(fs, dest, i, CanonSlot(fs[i], slot)) else dest,
                         Seen(fs, seen, i))
            else Failed
    decreases slot, 0
  {
    var f := fs[i];
    if !Emits(f, slot) {
      assert [] + t == t;
    } else if f.htype.Repeated? {
      ArrayRoundTrip(fs, i, slot.items, dest, seen, t);
    } else {
      TaggedRoundTrip(fs, i, slot.v, dest, seen, t);
    }
  }

  /** The positions of the required fields among the first `n`. */
  function RequiredPositions(fs: seq<Field>, n: nat): set<nat>
    requires n <= |fs|
  {
    if n == 0 then {} else Seen(fs, RequiredPositions(fs, n - 1), n - 1)
  }

  lemma {:induction false} AllSeen(fs: seq<Field>, n: nat)
    requires n <= |fs|
    ensures forall i :: 0 <= i < n && fs[i].htype.Required? ==> i in RequiredPositions(fs, n)
  {
    if n > 0 {
      AllSeen(fs, n - 1);
    }
  }

  lemma {:induction false} FieldsStep(fs: seq<Field>, m: Msg, i: nat, later: seq<byte>)
    requires WfFields(fs) && i < |fs| && SlotIndex(fs, i) < |m|
    requires var bs := EncField(fs[i], m[SlotIndex(fs, i)]); bs.Some? && |bs.value| < TWO_32
    ensures DecLoop(fs, EncField(fs[i], m[SlotIndex(fs, i)]).value + later, After(fs, m, i), RequiredPositions(fs, i))
         == if SlotReadable(fs[i], m[SlotIndex(fs, i)])
            then DecLoop(fs, later, After(fs, m, i + 1), RequiredPositions(fs, i + 1))
            else Failed
    decreases m, 0
  {
    if !fs[i].htype.Oneof? {
      SilentBefore(fs, m, i);
      Untouched(fs, m, i, i);
    }
    FieldRoundTrip(fs, i, m[SlotIndex(fs, i)], After(fs, m, i), RequiredPositions(fs, i), later);
  }

  lemma {:induction false} FieldsRoundTrip(fs: seq<Field>, m: Msg, i: nat)
    requires WfFields(fs) && i <= |fs|
    requires EncFields(fs, m, i).Some? && |EncFields(fs, m, i).value| < TWO_32
    ensures DecLoop(fs, EncFields(fs, m, i).value, After(fs, m, i), RequiredPositions(fs, i))
         == if FieldsReadable(fs, m, i)
            then Done(Progress(Canon(fs, m), RequiredPositions(fs, |fs|), true), [])
            else Failed
    decreases m, 1, |fs| - i
  {
    if i < |fs| {
      FieldsStep(fs, m, i, EncFields(fs, m, i + 1).value);
      FieldsRoundTrip(fs, m, i + 1);
    }
  }

  /** The round trip.  The encoder never refuses a string without room for its NUL or a
      descriptor that cannot be checked; the decoder always does, and those are the only
      ways a short enough encoding fails to come back. */
  lemma DecodeAfterEncode(fs: seq<Field>, m: Msg)
    requires WfFields(fs)
    requires EncMessage(fs, m).Some? && |EncMessage(fs, m).value| < TWO_32
    ensures DecodeMessage(fs, EncMessage(fs, m).value)
         == if FieldsReadable(fs, m, 0) && Checkable(fs) then Done(Canon(fs, m), []) else Failed
  {
    FieldsRoundTrip(fs, m, 0);
    AllSeen(fs, |fs|);
  }

  lemma Undisturbed(fs: seq<Field>, m: Msg, n: nat, j: nat)
    requires DistinctTags(fs) && |m| == SlotCount(fs) && j < n < |fs|
    requires fs[j].htype.Oneof? ==> Emits(fs[j], SlotAt(fs, m, j))
    ensures SlotAt(fs, After(fs, m, n + 1), j) == SlotAt(fs, After(fs, m, n), j)
  {
    SlotIndexMonotone(fs, j, n);
    assert fs[j].tag != fs[n].tag;
  }

  /** Once decoded, a field is not disturbed by the fields after it. */
  lemma {:induction false} Settled(fs: seq<Field>, m: Msg, n: nat, j: nat)
    requires DistinctTags(fs) && |m| == SlotCount(fs) && j < n <= |fs|
    requires fs[j].htype.Oneof? ==> Emits(fs[j], SlotAt(fs, m, j))
    ensures SlotAt(fs, After(fs, m, n), j)
         == if Emits(fs[j], SlotAt(fs, m, j)) then CanonSlot(fs[j], SlotAt(fs, m, j)) else DefaultSlot(fs[j])
    decreases n
  {
    if n == j + 1 {
      SlotIndexMonotone(fs, j, j);
      if !Emits(fs[j], SlotAt(fs, m, j)) {
        SilentBefore(fs, m, j);
        Untouched(fs, m, j, j);
      }
    } else {
      Settled(fs, m, n - 1, j);
      Undisturbed(fs, m, n - 1, j);
    }
  }

  /** What "the same message" means, field by field: whatever was emitted comes back; a
      slot for which no field was emitted, be it one field's or a union's, holds its
      default. */
  lemma CanonMeaning(fs: seq<Field>, m: Msg, j: nat)
    requires DistinctTags(fs) && |m| == SlotCount(fs) && j < |fs|
    ensures Emits(fs[j], SlotAt(fs, m, j)) ==>
              SlotAt(fs, Canon(fs, m), j) == CanonSlot(fs[j], SlotAt(fs, m, j))
    ensures Silent(fs, m, |fs|, j) ==>
              SlotAt(fs, Canon(fs, m), j) == DefaultSlot(fs[j])
    ensures !fs[j].htype.Oneof? && !Emits(fs[j], SlotAt(fs, m, j)) ==>
              SlotAt(fs, Canon(fs, m), j) == DefaultSlot(fs[j])
  {
    if Silent(fs, m, |fs|, j) {
      Untouched(fs, m, |fs|, j);
    }
    if !fs[j].htype.Oneof? || Emits(fs[j], SlotAt(fs, m, j)) {
      Settled(fs, m, |fs|, j);
    }
  }

  /** A field of implicit presence keeps its contents exactly when the check for default
      contents does not hide them, or they are the default anyway. */
  lemma ImplicitPresence(fs: seq<Field>, m: Msg, j: nat)
    requires DistinctTags(fs) && |m| == SlotCount(fs) && j < |fs|
    requires fs[j].htype.Singular? && SlotAt(fs, m, j).One?
    ensures var f, v := fs[j], SlotAt(fs, m, j).v;
            SlotAt(fs, Canon(fs, m), j) == One(CanonValue(f, v))
            <==> !IsZero(f, v) || CanonValue(f, v) == DefaultValue(f)
  {
    CanonMeaning(fs, m, j);
  }

  function Numbers(): Field {
    Field(1, Varint, Repeated, false, 4, 2, Num(0))
  }

  function Hider(): Field {
    Field(1, Submessage([Numbers()]), Singular, false, 8, 0, Struct([]))
  }

  /** It can hide more than defaults: of an array inside it sees the first entry alone, so
      a submessage holding the numbers 0 and 5 is not sent and comes back empty. */
  lemma HiddenByFirstEntry(m: Msg)
    requires m == [One(Struct([Many([Num(0), Num(5)])]))]
    ensures WfFields([Hider()]) && MessageOk([Hider()], m)
    ensures EncMessage([Hider()], m) == Some([])
    ensures DecodeMessage([Hider()], []) == Done([One(Struct([Many([])]))], [])
  {
    HiderFits(m[0].v.slots);
    NothingSent(m);
    OneFieldDefaults(Numbers());
    OneFieldDefaults(Hider());
    assert DefaultValue(Hider()) == Struct(Defaults([Numbers()]));
    assert RequiredCount([Hider()]) == RequiredBefore([Hider()], 0) == 0;
    assert DecLoop([Hider()], [], Defaults([Hider()]), {}) == Done(Progress(Defaults([Hider()]), {}, true), []);
  }

  lemma HiderFits(inner: Msg)
    requires inner == [Many([Num(0), Num(5)])]
    ensures WfFields([Hider()]) && MessageOk([Hider()], [One(Struct(inner))])
  {
    NumberFits(0);
    NumberFits(5);
    AloneFits(Numbers(), inner[0]);
    assert ValueOk(Hider(), Struct(inner));
    AloneFits(Hider(), One(Struct(inner)));
  }

  lemma NumberFits(n: int)
    requires 0 <= n < 10
    ensures WfField(Numbers()) && ValueOk(Numbers(), Num(n))
  {
    Pow2Widths();
  }

  /** A message of one field. */
  lemma AloneFits(f: Field, slot: Slot)
    requires WfField(f) && SlotOk(f, slot)
    ensures WfFields([f]) && MessageOk([f], [slot])
  {
  }

  lemma NothingSent(m: Msg)
    requires m == [One(Struct([Many([Num(0), Num(5)])]))]
    ensures EncMessage([Hider()], m) == Some([])
  {
    assert SlotZero(Numbers(), m[0].v.slots[0]);
    assert SlotsZero([Numbers()], m[0].v.slots, 0);
    assert EncField(Hider(), m[0]) == Some([]);
    var none: seq<byte> := [];
    assert none + none == none;
    assert EncFields([Hider()], m, 1) == Some(none);
  }

  lemma OneFieldDefaults(f: Field)
    ensures Defaults([f]) == [DefaultSlot(f)]
  {
    DefaultsUpToAt([f], 1, 0);
  }
}
