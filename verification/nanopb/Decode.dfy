/**
 What `pb_decode_noinit` does to a message, as a function of the input bytes.  A
 successful step returns what it read and the bytes that remain.
 */
module Decode {
  import opened Words
  import opened Wire
  import opened Message
  import opened Encode

  datatype Decoded<+T> = Done(value: T, rest: seq<byte>) | Failed {
    function Followed(t: seq<byte>): Decoded<T> {
      match this
      case Done(v, rest) => Done(v, rest + t)
      case Failed => Failed
    }
  }

  // ---------- tags and skipping ----------

  /** `End`: the message ends here, with `left` unread. */
  datatype TagRead = Tag(wt: nat, tag: nat, rest: seq<byte>) | End(left: seq<byte>) | BadTag

  /** `pb_decode_tag`.  A tag cut short by the end of the stream ends the message, and
      so does a zero. */
  function DecTag(s: seq<byte>): (r: TagRead)
    ensures r.Tag? ==> |r.rest| < |s|
  {
    match DecVarint(s, 32)
    case Stuck(left) => if left == [] then End([]) else BadTag
    case Parsed(v, rest) => if v == 0 then End(rest) else Tag(v % 8, v / 8, rest)
  }

  function SkipVarint(s: seq<byte>): (r: Decoded<()>)
    ensures r.Done? ==> |r.rest| < |s|
  {
    if s == [] then Failed
    else if s[0] >= 128 then SkipVarint(s[1..])
    else Done((), s[1..])
  }

  function SkipBytes(s: seq<byte>, n: nat): (r: Decoded<()>)
    ensures r.Done? ==> |r.rest| <= |s|
  {
    if |s| < n then Failed else Done((), s[n..])
  }

  /** `pb_skip_field`. */
  function SkipField(wt: nat, s: seq<byte>): (r: Decoded<()>)
    ensures r.Done? ==> |r.rest| <= |s|
  {
    if wt == WT_VARINT then SkipVarint(s)
    else if wt == WT_64BIT then SkipBytes(s, 8)
    else if wt == WT_STRING then
      match Substream(s)
      case Failed => Failed
      case Done(_, rest) => Done((), rest)
    else if wt == WT_32BIT then SkipBytes(s, 4)
    else Failed
  }

  // ---------- single values ----------

  /** A length and that many bytes: `pb_make_string_substream` and its close. */
  function Substream(s: seq<byte>): (r: Decoded<seq<byte>>)
    ensures r.Done? ==> |r.value| + |r.rest| < |s|
  {
    match DecVarint(s, 32)
    case Stuck(_) => Failed
    case Parsed(size, rest) =>
      if |rest| < size then Failed else Done(rest[..size], rest[size..])
  }

  function DecU64(s: seq<byte>): (r: Decoded<nat>)
    ensures r.Done? ==> |r.rest| < |s|
  {
    match DecVarint(s, 64)
    case Stuck(_) => Failed
    case Parsed(v, rest) => Done(v, rest)
  }

  /** The integer stored for a varint read off the wire, before the size check.  A field
      of at most 32 bits is cut to `int32_t` first. */
  function VarintToInt(f: Field, u: nat): int {
    if f.ltype.Uvarint? then u
    else if f.ltype.Svarint? then UnZigZag(u)
    else if f.dataSize == 8 then ToI64(u)
    else ToI32(u)
  }

  function DecScalar(f: Field, s: seq<byte>): (r: Decoded<int>)
    ensures r.Done? ==> |r.rest| < |s|
  {
    if f.ltype.Fixed32? || f.ltype.Fixed64? then
      var n := if f.ltype.Fixed32? then 4 else 8;
      if |s| < n then Failed else Done(FixedValue(s[..n]), s[n..])
    else
      match DecU64(s)
      case Failed => Failed
      case Done(u, rest) =>
        var n := VarintToInt(f, u);
        if f.dataSize in {1, 2, 4, 8} && NumFits(f, n) then Done(n, rest) else Failed
  }

  /** A C string ends at its first NUL. */
  function CutNul(bs: seq<byte>): (cs: seq<byte>)
    ensures 0 !in cs && |cs| <= |bs|
  {
    if bs == [] || bs[0] == 0 then [] else [bs[0]] + CutNul(bs[1..])
  }

  /** `pb_dec_fixed_length_bytes`: an empty payload stands for all zeros. */
  function DecFixedLength(f: Field, s: seq<byte>): (r: Decoded<Value>)
    ensures r.Done? ==> |r.rest| < |s|
  {
    match DecVarint(s, 32)
    case Stuck(_) => Failed
    case Parsed(size, rest) =>
      if size == 0 then Done(Blob(seq(f.dataSize, _ => 0)), rest)
      else if size != f.dataSize || |rest| < size then Failed
      else Done(Blob(rest[..size]), rest[size..])
  }

  /** `pb_dec_bytes` and `pb_dec_string`. */
  function DecBuffer(f: Field, s: seq<byte>): (r: Decoded<Value>)
    ensures r.Done? ==> |r.rest| < |s|
  {
    match Substream(s)
    case Failed => Failed
    case Done(body, rest) =>
      if f.ltype.Bytes? then
        if |body| + BYTES_OFFSET > f.dataSize then Failed else Done(Blob(body), rest)
      else
        if |body| + 1 > f.dataSize then Failed else Done(Text(CutNul(body)), rest)
  }

  /** One payload.  `cur` is what the destination holds; only submessages read it. */
  function DecValue(f: Field, s: seq<byte>, cur: Value): (r: Decoded<Value>)
    ensures r.Done? ==> |r.rest| < |s|
    decreases f, 0, 0
  {
    if Packable(f.ltype) then
      match DecScalar(f, s)
      case Failed => Failed
      case Done(n, rest) => Done(Num(n), rest)
    else if f.ltype.FixedLengthBytes? then DecFixedLength(f, s)
    else if f.ltype.Submessage? then
      match Substream(s)
      case Failed => Failed
      case Done(body, rest) =>
        match DecMessage(f.ltype.fields, body, if cur.Struct? then cur.slots else Defaults(f.ltype.fields))
        case Failed => Failed
        case Done(m, _) => Done(Struct(m), rest)
    else DecBuffer(f, s)
  }

  // ---------- fields ----------

  /** The entries of a packed array, appended while there is room. */
  function DecPacked(f: Field, s: seq<byte>, items: seq<Value>): (r: Decoded<seq<Value>>)
    decreases |s|
  {
    if s == [] then Done(items, [])
    else if |items| >= f.arraySize then Failed
    else
      match DecScalar(f, s)
      case Failed => Failed
      case Done(n, rest) => DecPacked(f, rest, items + [Num(n)])
  }

  /** The packed branch of `decode_static_field`. */
  function DecPackedField(f: Field, s: seq<byte>, entries: seq<Value>): (r: Decoded<seq<Value>>)
    ensures r.Done? ==> |r.rest| < |s|
  {
    match Substream(s)
    case Failed => Failed
    case Done(body, rest) =>
      match DecPacked(f, body, entries)
      case Failed => Failed
      case Done(items, _) => Done(items, rest)
  }

  /** What a value is decoded into: the current contents, or, for a new array entry or
      a union member, the defaults. */
  function Target(f: Field, slot: Slot): Value {
    if !f.htype.Repeated? && !f.htype.Oneof? && (slot.One? || slot.Maybe?) then slot.v else DefaultValue(f)
  }

  function Store(f: Field, slot: Slot, v: Value): Slot {
    match f.htype
    case Required => One(v)
    case Singular => One(v)
    case Optional => Maybe(true, v)
    case Repeated => Many(Entries(slot) + [v])
    case Oneof => Member(f.tag, v)
  }

  function Entries(slot: Slot): seq<Value> {
    if slot.Many? then slot.items else []
  }

  predicate IsPacked(f: Field, wt: nat) {
    f.htype.Repeated? && wt == WT_STRING && Packable(f.ltype)
  }

  /** `decode_static_field`. */
  function DecField(f: Field, wt: nat, s: seq<byte>, slot: Slot): (r: Decoded<Slot>)
    ensures r.Done? ==> |r.rest| < |s|
    decreases f, 1, 0
  {
    if IsPacked(f, wt) then
      match DecPackedField(f, s, Entries(slot))
      case Failed => Failed
      case Done(items, rest) => Done(Many(items), rest)
    else if f.htype.Repeated? && |Entries(slot)| >= f.arraySize then Failed
    else
      match DecValue(f, s, Target(f, slot))
      case Failed => Failed
      case Done(v, rest) => Done(Store(f, slot, v), rest)
  }

  // ---------- messages ----------

  /** The position of a tag, or the number of fields if there is none. */
  function Find(fs: seq<Field>, tag: nat): (i: nat)
    ensures i <= |fs|
    ensures i < |fs| ==> fs[i].tag == tag
    ensures forall j :: 0 <= j < i ==> fs[j].tag != tag
  {
    FindFrom(fs, tag, 0)
  }

  function FindFrom(fs: seq<Field>, tag: nat, i: nat): (r: nat)
    requires i <= |fs|
    ensures i <= r <= |fs|
    ensures r < |fs| ==> fs[r].tag == tag
    ensures forall j :: i <= j < r ==> fs[j].tag != tag
    decreases |fs| - i
  {
    if i == |fs| || fs[i].tag == tag then i else FindFrom(fs, tag, i + 1)
  }

  /** Where the field loop stands: the struct, the required fields seen, and whether the
      loop ended at the end of its input rather than at a cut-off or zero tag. */
  datatype Progress = Progress(dest: Msg, seen: set<nat>, clean: bool)

  function Seen(fs: seq<Field>, seen: set<nat>, i: nat): set<nat>
    requires i < |fs|
  {
    if fs[i].htype.Required? then seen + {i} else seen
  }

  /** The field loop of `pb_decode_noinit`.  With no descriptor at all, the iterator rests
      on the terminator, whose tag 0 a zero field number matches; that field fails. */
  function DecLoop(fs: seq<Field>, s: seq<byte>, dest: Msg, seen: set<nat>): Decoded<Progress>
    decreases fs, 0, |s|
  {
    if s == [] then Done(Progress(dest, seen, true), [])
    else
      match DecTag(s)
      case BadTag => Failed
      case End(left) => Done(Progress(dest, seen, false), left)
      case Tag(wt, tag, rest) =>
        var i := Find(fs, tag);
        if i == |fs| then
          if fs == [] && tag == 0 then Failed
          else
            match SkipField(wt, rest)
            case Failed => Failed
            case Done(_, rest') => DecLoop(fs, rest', dest, seen)
        else
          match DecField(fs[i], wt, rest, SlotAt(fs, dest, i))
          case Failed => Failed
          case Done(slot, rest') => DecLoop(fs, rest', Put(fs, dest, i, slot), Seen(fs, seen, i))
  }

  predicate AllRequiredSeen(fs: seq<Field>, seen: set<nat>) {
    forall i :: 0 <= i < |fs| && fs[i].htype.Required? ==> i in seen
  }

  /** What the platform makes of shifting a 32-bit word right by 32, which C leaves
      undefined. */
  const SHIFT_BY_32: nat

  /** With exactly 32 required fields, the final check compares an empty word with the
      result of that shift. */
  predicate Checkable(fs: seq<Field>) {
    RequiredCount(fs) == 32 ==> SHIFT_BY_32 == 0
  }

  /** `pb_decode_noinit`, for at most 63 required fields: the loop, then the check that
      every required field was seen. */
  function DecMessage(fs: seq<Field>, s: seq<byte>, dest: Msg): Decoded<Msg>
    decreases fs, 1, 0
  {
    match DecLoop(fs, s, dest, {})
    case Failed => Failed
    case Done(p, rest) =>
      if AllRequiredSeen(fs, p.seen) && Checkable(fs) then Done(p.dest, rest) else Failed
  }

  /** `pb_decode`. */
  function DecodeMessage(fs: seq<Field>, s: seq<byte>): Decoded<Msg> {
    DecMessage(fs, s, Defaults(fs))
  }

  // ---------- decoding keeps values within their descriptor ----------

  lemma DecVarint32Bound(s: seq<byte>)
    ensures DecVarint(s, 32).Parsed? ==> DecVarint(s, 32).value < TWO_32
  {
    DecVarintBound(s, 0, 0, 32);
    Pow2Widths();
  }

  lemma {:induction false} FixedValueBound(bs: seq<byte>)
    ensures FixedValue(bs) < Pow2(8 * |bs|)
  {
    if bs != [] {
      FixedValueBound(bs[1..]);
      assert Pow2(8) == 256;
      Pow2Add(8, 8 * |bs[1..]|);
    }
  }

  lemma DecScalarFits(f: Field, s: seq<byte>)
    requires Packable(f.ltype)
    ensures DecScalar(f, s).Done? ==> NumFits(f, DecScalar(f, s).value)
  {
    if f.ltype.Fixed32? || f.ltype.Fixed64? {
      var n := if f.ltype.Fixed32? then 4 else 8;
      if |s| >= n {
        FixedValueBound(s[..n]);
        Pow2Widths();
      }
    }
  }

  lemma PackedValueOk(f: Field, s: seq<byte>)
    requires Packable(f.ltype) && DecScalar(f, s).Done?
    ensures ValueOk(f, Num(DecScalar(f, s).value))
  {
    DecScalarFits(f, s);
  }

  lemma OneMoreOk(f: Field, items: seq<Value>, v: Value)
    requires (forall j :: 0 <= j < |items| ==> ValueOk(f, items[j])) && ValueOk(f, v)
    ensures forall j :: 0 <= j < |items + [v]| ==> ValueOk(f, (items + [v])[j])
  {
  }

  lemma {:induction false} DecPackedFits(f: Field, s: seq<byte>, items: seq<Value>)
    requires Packable(f.ltype) && forall j :: 0 <= j < |items| ==> ValueOk(f, items[j])
    ensures var r := DecPacked(f, s, items);
            r.Done? ==> forall j :: 0 <= j < |r.value| ==> ValueOk(f, r.value[j])
    decreases |s|
  {
    if s != [] && |items| < f.arraySize && DecScalar(f, s).Done? {
      PackedValueOk(f, s);
      OneMoreOk(f, items, Num(DecScalar(f, s).value));
      DecPackedFits(f, DecScalar(f, s).rest, items + [Num(DecScalar(f, s).value)]);
    }
  }

  lemma DecBufferFits(f: Field, s: seq<byte>)
    requires f.ltype.Bytes? || f.ltype.String?
    ensures DecBuffer(f, s).Done? ==> ValueOk(f, DecBuffer(f, s).value)
  {
    DecVarint32Bound(s);
  }

  lemma DecFixedLengthFits(f: Field, s: seq<byte>)
    requires f.ltype.FixedLengthBytes?
    ensures DecFixedLength(f, s).Done? ==> ValueOk(f, DecFixedLength(f, s).value)
  {
  }

  lemma {:induction false} DecValueFits(f: Field, s: seq<byte>, cur: Value)
    requires WfField(f) && (f.ltype.Submessage? ==> ValueOk(f, cur))
    ensures DecValue(f, s, cur).Done? ==> ValueOk(f, DecValue(f, s, cur).value)
    decreases f, 0, 0
  {
    if Packable(f.ltype) {
      if DecScalar(f, s).Done? {
        PackedValueOk(f, s);
      }
    } else if f.ltype.FixedLengthBytes? {
      DecFixedLengthFits(f, s);
    } else if f.ltype.Submessage? {
      if Substream(s).Done? {
        DecMessageFits(f.ltype.fields, Substream(s).value, cur.slots);
      }
    } else {
      DecBufferFits(f, s);
    }
  }

  lemma DecPackedFieldFits(f: Field, s: seq<byte>, slot: Slot)
    requires Packable(f.ltype) && f.htype.Repeated? && SlotOk(f, slot)
    ensures var r := DecPackedField(f, s, Entries(slot)); r.Done? ==> SlotOk(f, Many(r.value))
  {
    if Substream(s).Done? {
      DecPackedFits(f, Substream(s).value, slot.items);
      var r := DecPacked(f, Substream(s).value, slot.items);
      if r.Done? {
        ManyOk(f, r.value);
      }
    }
  }

  lemma ManyOk(f: Field, items: seq<Value>)
    requires f.htype.Repeated? && forall j :: 0 <= j < |items| ==> ValueOk(f, items[j])
    ensures SlotOk(f, Many(items))
  {
  }

  lemma {:induction false} DecFieldFits(f: Field, wt: nat, s: seq<byte>, slot: Slot)
    requires WfField(f) && SlotOk(f, slot)
    ensures var r := DecField(f, wt, s, slot);
            r.Done? ==> SlotOk(f, r.value) && (f.htype.Oneof? ==> r.value.Member? && r.value.which == f.tag)
    decreases f, 1, 0
  {
    if IsPacked(f, wt) {
      DecPackedFieldFits(f, s, slot);
    } else {
      DefaultValueOk(f);
      DecValueFits(f, s, Target(f, slot));
    }
  }

  lemma {:induction false} DecLoopFits(fs: seq<Field>, s: seq<byte>, dest: Msg, seen: set<nat>)
    requires WfFields(fs) && MessageOk(fs, dest)
    ensures DecLoop(fs, s, dest, seen).Done? ==> MessageOk(fs, DecLoop(fs, s, dest, seen).value.dest)
    decreases fs, 0, |s|
  {
    if s != [] && DecTag(s).Tag? {
      var Tag(wt, tag, rest) := DecTag(s);
      var i := Find(fs, tag);
      if i == |fs| {
        if SkipField(wt, rest).Done? {
          DecLoopFits(fs, SkipField(wt, rest).rest, dest, seen);
        }
      } else {
        var r := DecField(fs[i], wt, rest, SlotAt(fs, dest, i));
        if r.Done? {
          DecFieldFits(fs[i], wt, rest, SlotAt(fs, dest, i));
          PutOk(fs, dest, i, r.value);
          DecLoopFits(fs, r.rest, Put(fs, dest, i, r.value), Seen(fs, seen, i));
        }
      }
    }
  }

  /** Whatever bytes arrive, a successful decode leaves every value of the type, and every
      number in the range, that its descriptor gives it, and the struct laid out as it was.
      Module `Capacity` adds the sizes of arrays and buffers. */
  lemma {:induction false} DecMessageFits(fs: seq<Field>, s: seq<byte>, dest: Msg)
    requires WfFields(fs) && MessageOk(fs, dest)
    ensures DecMessage(fs, s, dest).Done? ==> MessageOk(fs, DecMessage(fs, s, dest).value)
    decreases fs, 1, 0
  {
    DecLoopFits(fs, s, dest, {});
  }
}
