/**
 Which fields reach the receiver.  Each kind of field has its own way of being there: a
 required one always is, an optional one by its flag, an array by having entries, a union by
 the member it holds, and a field of implicit presence by not looking like its default.
 What the last means is stated here by what can be seen in the value, not by how the check
 goes about it.
 */
module Presence {
  import opened Words
  import opened Wrappers
  import opened Message
  import opened Encode
  import opened Decode
  import opened RoundTrip

  /** A number, byte string or text with nothing in it. */
  predicate Nothing(v: Value) {
    v == Num(0) || v == Blob([]) || v == Text([])
  }

  lemma TaggedIsLong(f: Field, v: Value)
    ensures EncTagged(f, v).Some? ==> |EncTagged(f, v).value| > 0
  {
    if EncValue(f, v).Some? {
      assert EncTagged(f, v).value == EncTag(WireType(f.ltype), f.tag) + EncValue(f, v).value;
    }
  }

  lemma ArrayIsLong(f: Field, items: seq<Value>)
    requires items != [] && EncArray(f, items).Some?
    ensures |EncArray(f, items).value| > 0
  {
    TaggedIsLong(f, items[0]);
    if Packable(f.ltype) {
      var all := EncItems(f, items, true).value;
      assert EncArray(f, items).value == EncTag(WT_STRING, f.tag) + LenPrefixed(all);
    } else {
      var first, others := EncTagged(f, items[0]).value, EncItems(f, items[1..], false).value;
      assert EncArray(f, items).value == first + others;
    }
  }

  /** A tag is never empty, so a field contributes no bytes only if it is left out. */
  lemma SilentIffNoBytes(f: Field, slot: Slot)
    ensures EncField(f, slot) == Some([]) <==> !Emits(f, slot)
  {
    if Emits(f, slot) && EncField(f, slot).Some? {
      if f.htype.Repeated? {
        ArrayIsLong(f, slot.items);
      } else {
        TaggedIsLong(f, slot.v);
      }
    }
  }

  // ---------- numbers, byte strings and texts ----------

  /** A number, byte string or text of implicit presence contributes no bytes exactly when
      it is zero or empty. */
  lemma OnlyNothingIsHidden(f: Field, v: Value)
    requires WfField(f) && ValueOk(f, v) && f.htype.Singular? && !f.ltype.Submessage?
    ensures EncField(f, One(v)) == Some([]) <==> Nothing(v)
  {
    SilentIffNoBytes(f, One(v));
  }

  /** It comes back as what was stored, unless that is zero or empty: then as the default. */
  lemma ImplicitValueComesBack(fs: seq<Field>, m: Msg, j: nat, v: Value)
    requires WfFields(fs) && MessageOk(fs, m) && j < |fs|
    requires EncMessage(fs, m).Some? && |EncMessage(fs, m).value| < TWO_32
    requires DecodeMessage(fs, EncMessage(fs, m).value).Done?
    requires fs[j].htype.Singular? && !fs[j].ltype.Submessage? && SlotAt(fs, m, j) == One(v)
    ensures SlotAt(fs, DecodeMessage(fs, EncMessage(fs, m).value).value, j)
         == One(if Nothing(v) then fs[j].default else v)
  {
    DecodeAfterEncode(fs, m);
    CanonMeaning(fs, m, j);
    assert SlotOk(fs[j], m[SlotIndex(fs, j)]);
  }

  /** So with a default of zero, which is the only one proto3 has, every value comes back. */
  lemma EveryValueComesBack(fs: seq<Field>, m: Msg, j: nat)
    requires WfFields(fs) && MessageOk(fs, m) && j < |fs|
    requires EncMessage(fs, m).Some? && |EncMessage(fs, m).value| < TWO_32
    requires DecodeMessage(fs, EncMessage(fs, m).value).Done?
    requires fs[j].htype.Singular? && !fs[j].ltype.Submessage? && Nothing(fs[j].default)
    ensures SlotAt(fs, DecodeMessage(fs, EncMessage(fs, m).value).value, j) == SlotAt(fs, m, j)
  {
    assert SlotOk(fs[j], m[SlotIndex(fs, j)]) && WfField(fs[j]);
    ImplicitValueComesBack(fs, m, j, SlotAt(fs, m, j).v);
  }

  // ---------- submessages ----------

  /** What stands first in the storage of a field of the struct: the value, the first entry
      of an array, the member of the union if it is this one.  Whether an optional value is
      flagged does not matter. */
  function Front(f: Field, slot: Slot): Option<Value> {
    match slot
    case One(v) => Some(v)
    case Maybe(_, v) => Some(v)
    case Many(items) => if items == [] then None else Some(items[0])
    case NoMember => None
    case Member(which, v) => if which == f.tag then Some(v) else None
  }

  /** The number, byte string or text a path of field positions leads to. */
  function Reached(f: Field, v: Value, path: seq<nat>): Option<Value>
    decreases path
  {
    if !f.ltype.Submessage? then (if path == [] then Some(v) else None)
    else if path == [] || path[0] >= |f.ltype.fields| || !v.Struct? then None
    else
      var g := f.ltype.fields[path[0]];
      match Front(g, SlotAt(f.ltype.fields, v.slots, path[0]))
      case None => None
      case Some(w) => Reached(g, w, path[1..])
  }

  /** The field such a path leads to. */
  function FieldAt(f: Field, path: seq<nat>): Option<Field>
    decreases path
  {
    if path == [] then Some(f)
    else if f.ltype.Submessage? && path[0] < |f.ltype.fields| then FieldAt(f.ltype.fields[path[0]], path[1..])
    else None
  }

  /** Nothing but zeros and empty strings in sight. */
  ghost predicate LooksEmpty(f: Field, v: Value) {
    forall path :: Reached(f, v, path).Some? ==> Nothing(Reached(f, v, path).value)
  }

  predicate IsFixedBytes(f: Field) {
    f.ltype.FixedLengthBytes? && f.dataSize > 0
  }

  /** Byte strings of fixed length count as something whatever they hold, even where the
      message holds none. */
  ghost predicate NoFixedBytes(f: Field) {
    forall path :: FieldAt(f, path).Some? ==> !IsFixedBytes(FieldAt(f, path).value)
  }

  lemma NoFixedBytesInside(f: Field, i: nat)
    requires f.ltype.Submessage? && i < |f.ltype.fields| && NoFixedBytes(f)
    ensures NoFixedBytes(f.ltype.fields[i])
  {
    forall path | FieldAt(f.ltype.fields[i], path).Some?
      ensures !IsFixedBytes(FieldAt(f.ltype.fields[i], path).value)
    {
      assert ([i] + path)[1..] == path;
      assert FieldAt(f, [i] + path) == FieldAt(f.ltype.fields[i], path);
    }
  }

  lemma LooksEmptyInside(f: Field, v: Value, i: nat, w: Value)
    requires f.ltype.Submessage? && v.Struct? && i < |f.ltype.fields| && LooksEmpty(f, v)
    requires Front(f.ltype.fields[i], SlotAt(f.ltype.fields, v.slots, i)) == Some(w)
    ensures LooksEmpty(f.ltype.fields[i], w)
  {
    var g := f.ltype.fields[i];
    forall path | Reached(g, w, path).Some?
      ensures Nothing(Reached(g, w, path).value)
    {
      assert ([i] + path)[1..] == path;
      assert Reached(f, v, [i] + path) == Reached(g, w, path);
    }
  }

  /** Zeroed storage passes the check exactly when no byte string of fixed length is in it. */
  lemma {:induction false} BlankExactly(f: Field)
    ensures BlankIsZero(f) <==> NoFixedBytes(f)
    decreases f
  {
    if BlankIsZero(f) {
      forall path | FieldAt(f, path).Some?
        ensures !IsFixedBytes(FieldAt(f, path).value)
      {
        BlankReaches(f, path);
      }
    } else {
      var path := FixedBytesIn(f);
      assert FieldAt(f, path).Some? && IsFixedBytes(FieldAt(f, path).value);
    }
  }

  lemma {:induction false} BlankReaches(f: Field, path: seq<nat>)
    requires BlankIsZero(f) && FieldAt(f, path).Some?
    ensures !IsFixedBytes(FieldAt(f, path).value)
    decreases path
  {
    if path != [] {
      BlankReaches(f.ltype.fields[path[0]], path[1..]);
    }
  }

  lemma {:induction false} FixedBytesIn(f: Field) returns (path: seq<nat>)
    requires !BlankIsZero(f)
    ensures FieldAt(f, path).Some? && IsFixedBytes(FieldAt(f, path).value)
    decreases f
  {
    if f.ltype.FixedLengthBytes? {
      path := [];
    } else {
      var i :| 0 <= i < |f.ltype.fields| && !BlankIsZero(f.ltype.fields[i]);
      var rest := FixedBytesIn(f.ltype.fields[i]);
      path := [i] + rest;
      assert path[1..] == rest;
    }
  }

  // ---------- what is hidden looks empty ----------

  lemma {:induction false} HiddenReaches(f: Field, v: Value, path: seq<nat>)
    requires ValueOk(f, v) && IsZero(f, v) && Reached(f, v, path).Some?
    ensures Nothing(Reached(f, v, path).value)
    decreases path
  {
    if f.ltype.Submessage? {
      var fs, i := f.ltype.fields, path[0];
      SlotsZeroAt(fs, v.slots, 0, i);
      var w := Front(fs[i], SlotAt(fs, v.slots, i)).value;
      assert SlotOk(fs[i], v.slots[SlotIndex(fs, i)]);
      HiddenReaches(fs[i], w, path[1..]);
    }
  }

  lemma {:induction false} SlotsZeroAt(fs: seq<Field>, m: Msg, k: nat, i: nat)
    requires SlotsZero(fs, m, k) && k <= i < |fs|
    ensures SlotIndex(fs, i) < |m| && SlotZero(fs[i], m[SlotIndex(fs, i)])
    decreases |fs| - k
  {
    if k < i {
      SlotsZeroAt(fs, m, k + 1, i);
    }
  }

  lemma {:induction false} HiddenIsBlank(f: Field, v: Value)
    requires ValueOk(f, v) && IsZero(f, v)
    ensures BlankIsZero(f)
    decreases v, 0
  {
    if f.ltype.Submessage? {
      forall i | 0 <= i < |f.ltype.fields|
        ensures BlankIsZero(f.ltype.fields[i])
      {
        SlotsZeroAt(f.ltype.fields, v.slots, 0, i);
        HiddenSlotIsBlank(f.ltype.fields[i], v.slots[SlotIndex(f.ltype.fields, i)]);
      }
    }
  }

  lemma {:induction false} HiddenSlotIsBlank(f: Field, slot: Slot)
    requires SlotOk(f, slot) && SlotZero(f, slot)
    ensures BlankIsZero(f)
    decreases slot, 0
  {
    if Front(f, slot).Some? {
      HiddenIsBlank(f, Front(f, slot).value);
    }
  }

  // ---------- what looks empty is hidden ----------

  lemma {:induction false} EmptyIsHidden(f: Field, v: Value)
    requires ValueOk(f, v) && LooksEmpty(f, v) && NoFixedBytes(f)
    ensures IsZero(f, v)
    decreases v, 1, 0
  {
    if f.ltype.Submessage? {
      EmptySlotsHidden(f, v, 0);
    } else {
      assert Reached(f, v, []) == Some(v);
      assert FieldAt(f, []) == Some(f);
    }
  }

  lemma {:induction false} EmptySlotsHidden(f: Field, v: Value, i: nat)
    requires f.ltype.Submessage? && ValueOk(f, v) && LooksEmpty(f, v) && NoFixedBytes(f) && i <= |f.ltype.fields|
    ensures SlotsZero(f.ltype.fields, v.slots, i)
    decreases v, 0, |f.ltype.fields| - i
  {
    var fs := f.ltype.fields;
    if i < |fs| {
      var g, slot := fs[i], v.slots[SlotIndex(fs, i)];
      assert SlotOk(g, slot);
      NoFixedBytesInside(f, i);
      BlankExactly(g);
      if Front(g, slot).Some? {
        LooksEmptyInside(f, v, i, Front(g, slot).value);
        EmptyIsHidden(g, Front(g, slot).value);
      }
      EmptySlotsHidden(f, v, i + 1);
    }
  }

  /** Of a field of implicit presence, of whatever type, nothing is sent exactly when no
      path through first entries and present members leads to anything but zeros and empty
      strings, and the descriptor has no byte string of fixed length. */
  lemma HiddenExactly(f: Field, v: Value)
    requires f.htype.Singular? && ValueOk(f, v)
    ensures EncField(f, One(v)) == Some([]) <==> LooksEmpty(f, v) && NoFixedBytes(f)
  {
    SilentIffNoBytes(f, One(v));
    if IsZero(f, v) {
      forall path | Reached(f, v, path).Some?
        ensures Nothing(Reached(f, v, path).value)
      {
        HiddenReaches(f, v, path);
      }
      HiddenIsBlank(f, v);
      BlankExactly(f);
    } else if LooksEmpty(f, v) && NoFixedBytes(f) {
      EmptyIsHidden(f, v);
    }
  }

  // ---------- what comes back ----------

  /** A submessage of implicit presence comes back as its defaults if it looks empty, and
      otherwise with what reaches the receiver of its fields. */
  lemma ImplicitMessageComesBack(fs: seq<Field>, m: Msg, j: nat, inner: Msg)
    requires WfFields(fs) && MessageOk(fs, m) && j < |fs|
    requires EncMessage(fs, m).Some? && |EncMessage(fs, m).value| < TWO_32
    requires DecodeMessage(fs, EncMessage(fs, m).value).Done?
    requires fs[j].htype.Singular? && fs[j].ltype.Submessage? && SlotAt(fs, m, j) == One(Struct(inner))
    ensures var sub := fs[j].ltype.fields;
            SlotAt(fs, DecodeMessage(fs, EncMessage(fs, m).value).value, j)
            == One(Struct(if LooksEmpty(fs[j], Struct(inner)) && NoFixedBytes(fs[j]) then Defaults(sub)
                          else Canon(sub, inner)))
  {
    DecodeAfterEncode(fs, m);
    CanonMeaning(fs, m, j);
    assert SlotOk(fs[j], m[SlotIndex(fs, j)]);
    HiddenExactly(fs[j], Struct(inner));
    SilentIffNoBytes(fs[j], One(Struct(inner)));
  }

  /** What comes back of one value that was sent. */
  function Back(f: Field, v: Value): Value {
    if f.ltype.Submessage? && v.Struct? then Struct(Canon(f.ltype.fields, v.slots)) else v
  }

  /** A required field always comes back, an optional one if it was flagged, an array with
      all its entries in order, and a union with the member it held. */
  lemma ExplicitComesBack(fs: seq<Field>, m: Msg, j: nat)
    requires WfFields(fs) && MessageOk(fs, m) && j < |fs| && !fs[j].htype.Singular?
    requires EncMessage(fs, m).Some? && |EncMessage(fs, m).value| < TWO_32
    requires DecodeMessage(fs, EncMessage(fs, m).value).Done?
    ensures var f, slot := fs[j], SlotAt(fs, m, j);
            var back := SlotAt(fs, DecodeMessage(fs, EncMessage(fs, m).value).value, j);
            match slot
            case One(v) => back == One(Back(f, v))
            case Maybe(has, v) => back == Maybe(has, if has then Back(f, v) else DefaultValue(f))
            case Many(items) => back == Many(seq(|items|, k requires 0 <= k < |items| => Back(f, items[k])))
            case Member(which, v) => which == f.tag ==> back == Member(which, Back(f, v))
            case NoMember => true
  {
    DecodeAfterEncode(fs, m);
    CanonMeaning(fs, m, j);
    assert SlotOk(fs[j], m[SlotIndex(fs, j)]);
    var f, slot := fs[j], SlotAt(fs, m, j);
    if slot.Many? {
      assert CanonItems(f, slot.items) == seq(|slot.items|, k requires 0 <= k < |slot.items| => Back(f, slot.items[k]));
    }
  }
}
