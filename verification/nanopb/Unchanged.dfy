/**
 When a decoded message survives being encoded and decoded again.  Encoding drops the
 contents of absent fields, and of fields of implicit presence that pass for their
 default; a decoded message has nothing in its absent fields, so it comes back unchanged
 exactly when, at every level, what passes for the default is the default.
 */
module Unchanged {
  import opened Words
  import opened Message
  import opened Encode
  import opened Decode
  import opened RoundTrip
  import opened Capacity

  // ---------- nothing in what is absent ----------

  ghost predicate TidyValue(f: Field, v: Value)
    decreases v, 0
  {
    f.ltype.Submessage? ==> v.Struct? && Tidy(f.ltype.fields, v.slots)
  }

  ghost predicate TidySlot(f: Field, slot: Slot)
    decreases slot, 0
  {
    match f.htype
    case Required => slot.One? && TidyValue(f, slot.v)
    case Singular => slot.One? && TidyValue(f, slot.v)
    case Optional => slot.Maybe? && if slot.has then TidyValue(f, slot.v) else slot.v == DefaultValue(f)
    case Repeated => slot.Many? && forall j :: 0 <= j < |slot.items| ==> TidyValue(f, slot.items[j])
    case Oneof => slot.NoMember? || (slot.Member? && (slot.which == f.tag ==> TidyValue(f, slot.v)))
  }

  predicate Owns(fs: seq<Field>, i: nat, j: nat, which: nat)
    requires i < |fs| && j < |fs|
  {
    SlotIndex(fs, j) == SlotIndex(fs, i) && fs[j].tag == which && fs[j].htype.Oneof?
  }

  /** The member a union holds is one of its own. */
  ghost predicate Owned(fs: seq<Field>, i: nat, slot: Slot)
    requires i < |fs|
  {
    slot.Member? ==> exists j :: 0 <= j < |fs| && Owns(fs, i, j, slot.which)
  }

  ghost predicate TidyAt(fs: seq<Field>, m: Msg, i: nat)
    requires i < |fs|
    decreases m, 0, 0
  {
    SlotIndex(fs, i) < |m| && TidySlot(fs[i], m[SlotIndex(fs, i)]) && Owned(fs, i, m[SlotIndex(fs, i)])
  }

  /** Absent optional fields hold their defaults, and unions a member of their own, at
      every level. */
  ghost predicate Tidy(fs: seq<Field>, m: Msg)
    decreases m, 0, 1
  {
    |m| == SlotCount(fs) && forall i :: 0 <= i < |fs| ==> TidyAt(fs, m, i)
  }

  // ---------- decoding leaves it so ----------

  lemma {:induction false} DefaultsTidy(fs: seq<Field>)
    ensures Tidy(fs, Defaults(fs))
    decreases fs, 0
  {
    forall i | 0 <= i < |fs|
      ensures TidyAt(fs, Defaults(fs), i)
    {
      DefaultsUpToAt(fs, |fs|, i);
      DefaultTidy(fs[i]);
    }
  }

  lemma {:induction false} DefaultTidy(f: Field)
    ensures TidyValue(f, DefaultValue(f))
    decreases f, 0
  {
    if f.ltype.Submessage? {
      DefaultsTidy(f.ltype.fields);
    }
  }

  lemma PutTidyAt(fs: seq<Field>, m: Msg, i: nat, slot: Slot, j: nat)
    requires DistinctTags(fs) && Tidy(fs, m) && i < |fs| && j < |fs| && TidySlot(fs[i], slot)
    requires fs[i].htype.Oneof? ==> slot.Member? && slot.which == fs[i].tag
    ensures TidyAt(fs, Put(fs, m, i, slot), j)
  {
    assert TidyAt(fs, m, j) && TidyAt(fs, m, i);
    if SlotIndex(fs, j) == SlotIndex(fs, i) {
      if j != i {
        SlotIndexMonotone(fs, if i < j then i else j, if i < j then j else i);
        assert fs[j].tag != fs[i].tag;
      }
      if slot.Member? {
        assert Owns(fs, j, i, slot.which);
      }
    }
  }

  lemma PutTidy(fs: seq<Field>, m: Msg, i: nat, slot: Slot)
    requires DistinctTags(fs) && Tidy(fs, m) && i < |fs| && TidySlot(fs[i], slot)
    requires fs[i].htype.Oneof? ==> slot.Member? && slot.which == fs[i].tag
    ensures Tidy(fs, Put(fs, m, i, slot))
  {
    forall j | 0 <= j < |fs|
      ensures TidyAt(fs, Put(fs, m, i, slot), j)
    {
      PutTidyAt(fs, m, i, slot, j);
    }
  }

  lemma {:induction false} DecValueTidy(f: Field, s: seq<byte>, cur: Value)
    requires WfField(f) && TidyValue(f, cur)
    ensures DecValue(f, s, cur).Done? ==> TidyValue(f, DecValue(f, s, cur).value)
    decreases f, 0
  {
    if f.ltype.Submessage? && Substream(s).Done? {
      DecMessageTidy(f.ltype.fields, Substream(s).value, cur.slots);
    }
  }

  lemma {:induction false} DecFieldTidy(f: Field, wt: nat, s: seq<byte>, slot: Slot)
    requires WfField(f) && TidySlot(f, slot)
    ensures var r := DecField(f, wt, s, slot);
            r.Done? ==> TidySlot(f, r.value) && (f.htype.Oneof? ==> r.value.Member? && r.value.which == f.tag)
    decreases f, 1
  {
    if !IsPacked(f, wt) {
      DefaultTidy(f);
      DecValueTidy(f, s, Target(f, slot));
    }
  }

  lemma {:induction false} StoredTidy(fs: seq<Field>, i: nat, wt: nat, s: seq<byte>, dest: Msg)
    requires WfFields(fs) && Tidy(fs, dest) && i < |fs|
    ensures var r := DecField(fs[i], wt, s, SlotAt(fs, dest, i));
            r.Done? ==> Tidy(fs, Put(fs, dest, i, r.value))
    decreases fs, 0
  {
    assert TidyAt(fs, dest, i);
    var r := DecField(fs[i], wt, s, SlotAt(fs, dest, i));
    if r.Done? {
      DecFieldTidy(fs[i], wt, s, SlotAt(fs, dest, i));
      PutTidy(fs, dest, i, r.value);
    }
  }

  lemma {:induction false} DecLoopTidy(fs: seq<Field>, s: seq<byte>, dest: Msg, seen: set<nat>)
    requires WfFields(fs) && Tidy(fs, dest)
    ensures DecLoop(fs, s, dest, seen).Done? ==> Tidy(fs, DecLoop(fs, s, dest, seen).value.dest)
    decreases fs, 1, |s|
  {
    if s != [] && DecTag(s).Tag? {
      var Tag(wt, tag, rest) := DecTag(s);
      var i := Find(fs, tag);
      if i == |fs| {
        if SkipField(wt, rest).Done? {
          DecLoopTidy(fs, SkipField(wt, rest).rest, dest, seen);
        }
      } else {
        var r := DecField(fs[i], wt, rest, SlotAt(fs, dest, i));
        if r.Done? {
          StoredTidy(fs, i, wt, rest, dest);
          DecLoopTidy(fs, r.rest, Put(fs, dest, i, r.value), Seen(fs, seen, i));
        }
      }
    }
  }

  /** Whatever the input, a decoded message holds nothing in its absent fields that was not
      there before. */
  lemma {:induction false} DecMessageTidy(fs: seq<Field>, s: seq<byte>, dest: Msg)
    requires WfFields(fs) && Tidy(fs, dest)
    ensures DecMessage(fs, s, dest).Done? ==> Tidy(fs, DecMessage(fs, s, dest).value)
    decreases fs, 2
  {
    DecLoopTidy(fs, s, dest, {});
  }

  // ---------- what is lost ----------

  predicate ShownValue(f: Field, v: Value)
    decreases v, 0
  {
    f.ltype.Submessage? && v.Struct? ==> Shown(f.ltype.fields, v.slots)
  }

  /** What is sent is shown, and what passes for the default is the default. */
  predicate ShownSlot(f: Field, slot: Slot)
    decreases slot, 0
  {
    match slot
    case One(v) => if f.htype.Singular? && IsZero(f, v) then v == DefaultValue(f) else ShownValue(f, v)
    case Maybe(has, v) => has ==> ShownValue(f, v)
    case Many(items) => forall j :: 0 <= j < |items| ==> ShownValue(f, items[j])
    case NoMember => true
    case Member(which, v) => which == f.tag ==> ShownValue(f, v)
  }

  predicate ShownAt(fs: seq<Field>, m: Msg, i: nat)
    requires i < |fs|
    decreases m, 0, 0
  {
    SlotIndex(fs, i) < |m| ==> ShownSlot(fs[i], m[SlotIndex(fs, i)])
  }

  /** At no level does a field of implicit presence pass for its default and differ from it. */
  predicate Shown(fs: seq<Field>, m: Msg)
    decreases m, 0, 1
  {
    forall i :: 0 <= i < |fs| ==> ShownAt(fs, m, i)
  }

  lemma {:induction false} ValueSame(f: Field, v: Value)
    requires WfField(f) && TidyValue(f, v)
    ensures CanonValue(f, v) == v <==> ShownValue(f, v)
    decreases v, 0
  {
    if f.ltype.Submessage? {
      CanonSame(f.ltype.fields, v.slots);
    }
  }

  lemma {:induction false} ItemsSame(f: Field, items: seq<Value>)
    requires WfField(f) && forall j :: 0 <= j < |items| ==> TidyValue(f, items[j])
    ensures CanonItems(f, items) == items <==> forall j :: 0 <= j < |items| ==> ShownValue(f, items[j])
    decreases items, 0
  {
    forall j | 0 <= j < |items|
      ensures CanonItems(f, items)[j] == items[j] <==> ShownValue(f, items[j])
    {
      ValueSame(f, items[j]);
    }
  }

  /** A slot that is sent. */
  lemma {:induction false} SlotSame(f: Field, slot: Slot)
    requires WfField(f) && TidySlot(f, slot) && Emits(f, slot)
    ensures CanonSlot(f, slot) == slot <==> ShownSlot(f, slot)
    decreases slot, 0
  {
    match slot
    case One(v) => ValueSame(f, v);
    case Maybe(_, v) => ValueSame(f, v);
    case Member(_, v) => ValueSame(f, v);
    case Many(items) => ItemsSame(f, items);
    case NoMember =>
  }

  /** A slot that is not sent, outside a union. */
  lemma AbsentSame(f: Field, slot: Slot)
    requires TidySlot(f, slot) && !Emits(f, slot) && !f.htype.Oneof?
    ensures DefaultSlot(f) == slot <==> ShownSlot(f, slot)
  {
  }

  /** A union without a member. */
  lemma NobodySilent(fs: seq<Field>, m: Msg, i: nat)
    requires i < |fs| && SlotIndex(fs, i) < |m| && m[SlotIndex(fs, i)].NoMember? && fs[i].htype.Oneof?
    ensures Silent(fs, m, |fs|, i)
  {
    forall k | 0 <= k < |fs| && SlotIndex(fs, k) == SlotIndex(fs, i)
      ensures !Emits(fs[k], SlotAt(fs, m, k))
    {
      if k != i {
        SlotIndexMonotone(fs, if k < i then k else i, if k < i then i else k);
      }
    }
  }

  /** The field that decides about slot `i`: the union's member, or the only field there is. */
  lemma {:induction false} FieldSame(fs: seq<Field>, m: Msg, i: nat)
    requires WfFields(fs) && Tidy(fs, m) && i < |fs|
    requires !fs[i].htype.Oneof? || SlotAt(fs, m, i).NoMember? || Emits(fs[i], SlotAt(fs, m, i))
    ensures SlotAt(fs, Canon(fs, m), i) == SlotAt(fs, m, i) <==> ShownAt(fs, m, i)
    decreases m, 0, 0
  {
    assert TidyAt(fs, m, i);
    var slot := SlotAt(fs, m, i);
    if fs[i].htype.Oneof? && slot.NoMember? {
      NobodySilent(fs, m, i);
    }
    CanonMeaning(fs, m, i);
    if Emits(fs[i], slot) {
      SlotSame(fs[i], slot);
    } else if !fs[i].htype.Oneof? {
      AbsentSame(fs[i], slot);
    }
  }

  lemma {:induction false} SlotHasField(fs: seq<Field>, n: nat, k: nat) returns (i: nat)
    requires n < |fs| && k <= SlotIndex(fs, n)
    ensures i <= n && SlotIndex(fs, i) == k
    decreases n
  {
    i := n;
    if SlotIndex(fs, n) != k {
      i := SlotHasField(fs, n - 1, k);
    }
  }

  /** The field that decides about a slot. */
  lemma Decider(fs: seq<Field>, m: Msg, i: nat) returns (j: nat)
    requires DistinctTags(fs) && Tidy(fs, m) && i < |fs|
    ensures j < |fs| && SlotIndex(fs, j) == SlotIndex(fs, i)
    ensures !fs[j].htype.Oneof? || SlotAt(fs, m, j).NoMember? || Emits(fs[j], SlotAt(fs, m, j))
    ensures j != i ==> fs[i].htype.Oneof? && !Emits(fs[i], SlotAt(fs, m, i))
  {
    assert TidyAt(fs, m, i);
    var slot := SlotAt(fs, m, i);
    assert TidySlot(fs[i], slot) && Owned(fs, i, slot);
    j := i;
    if fs[i].htype.Oneof? && slot.Member? && slot.which != fs[i].tag {
      j :| 0 <= j < |fs| && Owns(fs, i, j, slot.which);
    }
  }

  /** A message with nothing in its absent fields is what comes back, exactly when nothing
      in it is hidden. */
  lemma {:induction false} CanonSame(fs: seq<Field>, m: Msg)
    requires WfFields(fs) && Tidy(fs, m)
    ensures Canon(fs, m) == m <==> Shown(fs, m)
    decreases m, 1
  {
    if Canon(fs, m) == m {
      forall i | 0 <= i < |fs|
        ensures ShownAt(fs, m, i)
      {
        SameIsShown(fs, m, i);
      }
    }
    if Shown(fs, m) {
      forall k | 0 <= k < |m|
        ensures Canon(fs, m)[k] == m[k]
      {
        ShownIsSame(fs, m, k);
      }
    }
  }

  lemma {:induction false} SameIsShown(fs: seq<Field>, m: Msg, i: nat)
    requires WfFields(fs) && Tidy(fs, m) && Canon(fs, m) == m && i < |fs|
    ensures ShownAt(fs, m, i)
    decreases m, 0, 1
  {
    assert TidyAt(fs, m, i) && TidySlot(fs[i], SlotAt(fs, m, i));
    var j := Decider(fs, m, i);
    if j == i {
      FieldSame(fs, m, i);
    }
  }

  lemma {:induction false} ShownIsSame(fs: seq<Field>, m: Msg, k: nat)
    requires WfFields(fs) && Tidy(fs, m) && Shown(fs, m) && k < |m|
    ensures Canon(fs, m)[k] == m[k]
    decreases m, 0, 1
  {
    var i := SlotHasField(fs, |fs| - 1, k);
    var j := Decider(fs, m, i);
    FieldSame(fs, m, j);
    assert ShownAt(fs, m, j);
  }

  /** A decoded message that is encoded and decoded again comes back unchanged exactly when
      no field of implicit presence in it, at any level, passes for its default without
      being it. */
  lemma DecodedUnchanged(fs: seq<Field>, s: seq<byte>)
    requires WfFields(fs) && DefaultsInRoom(fs) && CheckableThroughout(fs) && DecodeMessage(fs, s).Done?
    ensures EncMessage(fs, DecodeMessage(fs, s).value).Some?
    ensures var m := DecodeMessage(fs, s).value;
            var bs := EncMessage(fs, m).value;
            |bs| < TWO_32 ==> (DecodeMessage(fs, bs) == Done(m, []) <==> Shown(fs, m))
  {
    DecodedReencodes(fs, s);
    DefaultsTidy(fs);
    DecMessageTidy(fs, s, Defaults(fs));
    CanonSame(fs, DecodeMessage(fs, s).value);
  }
}
