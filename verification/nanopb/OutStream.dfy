/**
 The encoder as it runs: an output stream over a byte buffer, with the dry run that
 sizes each submessage before it is written.  Every method's contract says that the
 stream receives exactly the bytes the functions of module `Encode` describe, or that
 the call fails, which it does exactly when there are no such bytes or no room for them.
 */
module OutStream {
  import opened Words
  import opened Wrappers
  import opened Wire
  import opened Message
  import opened Encode
  import opened FieldIter

  lemma {:induction false} VarintLength(v: nat, n: nat)
    requires v < Pow2(7 * n + 7)
    ensures |EncVarint(v)| <= n + 1
    decreases n
  {
    assert Pow2(7) == 128;
    if v >= 128 {
      Pow2Seven(7 * n);
      if n > 0 {
        VarintLength(v / 128, n - 1);
      }
    }
  }

  lemma VarintAtMostTen(v: nat)
    requires v < TWO_64
    ensures |EncVarint(v)| <= 10
  {
    Pow2Widths();
    Pow2Monotone(64, 70);
    VarintLength(v, 9);
  }

  /** One round of the byte loop. */
  lemma OneGroup(value: nat, done: seq<byte>, rest: nat)
    requires EncVarint(value) == done + EncVarint(rest)
    ensures |EncVarint(rest)| == if rest < 128 then 1 else 1 + |EncVarint(rest / 128)|
    ensures rest < 128 ==> rest / 128 == 0 && rest % 128 == rest && EncVarint(value) == done + [rest]
    ensures rest >= 128 ==>
      rest / 128 > 0 && EncVarint(value) == done + [rest % 128 + 128] + EncVarint(rest / 128)
  {
  }

  lemma FixedTwo(v: nat, n: nat)
    requires n >= 2
    ensures EncFixed(v, n) == [v % 256, v / 0x100 % 256] + EncFixed(v / 0x1_0000, n - 2)
  {
    assert EncFixed(v / 0x100, n - 1) == [v / 0x100 % 256] + EncFixed(v / 0x100 / 0x100, n - 2);
  }

  lemma FixedFour(v: nat, n: nat)
    requires n >= 4
    ensures EncFixed(v, n)
         == [v % 256, v / 0x100 % 256, v / 0x1_0000 % 256, v / 0x100_0000 % 256] + EncFixed(v / TWO_32, n - 4)
  {
    var h := v / 0x1_0000;
    FixedTwo(v, n);
    FixedTwo(h, n - 2);
    DivDiv(v, 0x1_0000, 0x100);
    DivDiv(v, 0x1_0000, 0x1_0000);
  }

  lemma DivDiv(v: nat, p: nat, q: nat)
    requires p > 0 && q > 0
    ensures p * q > 0 && v / p / q == v / (p * q)
  {
    var h, l := v / p, v % p;
    var d, r := h / q, h % q;
    RemainderFits(r, p, q);
    ScaleDivision(h, d, r, p, q);
    ModUnique(v, p * q, d, r * p + l);
  }

  lemma FixedEight(v: nat)
    ensures EncFixed(v, 8) == [v % 256, v / 0x100 % 256, v / 0x1_0000 % 256, v / 0x100_0000 % 256,
                               v / 0x1_0000_0000 % 256, v / 0x100_0000_0000 % 256,
                               v / 0x1_0000_0000_0000 % 256, v / 0x100_0000_0000_0000 % 256]
  {
    FixedFour(v, 8);
    FixedFour(v / TWO_32, 4);
    DivDiv(v, TWO_32, 0x100);
    DivDiv(v, TWO_32, 0x1_0000);
    DivDiv(v, TWO_32, 0x100_0000);
  }

  /** A body behind its length, if there is a body. */
  function Prefixed(body: Option<seq<byte>>): Option<seq<byte>> {
    match body
    case None => None
    case Some(bytes) => Some(LenPrefixed(bytes))
  }

  /** One entry of an array. */
  function EncItem(f: Field, v: Value, packed: bool): Option<seq<byte>> {
    if packed then EncValue(f, v) else EncTagged(f, v)
  }

  /** `total` is `done` followed by `rest`, if there is a `rest` at all. */
  predicate Continues(total: Option<seq<byte>>, done: seq<byte>, rest: Option<seq<byte>>) {
    match rest
    case None => total.None?
    case Some(more) => total == Some(done + more)
  }

  lemma ContinuesFromStart(total: Option<seq<byte>>)
    ensures Continues(total, [], total)
  {
    if total.Some? {
      assert [] + total.value == total.value;
    }
  }

  /** `all` is `first` and then `rest`, or an error if either is. */
  predicate Chained(all: Option<seq<byte>>, first: Option<seq<byte>>, rest: Option<seq<byte>>) {
    all == if first.Some? && rest.Some? then Some(first.value + rest.value) else None
  }

  lemma ContinuesStep(
      total: Option<seq<byte>>, done: seq<byte>, all: Option<seq<byte>>,
      first: Option<seq<byte>>, rest: Option<seq<byte>>)
    requires Continues(total, done, all) && Chained(all, first, rest)
    ensures first.None? ==> total.None?
    ensures first.Some? ==> Continues(total, done + first.value, rest)
    ensures first.Some? && total.Some? ==> |total.value| >= |done| + |first.value|
  {
    if all.Some? {
      assert done + (first.value + rest.value) == done + first.value + rest.value;
    }
  }

  lemma {:induction false} ItemsHold(f: Field, items: seq<Value>, packed: bool)
    ensures EncItems(f, items, packed).Some? ==> forall j :: 0 <= j < |items| ==> Holds(f, items[j])
  {
    if items != [] && EncItems(f, items, packed).Some? {
      ItemsHold(f, items[1..], packed);
      assert (if packed then EncValue(f, items[0]) else EncTagged(f, items[0])).Some?;
      assert EncValue(f, items[0]).Some?;
      forall j | 0 <= j < |items|
        ensures Holds(f, items[j])
      {
        if j > 0 {
          assert items[j] == items[1..][j - 1];
        }
      }
    }
  }

  lemma {:induction false} FixedItemsLength(f: Field, items: seq<Value>)
    requires f.ltype.Fixed32? || f.ltype.Fixed64?
    requires forall j :: 0 <= j < |items| ==> Holds(f, items[j])
    ensures EncItems(f, items, true).Some?
    ensures |EncItems(f, items, true).value| == (if f.ltype.Fixed32? then 4 else 8) * |items|
  {
    if items != [] {
      FixedItemsLength(f, items[1..]);
    }
  }

  /** A position in a stream: the buffer, the place in it and the count of bytes. */
  datatype Mark = Mark(buf: seq<byte>, at: nat, written: nat)

  class Stream {
    /** False for the sizing stream, whose callback is null. */
    const writing: bool
    const buf: array<byte>
    const maxSize: nat
    var state: nat
    var bytesWritten: nat

    ghost predicate Valid()
      reads this
    {
      writing ==> bytesWritten <= maxSize && state + (maxSize - bytesWritten) <= buf.Length
    }

    /** `pb_ostream_from_buffer`. */
    constructor FromBuffer(b: array<byte>, size: nat)
      requires size <= b.Length
      ensures Valid() && writing && buf == b && maxSize == size && state == 0 && bytesWritten == 0
    {
      writing, buf, maxSize := true, b, size;
      state, bytesWritten := 0, 0;
    }

    /** `PB_OSTREAM_SIZING`. */
    constructor Sizing()
      ensures Valid() && !writing && bytesWritten == 0 && fresh(buf)
    {
      writing, buf, maxSize := false, new byte[0], 0;
      state, bytesWritten := 0, 0;
    }

    /** The substream of `pb_encode_submessage`: the same buffer, limited to `size` bytes. */
    constructor Sub(b: array<byte>, at: nat, size: nat)
      requires at + size <= b.Length
      ensures Valid() && writing && buf == b && maxSize == size && state == at && bytesWritten == 0
    {
      writing, buf, maxSize := true, b, size;
      state, bytesWritten := at, 0;
    }

    predicate HasRoom(before: nat, n: nat)
    {
      writing ==> before + n <= maxSize
    }

    /** Where the stream stands. */
    ghost function Here(): Mark
      reads this, buf
    {
      Mark(buf[..], state, bytesWritten)
    }

    /** The call succeeded exactly if there are bytes and room for them; then it appended
        them.  Either way nothing before the old position or past the limit has changed. */
    twostate predicate Emitted(new bytes: Option<seq<byte>>, ok: bool)
      reads this, buf
    {
      Valid() && Moved(old(Here()), Here(), bytes, ok)
    }

    ghost predicate Moved(a: Mark, b: Mark, bytes: Option<seq<byte>>, ok: bool) {
      && (ok <==> bytes.Some? && HasRoom(a.written, |bytes.value|))
      && (ok ==> b.written == a.written + |bytes.value|)
      && (writing ==>
            var limit := a.at + maxSize - a.written;
            && |a.buf| == |b.buf| && b.at + maxSize - b.written == limit
            && a.at <= b.at <= limit <= |a.buf|
            && b.buf[..a.at] == a.buf[..a.at]
            && b.buf[limit..] == a.buf[limit..]
            && (ok ==> b.buf[..b.at] == a.buf[..a.at] + bytes.value))
    }

    /** One call after another. */
    lemma Then(a: Mark, b: Mark, c: Mark, done: seq<byte>, more: Option<seq<byte>>, ok: bool)
      requires Moved(a, b, Some(done), true)
      requires Moved(b, c, more, ok)
      ensures Moved(a, c, if more.Some? then Some(done + more.value) else None, ok)
    {
      if writing {
        assert c.buf[..a.at] == c.buf[..b.at][..a.at];
        if ok {
          assert a.buf[..a.at] + done + more.value == a.buf[..a.at] + (done + more.value);
        }
      }
    }

    lemma Stops(a: Mark, b: Mark, done: seq<byte>)
      requires Moved(a, b, Some(done), true)
      ensures Moved(a, b, None, false)
    {
    }

    /** What lacked room lacks it with more to come. */
    lemma Fails(a: Mark, b: Mark, part: Option<seq<byte>>, total: Option<seq<byte>>)
      requires Moved(a, b, part, false)
      requires total.Some? ==> part.Some? && |part.value| <= |total.value|
      ensures Moved(a, b, total, false)
    {
    }

    /** One round of a loop that emits `total`, of which `done` has been emitted and `all`
        is to come. */
    lemma OneMore(a: Mark, b: Mark, c: Mark, ok: bool, total: Option<seq<byte>>, done: seq<byte>,
                  all: Option<seq<byte>>, first: Option<seq<byte>>, rest: Option<seq<byte>>)
      requires Moved(a, b, Some(done), true) && Moved(b, c, first, ok)
      requires Continues(total, done, all) && Chained(all, first, rest)
      ensures !ok ==> Moved(a, c, total, false)
      ensures ok ==> first.Some? && Moved(a, c, Some(done + first.value), true)
      ensures ok ==> Continues(total, done + first.value, rest)
    {
      ContinuesStep(total, done, all, first, rest);
      Then(a, b, c, done, first, ok);
      if !ok {
        Fails(a, c, if first.Some? then Some(done + first.value) else None, total);
      }
    }

    /** `pb_write`. */
    method Write(bytes: seq<byte>) returns (ok: bool)
      requires Valid()
      modifies this, buf
      ensures Emitted(Some(bytes), ok)
    {
      if writing {
        if bytesWritten + |bytes| > maxSize {
          return false;
        }
        CopyTo(buf, state, bytes);
        state := state + |bytes|;
      }
      bytesWritten := bytesWritten + |bytes|;
      return true;
    }

    /** `buf_write`. */
    static method CopyTo(buf: array<byte>, dest: nat, bytes: seq<byte>)
      requires dest + |bytes| <= buf.Length
      modifies buf
      ensures buf[..dest + |bytes|] == old(buf[..dest]) + bytes
      ensures forall k :: dest + |bytes| <= k <= buf.Length ==> buf[k..] == old(buf[k..])
    {
      for i := 0 to |bytes|
        invariant buf[..dest + i] == old(buf[..dest]) + bytes[..i]
        invariant forall k :: dest + |bytes| <= k < buf.Length ==> buf[k] == old(buf[k])
      {
        buf[dest + i] := bytes[i];
      }
    }

    /** `pb_encode_varint`. */
    method EncodeVarint(value: nat) returns (ok: bool)
      requires Valid() && value < TWO_64
      modifies this, buf
      ensures Emitted(Some(EncVarint(value)), ok)
    {
      if value <= 0x7F {
        ok := Write([value]);
        return;
      }
      var buffer := new byte[10];
      var n := FillVarint(buffer, value);
      ok := Write(buffer[..n]);
    }

    /** The byte loop of `pb_encode_varint`. */
    static method FillVarint(buffer: array<byte>, value: nat) returns (i: nat)
      requires buffer.Length == 10 && 0 < value < TWO_64
      modifies buffer
      ensures i <= 10 && buffer[..i] == EncVarint(value)
    {
      var rest: nat := value;
      i := 0;
      VarintAtMostTen(value);
      while rest > 0
        invariant i <= 10
        invariant rest > 0 ==> i + |EncVarint(rest)| == |EncVarint(value)|
        invariant rest > 0 ==> EncVarint(value) == buffer[..i] + EncVarint(rest)
        invariant rest == 0 ==> i > 0 && buffer[i - 1] >= 128
        invariant rest == 0 ==> EncVarint(value) == buffer[..i - 1] + [buffer[i - 1] - 128]
        decreases rest
      {
        OneGroup(value, buffer[..i], rest);
        buffer[i] := rest % 128 + 128;
        rest := rest / 128;
        i := i + 1;
      }
      buffer[i - 1] := buffer[i - 1] - 128;
    }

    /** `pb_encode_tag`. */
    method EncodeTag(wt: nat, tag: nat) returns (ok: bool)
      requires Valid()
      modifies this, buf
      ensures Emitted(Some(EncTag(wt, tag)), ok)
    {
      ok := EncodeVarint((8 * tag + wt) % TWO_64);
    }

    /** `pb_encode_string`. */
    method EncodeString(bytes: seq<byte>) returns (ok: bool)
      requires Valid()
      modifies this, buf
      ensures Emitted(Some(LenPrefixed(bytes)), ok)
    {
      ok := EncodeVarint(|bytes| % TWO_64);
      if !ok {
        Fails(old(Here()), Here(), Some(EncVarint(|bytes| % TWO_64)), Some(LenPrefixed(bytes)));
        return;
      }
      ghost var before := Here();
      ok := Write(bytes);
      Then(old(Here()), before, Here(), EncVarint(|bytes| % TWO_64), Some(bytes), ok);
    }

    /** `pb_encode_fixed32`. */
    method EncodeFixed32(val: nat) returns (ok: bool)
      requires Valid()
      modifies this, buf
      ensures Emitted(Some(EncFixed(val, 4)), ok)
    {
      FixedFour(val, 4);
      ok := Write([val % 256, val / 0x100 % 256, val / 0x1_0000 % 256, val / 0x100_0000 % 256]);
    }

    /** `pb_encode_fixed64`. */
    method EncodeFixed64(val: nat) returns (ok: bool)
      requires Valid()
      modifies this, buf
      ensures Emitted(Some(EncFixed(val, 8)), ok)
    {
      FixedEight(val);
      ok := Write([val % 256, val / 0x100 % 256, val / 0x1_0000 % 256, val / 0x100_0000 % 256,
                   val / 0x1_0000_0000 % 256, val / 0x100_0000_0000 % 256,
                   val / 0x1_0000_0000_0000 % 256, val / 0x100_0000_0000_0000 % 256]);
    }

    /** The number encoders. */
    method EncodeScalar(f: Field, n: int) returns (ok: bool)
      requires Valid()
      modifies this, buf
      ensures Emitted(EncScalar(f, n), ok)
    {
      if f.ltype.Fixed32? {
        ok := EncodeFixed32(ToU64(n));
      } else if f.ltype.Fixed64? {
        ok := EncodeFixed64(ToU64(n));
      } else if f.dataSize in {1, 2, 4, 8} {
        ok := EncodeVarint(NumToU64(f.ltype, n));
      } else {
        ok := false;
      }
    }

    /** `pb_write(stream, NULL, size)` on a sizing stream. */
    method WriteNull(size: nat)
      requires Valid() && !writing
      modifies this
      ensures Valid() && bytesWritten == old(bytesWritten) + size
    {
      bytesWritten := bytesWritten + size;
    }

    /** The encoder for one payload, chosen by the field's type. */
    method EncodeValue(f: Field, v: Value) returns (ok: bool)
      requires Valid()
      modifies this, buf
      ensures Emitted(EncValue(f, v), ok)
      decreases v, 0
    {
      if !Holds(f, v) {
        ok := false;
      } else if f.ltype.Submessage? {
        ok := EncodeSubmessage(f.ltype.fields, v.slots);
      } else if f.ltype.Bytes? {
        if |v.bytes| + BYTES_OFFSET > f.dataSize {
          return false;
        }
        ok := EncodeString(v.bytes);
      } else if f.ltype.FixedLengthBytes? {
        ok := EncodeString(v.bytes);
      } else if f.ltype.String? {
        ok := EncodeString(v.chars);
      } else {
        ok := EncodeScalar(f, v.n);
      }
    }

    /** `pb_encode_tag_for_field` and the payload. */
    method EncodeTagged(f: Field, v: Value) returns (ok: bool)
      requires Valid()
      modifies this, buf
      ensures Emitted(EncTagged(f, v), ok)
      decreases v, 1
    {
      ok := EncodeTag(WireType(f.ltype), f.tag);
      ghost var tag := EncTag(WireType(f.ltype), f.tag);
      if !ok {
        Fails(old(Here()), Here(), Some(tag), EncTagged(f, v));
        return;
      }
      ghost var tagged := Here();
      ok := EncodeValue(f, v);
      Then(old(Here()), tagged, Here(), tag, EncValue(f, v), ok);
    }

    /** One entry of an array, with its tag unless packed. */
    method EncodeItem(f: Field, v: Value, packed: bool) returns (ok: bool)
      requires Valid()
      modifies this, buf
      ensures Emitted(EncItem(f, v, packed), ok)
      decreases v, 2
    {
      if packed {
        ok := EncodeValue(f, v);
      } else {
        ok := EncodeTagged(f, v);
      }
    }

    /** The entry loops of `encode_array`. */
    method EncodeItems(f: Field, items: seq<Value>, packed: bool) returns (ok: bool)
      requires Valid()
      modifies this, buf
      ensures Emitted(EncItems(f, items, packed), ok)
      decreases items, 0
    {
      ghost var done: seq<byte> := [];
      var i := 0;
      assert items[0..] == items;
      ContinuesFromStart(EncItems(f, items, packed));
      while i < |items|
        invariant i <= |items|
        invariant Emitted(Some(done), true)
        invariant Continues(EncItems(f, items, packed), done, EncItems(f, items[i..], packed))
      {
        ghost var first, all := EncItem(f, items[i], packed), EncItems(f, items, packed);
        assert items[i..][1..] == items[i + 1..];
        ghost var before := Here();
        ok := EncodeItem(f, items[i], packed);
        OneMore(old(Here()), before, Here(), ok, all, done, EncItems(f, items[i..], packed), first,
                EncItems(f, items[i + 1..], packed));
        if !ok {
          return;
        }
        done := done + first.value;
        i := i + 1;
      }
      ok := true;
    }

    /** `encode_array`.  (Entries that are not of the field's type do not exist in a C
        array.) */
    method EncodeArray(f: Field, items: seq<Value>) returns (ok: bool)
      requires Valid()
      modifies this, buf
      ensures Emitted(EncArray(f, items), ok)
      decreases items, 3
    {
      if |items| == 0 {
        return true;
      }
      if |items| > f.arraySize {
        return false;
      }
      if !forall j :: 0 <= j < |items| ==> Holds(f, items[j]) {
        ItemsHold(f, items, Packable(f.ltype));
        return false;
      }
      if Packable(f.ltype) {
        ok := EncodeTag(WT_STRING, f.tag);
        if !ok {
          Fails(old(Here()), Here(), Some(EncTag(WT_STRING, f.tag)), EncArray(f, items));
          return;
        }
        ghost var before := Here();
        ok := EncodePacked(f, items);
        Then(old(Here()), before, Here(), EncTag(WT_STRING, f.tag), Prefixed(EncItems(f, items, true)), ok);
      } else {
        ok := EncodeItems(f, items, false);
      }
    }

    /** The length of a packed array, computed without writing it. */
    static method PackedSize(f: Field, items: seq<Value>) returns (ok: bool, size: nat)
      requires Packable(f.ltype)
      requires forall j :: 0 <= j < |items| ==> Holds(f, items[j])
      ensures ok <==> EncItems(f, items, true).Some?
      ensures ok ==> size == |EncItems(f, items, true).value|
      decreases items, 1
    {
      if f.ltype.Fixed32? {
        FixedItemsLength(f, items);
        return true, 4 * |items|;
      } else if f.ltype.Fixed64? {
        FixedItemsLength(f, items);
        return true, 8 * |items|;
      }
      var sizestream := new Stream.Sizing();
      ok := sizestream.EncodeItems(f, items, true);
      size := sizestream.bytesWritten;
    }

    /** The packed branch of `encode_array`. */
    method EncodePacked(f: Field, items: seq<Value>) returns (ok: bool)
      requires Valid() && Packable(f.ltype)
      requires forall j :: 0 <= j < |items| ==> Holds(f, items[j])
      modifies this, buf
      ensures Emitted(Prefixed(EncItems(f, items, true)), ok)
      decreases items, 2
    {
      var size;
      ok, size := PackedSize(f, items);
      if !ok {
        Fails(old(Here()), Here(), None, None);
        return;
      }
      ghost var all := EncItems(f, items, true);
      ok := EncodeLength(size, all.value);
      if !ok || !writing {
        return;
      }
      ghost var before := Here();
      ok := EncodeItems(f, items, true);
      Then(old(Here()), before, Here(), EncVarint(size % TWO_64), all, ok);
    }

    /** The length of what follows; a sizing stream counts it without writing it. */
    method EncodeLength(size: nat, ghost body: seq<byte>) returns (ok: bool)
      requires Valid() && size == |body|
      modifies this, buf
      ensures Emitted(Some(if ok && writing then EncVarint(size % TWO_64) else LenPrefixed(body)), ok)
    {
      ok := EncodeVarint(size % TWO_64);
      if !ok {
        Fails(old(Here()), Here(), Some(EncVarint(size % TWO_64)), Some(LenPrefixed(body)));
      } else if !writing {
        WriteNull(size);
      }
    }

    /** `pb_check_proto3_default_value`. */
    static method CheckDefault(f: Field, v: Value) returns (zero: bool)
      ensures zero == IsZero(f, v)
      decreases v, 0
    {
      if f.ltype.FixedLengthBytes? {
        return f.dataSize == 0;
      }
      if !f.ltype.Submessage? {
        return v == Blob([]) || v == Text([]) || v == Num(0);
      }
      if !v.Struct? {
        return false;
      }
      if f.ltype.fields == [] {
        return true;
      }
      var fs, m := f.ltype.fields, v.slots;
      var iter := new Iter(fs);
      var more := true;
      while more
        invariant iter.Valid() && iter.fields == fs && fresh(iter)
        invariant SlotsZero(fs, m, 0) == (more ==> SlotsZero(fs, m, iter.pos))
        decreases more, |fs| - iter.pos
      {
        if iter.slot >= |m| {
          return false;
        }
        zero := CheckSlot(fs[iter.pos], m[iter.slot]);
        if !zero {
          return;
        }
        more := iter.Next();
      }
      zero := true;
    }

    /** The part of the check that reads one field's storage. */
    static method CheckSlot(f: Field, slot: Slot) returns (zero: bool)
      ensures zero == SlotZero(f, slot)
      decreases slot, 0
    {
      match slot
      case One(v) => zero := CheckDefault(f, v);
      case Maybe(_, v) => zero := CheckDefault(f, v);
      case NoMember => zero := BlankIsZero(f);
      case Many(items) =>
        if items == [] {
          return BlankIsZero(f);
        }
        zero := CheckDefault(f, items[0]);
      case Member(which, v) =>
        if which != f.tag {
          return BlankIsZero(f);
        }
        zero := CheckDefault(f, v);
    }

    /** Whether `encode_basic_field` finds the field there to encode. */
    static method HasValue(f: Field, slot: Slot) returns (has: bool)
      ensures has == Emits(f, slot)
    {
      match f.htype
      case Required => has := true;
      case Optional => has := slot.Maybe? && slot.has;
      case Singular =>
        if !slot.One? {
          return false;
        }
        var zero := CheckDefault(f, slot.v);
        has := !zero;
      case Repeated => has := slot.Many? && slot.items != [];
      case Oneof => has := slot.Member? && slot.which == f.tag;
    }

    /** `encode_basic_field` for static allocation. */
    method EncodeField(f: Field, slot: Slot) returns (ok: bool)
      requires Valid()
      modifies this, buf
      ensures Emitted(EncField(f, slot), ok)
      decreases slot, 0
    {
      var has := HasValue(f, slot);
      if !has {
        ok := true;
      } else if f.htype.Repeated? {
        ok := EncodeArray(f, slot.items);
      } else if slot.One? || slot.Maybe? || slot.Member? {
        ok := EncodeTagged(f, slot.v);
      } else {
        ok := false;
      }
    }

    /** `pb_encode`: one pass of the iterator over the descriptor. */
    method EncodeMessage(fs: seq<Field>, m: Msg) returns (ok: bool)
      requires Valid()
      modifies this, buf
      ensures Emitted(EncMessage(fs, m), ok)
      decreases m, 2
    {
      if fs == [] {
        return true;
      }
      var iter := new Iter(fs);
      ok := EncodeFields(fs, m, iter);
    }

    /** The loop of `pb_encode`. */
    method EncodeFields(fs: seq<Field>, m: Msg, iter: Iter) returns (ok: bool)
      requires Valid() && iter.Valid() && iter.fields == fs != [] && iter.pos == 0
      modifies this, buf, iter
      ensures Emitted(EncMessage(fs, m), ok)
      decreases m, 1
    {
      var more := true;
      ghost var done: seq<byte> := [];
      ContinuesFromStart(EncMessage(fs, m));
      while more
        invariant iter.Valid() && iter.fields == fs
        invariant Emitted(Some(done), true)
        invariant Continues(EncMessage(fs, m), done, if more then EncFields(fs, m, iter.pos) else Some([]))
        decreases more, |fs| - iter.pos
      {
        if iter.slot >= |m| {
          Stops(old(Here()), Here(), done);
          return false;
        }
        ghost var first, rest := EncField(fs[iter.pos], m[iter.slot]), EncFields(fs, m, iter.pos + 1);
        ghost var before := Here();
        ok := EncodeField(fs[iter.pos], m[iter.slot]);
        OneMore(old(Here()), before, Here(), ok, EncMessage(fs, m), done, EncFields(fs, m, iter.pos), first, rest);
        if !ok {
          return;
        }
        done := done + first.value;
        more := iter.Next();
        assert rest == if more then EncFields(fs, m, iter.pos) else Some([]);
      }
      ok := true;
    }

    /** `pb_encode_submessage`: size it, write the length, write it into a substream of
        exactly that size.  The check for "submsg size changed" can never fail. */
    method EncodeSubmessage(fs: seq<Field>, m: Msg) returns (ok: bool)
      requires Valid()
      modifies this, buf
      ensures Emitted(Prefixed(EncMessage(fs, m)), ok)
      decreases m, 4
    {
      var sizing := new Stream.Sizing();
      ok := sizing.EncodeMessage(fs, m);
      if !ok {
        return;
      }
      var size := sizing.bytesWritten;
      ok := EncodeLength(size, EncMessage(fs, m).value);
      if !ok || !writing {
        return;
      }
      ghost var before := Here();
      ok := WriteBody(fs, m, size);
      Then(old(Here()), before, Here(), EncVarint(size % TWO_64), EncMessage(fs, m), ok);
    }

    /** The body of a submessage, in a substream of exactly its size. */
    method WriteBody(fs: seq<Field>, m: Msg, size: nat) returns (ok: bool)
      requires Valid() && writing && EncMessage(fs, m).Some? && size == |EncMessage(fs, m).value|
      modifies this, buf
      ensures Emitted(EncMessage(fs, m), ok)
      decreases m, 3
    {
      if bytesWritten + size > maxSize {
        return false;
      }
      var substream := new Stream.Sub(buf, state, size);
      ok := substream.EncodeMessage(fs, m);
      bytesWritten := bytesWritten + substream.bytesWritten;
      state := substream.state;
      if substream.bytesWritten != size {
        assert false;
      }
    }
  }

  /** `pb_get_encoded_size`. */
  method GetEncodedSize(fs: seq<Field>, m: Msg) returns (ok: bool, size: nat)
    ensures ok <==> EncMessage(fs, m).Some?
    ensures ok ==> size == |EncMessage(fs, m).value|
  {
    var stream := new Stream.Sizing();
    ok := stream.EncodeMessage(fs, m);
    size := stream.bytesWritten;
  }

  /** `pb_encode` into a buffer of `size` bytes: it succeeds exactly when the sizing pass
      does and reports at most `size`, and never touches the array past `size`. */
  method EncodeInto(b: array<byte>, size: nat, fs: seq<Field>, m: Msg) returns (ok: bool, n: nat)
    requires size <= b.Length
    modifies b
    ensures ok <==> EncMessage(fs, m).Some? && |EncMessage(fs, m).value| <= size
    ensures ok ==> n <= size && b[..n] == EncMessage(fs, m).value
    ensures b[size..] == old(b[size..])
  {
    var stream := new Stream.FromBuffer(b, size);
    ok := stream.EncodeMessage(fs, m);
    n := stream.bytesWritten;
  }
}
