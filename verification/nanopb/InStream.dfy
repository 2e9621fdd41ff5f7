/**
 The decoder as it runs: an input stream over a byte buffer, length-limited substreams,
 the iterator and the required-field bits.  Every method's contract says that it reads
 what the functions of module `Decode` describe and leaves what they leave.
 */
module InStream {
  import opened Words
  import opened Wire
  import opened Message
  import opened Encode
  import opened Decode
  import opened FieldIter
  import opened RequiredFields

  /** What a tag leads to, within the field loop: a field skipped or a field decoded. */
  function Step(fs: seq<Field>, wt: nat, tag: nat, s: seq<byte>, dest: Msg, seen: set<nat>): Decoded<Progress> {
    var i := Find(fs, tag);
    if i < |fs| then
      match DecField(fs[i], wt, s, SlotAt(fs, dest, i))
      case Failed => Failed
      case Done(slot, rest) => Done(Progress(Put(fs, dest, i, slot), Seen(fs, seen, i), true), rest)
    else if fs == [] && tag == 0 then Failed
    else
      match Decode.SkipField(wt, s)
      case Failed => Failed
      case Done(_, rest) => Done(Progress(dest, seen, true), rest)
  }

  /** Going round the field loop once more. */
  lemma LoopSteps(fs: seq<Field>, s: seq<byte>, dest: Msg, seen: set<nat>)
    requires s != [] && DecTag(s).Tag?
    ensures var Tag(wt, tag, rest) := DecTag(s);
            match Step(fs, wt, tag, rest, dest, seen)
            case Failed => DecLoop(fs, s, dest, seen).Failed?
            case Done(p, left) => |left| < |s| && DecLoop(fs, s, dest, seen) == DecLoop(fs, left, p.dest, p.seen)
  {
  }

  lemma SubmessageRead(f: Field, s: seq<byte>, cur: Value)
    requires f.ltype.Submessage? && Substream(s).Done?
    ensures var r := DecMessage(f.ltype.fields, Substream(s).value,
                                if cur.Struct? then cur.slots else Defaults(f.ltype.fields));
            DecValue(f, s, cur) == if r.Done? then Done(Struct(r.value), Substream(s).rest) else Failed
  {
  }

  /** What a length leads to, once it is read. */
  lemma SubstreamAt(s: seq<byte>, size: nat, rest: seq<byte>)
    ensures DecVarint(s, 32) == Parsed(size, rest) ==>
      Substream(s) == if |rest| < size then Failed else Done(rest[..size], rest[size..])
    ensures DecVarint(s, 32).Stuck? ==> Substream(s).Failed?
  {
  }

  /** A piece of the buffer, and what follows it. */
  lemma SplitAt(data: seq<byte>, at: nat, size: nat, left: nat)
    requires at + size + left <= |data|
    ensures data[at..at + size + left][..size] == data[at..at + size]
    ensures data[at..at + size + left][size..] == data[at + size..at + size + left]
  {
  }

  class Stream {
    const data: seq<byte>
    var state: nat
    var bytesLeft: nat

    ghost predicate Valid()
      reads this
    {
      state + bytesLeft <= |data|
    }

    /** What is left to read. */
    ghost function Rest(): (r: seq<byte>)
      requires Valid()
      reads this
      ensures |r| == bytesLeft
    {
      data[state..state + bytesLeft]
    }

    /** One past the last byte the stream may read. */
    ghost function End(): nat
      reads this
    {
      state + bytesLeft
    }

    /** `pb_istream_from_buffer`, and the copy that makes a substream. */
    constructor (d: seq<byte>, at: nat, size: nat)
      requires at + size <= |d|
      ensures Valid() && data == d && state == at && bytesLeft == size
    {
      data, state, bytesLeft := d, at, size;
    }

    /** `pb_readbyte`. */
    method ReadByte() returns (ok: bool, b: byte)
      requires Valid()
      modifies this
      ensures Valid() && End() == old(End()) && ok == (old(bytesLeft) > 0)
      ensures if ok then old(Rest()) == [b] + Rest() else Rest() == old(Rest())
    {
      if bytesLeft == 0 {
        return false, 0;
      }
      b := data[state];
      state := state + 1;
      bytesLeft := bytesLeft - 1;
      ok := true;
    }

    /** `pb_read`. */
    method Read(count: nat) returns (ok: bool, bytes: seq<byte>)
      requires Valid()
      modifies this
      ensures Valid() && End() == old(End()) && ok == (count <= old(bytesLeft))
      ensures ok ==> state == old(state) + count
      ensures if ok then bytes == old(Rest())[..count] && Rest() == old(Rest())[count..] else Rest() == old(Rest())
    {
      if bytesLeft < count {
        return false, [];
      }
      bytes := data[state..state + count];
      state := state + count;
      bytesLeft := bytesLeft - count;
      ok := true;
    }

    /** `pb_decode_varint` and, for a width of 32, `pb_decode_varint32`. */
    method DecodeVarint(width: nat) returns (ok: bool, result: nat)
      requires Valid() && width > 0
      modifies this
      ensures Valid() && End() == old(End())
      ensures match DecVarint(old(Rest()), width)
              case Parsed(v, rest) => ok && result == v && Rest() == rest
              case Stuck(left) => !ok && Rest() == left
    {
      var bitpos: nat := 0;
      result := 0;
      var more := true;
      ghost var goal := DecVarint(Rest(), width);
      while more
        invariant Valid() && End() == old(End())
        invariant goal == if more then DecVarintFrom(Rest(), bitpos, result, width) else Parsed(result, Rest())
        decreases more, bytesLeft
      {
        if bitpos >= width {
          return false, 0;
        }
        ghost var before := Rest();
        var b;
        ok, b := ReadByte();
        if !ok {
          return;
        }
        DecVarintStep(before, bitpos, result, width);
        assert before[1..] == Rest();
        result := result + ShiftLeft(b % 128, bitpos, width);
        bitpos := bitpos + 7;
        more := b >= 128;
      }
      ok := true;
    }

    /** The call did to the stream what `spec` says, and succeeded when it says so.  On
        failure, all that is kept is that the stream still lies within its old bounds. */
    twostate predicate Did<T>(new spec: Decoded<T>, ok: bool)
      reads this
    {
      && Valid() && End() <= old(End())
      && ok == spec.Done?
      && (ok ==> Rest() == spec.rest && End() == old(End()))
    }

    /** `pb_skip_varint`. */
    method SkipVarint() returns (ok: bool)
      requires Valid()
      modifies this
      ensures Did(Decode.SkipVarint(old(Rest())), ok)
    {
      var more := true;
      while more
        invariant Valid() && End() == old(End())
        invariant if more then Decode.SkipVarint(Rest()) == Decode.SkipVarint(old(Rest()))
                  else Decode.SkipVarint(old(Rest())) == Done((), Rest())
        decreases more, bytesLeft
      {
        ghost var before := Rest();
        var b;
        ok, b := ReadByte();
        if !ok {
          return;
        }
        assert before[1..] == Rest();
        more := b >= 128;
      }
      ok := true;
    }

    /** `pb_skip_string`. */
    method SkipString() returns (ok: bool)
      requires Valid()
      modifies this
      ensures Did(Substream(old(Rest())), ok)
    {
      var length, bytes;
      ok, length := DecodeVarint(32);
      if ok {
        ok, bytes := Read(length);
      }
    }

    /** `pb_skip_field`. */
    method SkipField(wt: nat) returns (ok: bool)
      requires Valid()
      modifies this
      ensures Did(Decode.SkipField(wt, old(Rest())), ok)
    {
      var bytes;
      if wt == WT_VARINT {
        ok := SkipVarint();
      } else if wt == WT_64BIT {
        ok, bytes := Read(8);
      } else if wt == WT_STRING {
        ok := SkipString();
      } else if wt == WT_32BIT {
        ok, bytes := Read(4);
      } else {
        ok := false;
      }
    }

    /** `pb_decode_tag`. */
    method DecodeTag() returns (ok: bool, wt: nat, tag: nat, eof: bool)
      requires Valid()
      modifies this
      ensures Valid() && End() == old(End())
      ensures match DecTag(old(Rest()))
              case Tag(w, t, rest) => ok && wt == w && tag == t && Rest() == rest
              case End(left) => !ok && eof && Rest() == left
              case BadTag => !ok && !eof
    {
      eof, wt, tag := false, 0, 0;
      var temp;
      ok, temp := DecodeVarint(32);
      if !ok {
        eof := bytesLeft == 0;
        return;
      }
      if temp == 0 {
        return false, 0, 0, true;
      }
      tag, wt := temp / 8, temp % 8;
    }

    /** `pb_make_string_substream`: a stream over the next length-prefixed piece.  Until it
        is closed, the parent knows only how much will be left. */
    method MakeSubstream() returns (ok: bool, sub: Stream)
      requires Valid()
      modifies this
      ensures Valid() && fresh(sub) && sub.Valid() && sub.data == data
      ensures ok == Substream(old(Rest())).Done?
      ensures ok ==> sub.Rest() == Substream(old(Rest())).value
      ensures ok ==> sub.state == state && sub.End() + bytesLeft == old(End()) <= |data|
      ensures ok ==> data[sub.End()..sub.End() + bytesLeft] == Substream(old(Rest())).rest
      ensures !ok ==> End() == old(End())
    {
      ghost var before := Rest();
      var size;
      ok, size := DecodeVarint(32);
      SubstreamAt(before, size, Rest());
      if !ok || bytesLeft < size {
        ok := false;
        sub := new Stream(data, 0, 0);
        return;
      }
      SplitAt(data, state, size, bytesLeft - size);
      sub := new Stream(data, state, size);
      bytesLeft := bytesLeft - size;
    }

    /** `pb_close_string_substream`: skip what the substream left unread. */
    method CloseSubstream(sub: Stream)
      requires this != sub && sub.Valid() && sub.data == data
      requires sub.End() + bytesLeft <= |data|
      modifies this, sub
      ensures Valid() && state == old(sub.End()) && bytesLeft == old(bytesLeft)
    {
      if sub.bytesLeft > 0 {
        var ok, bytes := sub.Read(sub.bytesLeft);
      }
      state := sub.state;
    }

    /** `pb_decode_fixed32` and `pb_decode_fixed64`. */
    method DecodeFixed(n: nat) returns (ok: bool, value: nat)
      requires Valid()
      modifies this
      ensures Valid() && End() == old(End()) && ok == (n <= old(bytesLeft))
      ensures ok ==> value == FixedValue(old(Rest())[..n]) && Rest() == old(Rest())[n..]
    {
      var bytes;
      ok, bytes := Read(n);
      value := FixedValue(bytes);
    }

    /** The number decoders. */
    method DecodeScalar(f: Field) returns (ok: bool, n: int)
      requires Valid()
      modifies this
      ensures Did(DecScalar(f, old(Rest())), ok)
      ensures ok ==> n == DecScalar(f, old(Rest())).value
    {
      if f.ltype.Fixed32? || f.ltype.Fixed64? {
        ok, n := DecodeFixed(if f.ltype.Fixed32? then 4 else 8);
        return;
      }
      var u;
      ok, u := DecodeVarint(64);
      if !ok {
        return false, 0;
      }
      n := VarintToInt(f, u);
      ok := f.dataSize in {1, 2, 4, 8} && NumFits(f, n);
    }

    /** `pb_dec_bytes` and `pb_dec_string`. */
    method DecodeBuffer(f: Field) returns (ok: bool, v: Value)
      requires Valid() && (f.ltype.Bytes? || f.ltype.String?)
      modifies this
      ensures Did(DecBuffer(f, old(Rest())), ok)
      ensures ok ==> v == DecBuffer(f, old(Rest())).value
    {
      var size, bytes;
      ok, size := DecodeVarint(32);
      if !ok {
        return false, Num(0);
      }
      if size + (if f.ltype.Bytes? then BYTES_OFFSET else 1) > f.dataSize {
        return false, Num(0);
      }
      ok, bytes := Read(size);
      v := if f.ltype.Bytes? then Blob(bytes) else Text(CutNul(bytes));
    }

    /** `pb_dec_fixed_length_bytes`. */
    method DecodeFixedLength(f: Field) returns (ok: bool, v: Value)
      requires Valid()
      modifies this
      ensures Did(DecFixedLength(f, old(Rest())), ok)
      ensures ok ==> v == DecFixedLength(f, old(Rest())).value
    {
      var size, bytes;
      ok, size := DecodeVarint(32);
      if !ok {
        return false, Num(0);
      }
      if size == 0 {
        return true, Blob(seq(f.dataSize, _ => 0));
      }
      if size != f.dataSize {
        return false, Num(0);
      }
      ok, bytes := Read(f.dataSize);
      v := Blob(bytes);
    }

    /** The decoder for one payload, chosen by the field's type. */
    method DecodeValue(f: Field, cur: Value) returns (ok: bool, v: Value)
      requires Valid() && WfField(f) && FieldCountsFit(f)
      modifies this
      ensures Did(DecValue(f, old(Rest()), cur), ok)
      ensures ok ==> v == DecValue(f, old(Rest()), cur).value
      decreases f, 2
    {
      if Packable(f.ltype) {
        var n;
        ok, n := DecodeScalar(f);
        v := Num(n);
      } else if f.ltype.FixedLengthBytes? {
        ok, v := DecodeFixedLength(f);
      } else if f.ltype.Submessage? {
        ok, v := DecodeSubmessage(f, cur);
      } else {
        ok, v := DecodeBuffer(f);
      }
    }

    /** `pb_dec_submessage`. */
    method DecodeSubmessage(f: Field, cur: Value) returns (ok: bool, v: Value)
      requires Valid() && WfField(f) && FieldCountsFit(f) && f.ltype.Submessage?
      modifies this
      ensures Did(DecValue(f, old(Rest()), cur), ok)
      ensures ok ==> v == DecValue(f, old(Rest()), cur).value
      decreases f, 1
    {
      ghost var before := Rest();
      var sub, m;
      ok, sub := MakeSubstream();
      if !ok {
        assert DecValue(f, before, cur).Failed?;
        return false, cur;
      }
      SubmessageRead(f, before, cur);
      ok, m := DecodeNested(f, sub, if cur.Struct? then cur.slots else Defaults(f.ltype.fields));
      v := Struct(m);
    }

    /** The message in a substream, which is then closed. */
    method DecodeNested(f: Field, sub: Stream, dest: Msg) returns (ok: bool, m: Msg)
      requires this != sub && sub.Valid() && sub.data == data && sub.End() + bytesLeft <= |data|
      requires WfField(f) && FieldCountsFit(f) && f.ltype.Submessage?
      modifies this, sub
      ensures Valid() && End() <= old(sub.End() + bytesLeft)
      ensures ok == DecMessage(f.ltype.fields, old(sub.Rest()), dest).Done?
      ensures ok ==> m == DecMessage(f.ltype.fields, old(sub.Rest()), dest).value
      ensures ok ==> state == old(sub.End()) && bytesLeft == old(bytesLeft)
      decreases f, 0
    {
      ok, m := sub.DecodeNoinit(f.ltype.fields, dest);
      CloseSubstream(sub);
    }

    /** The packed branch of `decode_static_field`. */
    method DecodePacked(f: Field, entries: seq<Value>) returns (ok: bool, items: seq<Value>)
      requires Valid()
      modifies this
      ensures Did(DecPackedField(f, old(Rest()), entries), ok)
      ensures ok ==> items == DecPackedField(f, old(Rest()), entries).value
    {
      items := entries;
      var sub;
      ok, sub := MakeSubstream();
      if !ok {
        return;
      }
      ghost var before := old(Rest());
      ok, items := sub.DecodeEntries(f, entries);
      if ok {
        CloseSubstream(sub);
        assert Rest() == Substream(before).rest;
      }
    }

    /** The entry loop of a packed array, over its own substream. */
    method DecodeEntries(f: Field, entries: seq<Value>) returns (ok: bool, items: seq<Value>)
      requires Valid()
      modifies this
      ensures Did(DecPacked(f, old(Rest()), entries), ok)
      ensures ok ==> items == DecPacked(f, old(Rest()), entries).value
    {
      items := entries;
      while bytesLeft > 0 && |items| < f.arraySize
        invariant Valid() && End() == old(End())
        invariant DecPacked(f, Rest(), items) == DecPacked(f, old(Rest()), entries)
        decreases bytesLeft
      {
        ghost var before := Rest();
        var n;
        ok, n := DecodeScalar(f);
        assert DecPacked(f, before, items)
            == match DecScalar(f, before)
               case Failed => Failed
               case Done(k, rest) => DecPacked(f, rest, items + [Num(k)]);
        if !ok {
          return;
        }
        items := items + [Num(n)];
      }
      ok := bytesLeft == 0;
    }

    /** `decode_static_field`. */
    method DecodeField(f: Field, wt: nat, slot: Slot) returns (ok: bool, slot': Slot)
      requires Valid() && WfField(f) && FieldCountsFit(f)
      modifies this
      ensures Did(DecField(f, wt, old(Rest()), slot), ok)
      ensures ok ==> slot' == DecField(f, wt, old(Rest()), slot).value
      decreases f, 3
    {
      slot' := slot;
      if IsPacked(f, wt) {
        var items;
        ok, items := DecodePacked(f, Entries(slot));
        slot' := Many(items);
      } else if f.htype.Repeated? && |Entries(slot)| >= f.arraySize {
        ok := false;
      } else {
        var v;
        ok, v := DecodeValue(f, Target(f, slot));
        slot' := Store(f, slot, v);
      }
    }

    /** The field loop of `pb_decode_noinit`. */
    method DecodeLoop(fs: seq<Field>, dest: Msg, iter: Iter, seen: array<nat>)
      returns (ok: bool, dest': Msg, ghost s: set<nat>)
      requires Valid() && WfFields(fs) && CountsFit(fs)
      requires iter.Valid() && iter.fields == fs && Tracks(seen[..], {})
      modifies this, iter, seen
      ensures Valid() && iter.Valid() && End() <= old(End())
      ensures ok == DecLoop(fs, old(Rest()), dest, {}).Done?
      ensures ok ==> End() == old(End()) && Rest() == DecLoop(fs, old(Rest()), dest, {}).rest
      ensures ok ==> dest' == DecLoop(fs, old(Rest()), dest, {}).value.dest
      ensures ok ==> s == DecLoop(fs, old(Rest()), dest, {}).value.seen
      ensures ok ==> Tracks(seen[..], Numbers(fs, s)) && OnlyRequired(fs, s)
      decreases fs, 4
    {
      dest', s := dest, {};
      assert Numbers(fs, {}) == {};
      while bytesLeft > 0
        invariant Valid() && End() == old(End()) && iter.Valid()
        invariant DecLoop(fs, Rest(), dest', s) == DecLoop(fs, old(Rest()), dest, {})
        invariant Tracks(seen[..], Numbers(fs, s)) && OnlyRequired(fs, s)
        decreases bytesLeft
      {
        var stop;
        ok, stop, dest', s := DecodeOne(fs, dest', iter, seen, s);
        if !ok || stop {
          return;
        }
      }
      ok := true;
    }

    static ghost predicate OnlyRequired(fs: seq<Field>, s: set<nat>) {
      forall i :: i in s ==> i < |fs| && fs[i].htype.Required?
    }

    /** One round of the field loop; `stop` is the end of the message. */
    method DecodeOne(fs: seq<Field>, dest: Msg, iter: Iter, seen: array<nat>, ghost s: set<nat>)
      returns (ok: bool, stop: bool, dest': Msg, ghost s': set<nat>)
      requires Valid() && WfFields(fs) && CountsFit(fs) && bytesLeft > 0
      requires iter.Valid() && iter.fields == fs && Tracks(seen[..], Numbers(fs, s)) && OnlyRequired(fs, s)
      modifies this, iter, seen
      ensures Valid() && iter.Valid() && End() <= old(End())
      ensures !ok ==> DecLoop(fs, old(Rest()), dest, s).Failed?
      ensures ok && stop ==> DecLoop(fs, old(Rest()), dest, s) == Done(Progress(dest', s', false), Rest())
      ensures ok && !stop ==> DecLoop(fs, old(Rest()), dest, s) == DecLoop(fs, Rest(), dest', s')
      ensures ok && !stop ==> bytesLeft < old(bytesLeft)
      ensures ok ==> End() == old(End()) && Tracks(seen[..], Numbers(fs, s')) && OnlyRequired(fs, s')
      decreases fs, 3
    {
      ghost var before := Rest();
      stop := false;
      var wt, tag, eof;
      ok, wt, tag, eof := DecodeTag();
      if !ok {
        return eof, eof, dest, s;
      }
      assert DecTag(before) == Tag(wt, tag, Rest());
      LoopSteps(fs, before, dest, s);
      ok, dest', s' := DecodeTagged(fs, wt, tag, dest, iter, seen, s);
    }

    /** The field a tag announces, decoded or skipped.  An empty descriptor's terminator
        reads as a number of size 0, which no payload satisfies. */
    method DecodeTagged(fs: seq<Field>, wt: nat, tag: nat, dest: Msg, iter: Iter, seen: array<nat>, ghost s: set<nat>)
      returns (ok: bool, dest': Msg, ghost s': set<nat>)
      requires Valid() && WfFields(fs) && CountsFit(fs)
      requires iter.Valid() && iter.fields == fs && Tracks(seen[..], Numbers(fs, s)) && OnlyRequired(fs, s)
      modifies this, iter, seen
      ensures Did(Step(fs, wt, tag, old(Rest()), dest, s), ok) && iter.Valid()
      ensures ok ==> Step(fs, wt, tag, old(Rest()), dest, s).value == Progress(dest', s', true)
      ensures ok ==> Tracks(seen[..], Numbers(fs, s')) && OnlyRequired(fs, s')
      decreases fs, 2
    {
      dest', s' := dest, s;
      var found := iter.Find(tag);
      if !found {
        ok := SkipField(wt);
      } else if fs == [] {
        ok := false;
      } else {
        ok, dest', s' := DecodeKnown(fs, wt, dest, iter, seen, s);
      }
    }

    /** One field the iterator has found: note it if it is required, and decode it into
        the slot the iterator points to. */
    method DecodeKnown(fs: seq<Field>, wt: nat, dest: Msg, iter: Iter, seen: array<nat>, ghost s: set<nat>)
      returns (ok: bool, dest': Msg, ghost s': set<nat>)
      requires Valid() && WfFields(fs) && CountsFit(fs) && fs != []
      requires iter.Valid() && iter.fields == fs
      requires Tracks(seen[..], Numbers(fs, s)) && OnlyRequired(fs, s)
      modifies this, seen
      ensures Did(DecField(fs[iter.pos], wt, old(Rest()), SlotAt(fs, dest, iter.pos)), ok)
      ensures s' == Seen(fs, s, iter.pos)
      ensures ok ==>
                dest' == Put(fs, dest, iter.pos,
                             DecField(fs[iter.pos], wt, old(Rest()), SlotAt(fs, dest, iter.pos)).value)
      ensures Tracks(seen[..], Numbers(fs, s')) && OnlyRequired(fs, s')
      decreases fs, 1
    {
      s' := Note(iter, seen, s);
      var slot;
      ok, slot := DecodeField(fs[iter.pos], wt, if iter.slot < |dest| then dest[iter.slot] else NoMember);
      dest' := if iter.slot < |dest| then dest[iter.slot := slot] else dest;
    }

    /** The bit of a required field that was found. */
    static method Note(iter: Iter, seen: array<nat>, ghost s: set<nat>) returns (ghost s': set<nat>)
      requires iter.Valid() && iter.fields != [] && RequiredCount(iter.fields) < 64
      requires Tracks(seen[..], Numbers(iter.fields, s)) && OnlyRequired(iter.fields, s)
      modifies seen
      ensures s' == Seen(iter.fields, s, iter.pos)
      ensures Tracks(seen[..], Numbers(iter.fields, s')) && OnlyRequired(iter.fields, s')
    {
      s' := Seen(iter.fields, s, iter.pos);
      if iter.fields[iter.pos].htype.Required? {
        if iter.requiredFieldIndex < 64 {
          Mark(seen, iter.requiredFieldIndex, Numbers(iter.fields, s));
        }
        RequiredBeforeMonotone(iter.fields, iter.pos, |iter.fields|);
        assert Numbers(iter.fields, s') == Numbers(iter.fields, s) + {RequiredBefore(iter.fields, iter.pos)};
      }
    }

    /** Seeks to the end of the descriptor to learn how many required fields it has. */
    static method CountRequired(iter: Iter) returns (count: nat)
      requires iter.Valid()
      modifies iter
      ensures count == RequiredCount(iter.fields)
    {
      ghost var at := iter.pos;
      count := iter.requiredFieldIndex;
      var lastRequired := iter.fields != [] && iter.fields[iter.pos].htype.Required?;
      var more := iter.Next();
      while more
        invariant iter.Valid()
        invariant iter.fields != [] ==> at < |iter.fields| && iter.pos == if more then at + 1 else 0
        invariant iter.fields != [] ==> more == (at + 1 < |iter.fields|)
        invariant iter.fields != [] ==> count == RequiredBefore(iter.fields, at)
        invariant iter.fields != [] ==> lastRequired == iter.fields[at].htype.Required?
        invariant iter.fields == [] ==> !more && count == 0 && !lastRequired
        decreases more, |iter.fields| - at
      {
        at := iter.pos;
        count := iter.requiredFieldIndex;
        lastRequired := iter.fields[iter.pos].htype.Required?;
        more := iter.Next();
      }
      if lastRequired {
        count := count + 1;
      }
    }

    /** `pb_decode_noinit`. */
    method DecodeNoinit(fs: seq<Field>, dest: Msg) returns (ok: bool, dest': Msg)
      requires Valid() && WfFields(fs) && CountsFit(fs)
      modifies this
      ensures Did(DecMessage(fs, old(Rest()), dest), ok)
      ensures ok ==> dest' == DecMessage(fs, old(Rest()), dest).value
      decreases fs, 5
    {
      var fieldsSeen: array<nat> := new nat[2](_ => 0);
      assert fieldsSeen[..] == [0, 0];
      Empty();
      var iter := new Iter(fs);
      ghost var s;
      ok, dest', s := DecodeLoop(fs, dest, iter, fieldsSeen);
      if !ok {
        return;
      }
      var count := CountRequired(iter);
      NumbersComplete(fs, s);
      ok := Complete(fieldsSeen, count, Numbers(fs, s));
    }

    /** `pb_decode`. */
    method DecodeInit(fs: seq<Field>) returns (ok: bool, dest: Msg)
      requires Valid() && WfFields(fs) && CountsFit(fs)
      modifies this
      ensures Did(DecodeMessage(fs, old(Rest())), ok)
      ensures ok ==> dest == DecodeMessage(fs, old(Rest())).value
    {
      ok, dest := DecodeNoinit(fs, Defaults(fs));
    }
  }
}
