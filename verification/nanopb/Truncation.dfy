/**
 Input that is cut short, or has a wire type the decoder does not know.  A message may end
 between two fields, or in a tag (`Composition.TruncatedTagEnds`); cut inside a payload, be
 the field listed or not, it is refused.
 */
module Truncation {
  import opened Words
  import opened Wrappers
  import opened Wire
  import opened Message
  import opened Encode
  import opened Decode
  import opened Composition
  import opened RoundTrip
  import opened Evolution

  // ---------- payloads ----------

  lemma CutNumber(f: Field, n: int, k: nat)
    requires WfField(f) && Packable(f.ltype) && NumFits(f, n)
    requires EncScalar(f, n).Some? && k < |EncScalar(f, n).value|
    ensures DecScalar(f, EncScalar(f, n).value[..k]).Failed?
  {
    var payload := EncScalar(f, n).value;
    ScalarRoundTrip(f, n, []);
    assert payload[..k] + payload[k..] == payload == payload + [];
    if DecScalar(f, payload[..k]).Done? {
      DecScalarExtend(f, payload[..k], payload[k..]);
    }
  }

  lemma CutString(body: seq<byte>, k: nat)
    requires |body| < TWO_32 && k < |LenPrefixed(body)|
    ensures Substream(LenPrefixed(body)[..k]).Failed?
  {
    var payload := LenPrefixed(body);
    LenPrefixedRoundTrip(body, []);
    assert payload[..k] + payload[k..] == payload == payload + [];
    if Substream(payload[..k]).Done? {
      SubstreamExtend(payload[..k], payload[k..]);
    }
  }

  lemma CutFixedLength(f: Field, bs: seq<byte>, k: nat)
    requires |bs| == f.dataSize < TWO_32 && k < |LenPrefixed(bs)|
    ensures DecFixedLength(f, LenPrefixed(bs)[..k]).Failed?
  {
    var payload := LenPrefixed(bs);
    FixedLengthRoundTrip(f, bs, []);
    assert payload[..k] + payload[k..] == payload == payload + [];
    if DecFixedLength(f, payload[..k]).Done? {
      DecFixedLengthExtend(f, payload[..k], payload[k..]);
    }
  }

  /** No proper prefix of a payload is a payload of the same type. */
  lemma CutValue(f: Field, v: Value, k: nat, cur: Value)
    requires WfField(f) && EncValue(f, v).Some? && k < |EncValue(f, v).value| < TWO_32
    ensures DecValue(f, EncValue(f, v).value[..k], cur).Failed?
  {
    if Packable(f.ltype) {
      CutNumber(f, v.n, k);
    } else if f.ltype.FixedLengthBytes? {
      CutFixedLength(f, v.bytes, k);
    } else {
      CutString(Body(f, v), k);
    }
  }

  lemma CutSkip(f: Field, v: Value, k: nat)
    requires EncValue(f, v).Some? && k < |EncValue(f, v).value| < TWO_32
    ensures SkipField(WireType(f.ltype), EncValue(f, v).value[..k]).Failed?
  {
    var wt, payload := WireType(f.ltype), EncValue(f, v).value;
    SkipsValue(f, v, []);
    assert payload[..k] + payload[k..] == payload == payload + [];
    if SkipField(wt, payload[..k]).Done? {
      SkipFieldExtend(wt, payload[..k], payload[k..]);
    }
  }

  // ---------- fields ----------

  lemma CutField(f: Field, v: Value, k: nat, slot: Slot)
    requires WfField(f) && EncValue(f, v).Some? && k < |EncValue(f, v).value| < TWO_32
    ensures DecField(f, WireType(f.ltype), EncValue(f, v).value[..k], slot).Failed?
  {
    CutValue(f, v, k, Target(f, slot));
  }

  /** A message that is cut inside the payload of a field is refused. */
  lemma CutIsRefused(fs: seq<Field>, a: seq<byte>, i: nat, v: Value, k: nat, dest: Msg, seen: set<nat>)
    requires WfFields(fs) && i < |fs|
    requires DecLoop(fs, a, dest, seen).Done? && DecLoop(fs, a, dest, seen).value.clean
    requires EncValue(fs[i], v).Some? && k < |EncValue(fs[i], v).value| < TWO_32
    ensures DecLoop(fs, a + (EncTag(WireType(fs[i].ltype), fs[i].tag) + EncValue(fs[i], v).value[..k]), dest, seen)
         == Failed
  {
    var p, wt, cut := DecLoop(fs, a, dest, seen).value, WireType(fs[i].ltype), EncValue(fs[i], v).value[..k];
    DecodeConcat(fs, a, EncTag(wt, fs[i].tag) + cut, dest, seen);
    LoopStep(fs, i, wt, cut, p.dest, p.seen);
    CutField(fs[i], v, k, SlotAt(fs, p.dest, i));
  }

  lemma ForeignFails(fs: seq<Field>, tag: nat, wt: nat, s: seq<byte>, dest: Msg, seen: set<nat>)
    requires 0 < tag < 0x2000_0000 && wt < 8 && !Lists(fs, tag) && SkipField(wt, s).Failed?
    ensures DecLoop(fs, EncTag(wt, tag) + s, dest, seen) == Failed
  {
    TagRoundTrip(wt, tag, s);
    assert Find(fs, tag) == |fs|;
  }

  /** So is one that is cut inside a field the reader does not list. */
  lemma CutForeignIsRefused(fs: seq<Field>, a: seq<byte>, f: Field, v: Value, k: nat, dest: Msg, seen: set<nat>)
    requires WfField(f) && !Lists(fs, f.tag)
    requires DecLoop(fs, a, dest, seen).Done? && DecLoop(fs, a, dest, seen).value.clean
    requires EncValue(f, v).Some? && k < |EncValue(f, v).value| < TWO_32
    ensures DecLoop(fs, a + (EncTag(WireType(f.ltype), f.tag) + EncValue(f, v).value[..k]), dest, seen) == Failed
  {
    var p, wt, cut := DecLoop(fs, a, dest, seen).value, WireType(f.ltype), EncValue(f, v).value[..k];
    DecodeConcat(fs, a, EncTag(wt, f.tag) + cut, dest, seen);
    CutSkip(f, v, k);
    ForeignFails(fs, f.tag, wt, cut, p.dest, p.seen);
  }

  /** A field the reader does not list is refused, whatever follows, if its wire type is none
      of the four that can be skipped. */
  lemma UnknownWireType(fs: seq<Field>, a: seq<byte>, tag: nat, wt: nat, s: seq<byte>, dest: Msg, seen: set<nat>)
    requires 0 < tag < 0x2000_0000 && !Lists(fs, tag) && wt in {3, 4, 6, 7}
    requires DecLoop(fs, a, dest, seen).Done? && DecLoop(fs, a, dest, seen).value.clean
    ensures DecLoop(fs, a + (EncTag(wt, tag) + s), dest, seen) == Failed
  {
    var p := DecLoop(fs, a, dest, seen).value;
    DecodeConcat(fs, a, EncTag(wt, tag) + s, dest, seen);
    ForeignFails(fs, tag, wt, s, p.dest, p.seen);
  }
}
