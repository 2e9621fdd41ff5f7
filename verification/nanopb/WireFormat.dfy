/**
 The bytes themselves: what each kind of value looks like on the wire, in the terms of the
 protocol buffers encoding, and what the decoder makes of bytes that this encoder would not
 have written, as other implementations may.
 */
module WireFormat {
  import opened Words
  import opened Wrappers
  import opened Wire
  import opened Message
  import opened Encode
  import opened Decode
  import opened RoundTrip

  // ---------- what is written ----------

  /** A varint has seven bits of the value in each byte, the lowest first, and no byte more
      than it takes. */
  lemma {:induction false} VarintBytes(v: nat)
    ensures IsVarint(EncVarint(v)) && GroupsValue(EncVarint(v)) == v
    ensures |EncVarint(v)| > 1 ==> EncVarint(v)[|EncVarint(v)| - 1] != 0
    decreases v
  {
    if v >= 128 {
      VarintBytes(v / 128);
      var tail := EncVarint(v / 128);
      assert EncVarint(v) == [128 + v % 128] + tail;
      assert EncVarint(v)[1..] == tail;
    }
  }

  /** The wire types, by number. */
  lemma TagOnWire(f: Field)
    requires 0 < f.tag < 0x2000_0000
    ensures EncTag(WireType(f.ltype), f.tag)
         == EncVarint(8 * f.tag + match f.ltype
                                  case Varint => 0
                                  case Uvarint => 0
                                  case Svarint => 0
                                  case Fixed64 => 1
                                  case Bytes => 2
                                  case String => 2
                                  case Submessage(_) => 2
                                  case FixedLengthBytes => 2
                                  case Fixed32 => 5)
  {
    SmallMod(8 * f.tag + WireType(f.ltype), TWO_64);
  }

  /** A negative number that is not zig-zagged is sent as its 64-bit two's complement. */
  lemma VarintOnWire(f: Field, n: int)
    requires WfField(f) && NumFits(f, n) && (f.ltype.Varint? || f.ltype.Uvarint?)
    ensures EncValue(f, Num(n)) == Some(EncVarint(if n >= 0 then n else n + 0x1_0000_0000_0000_0000))
  {
    if n >= 0 {
      SmallMod(n, TWO_64);
    } else {
      ModUnique(n, TWO_64, -1, n + TWO_64);
    }
  }

  lemma ZigZagOnWire(f: Field, n: int)
    requires WfField(f) && NumFits(f, n) && f.ltype.Svarint?
    ensures EncValue(f, Num(n)) == Some(EncVarint(if n >= 0 then 2 * n else -2 * n - 1))
  {
    ZigZagValue(n);
  }

  // ---------- what is read ----------

  /** Least significant byte first. */
  function Word32(a: nat, b: nat, c: nat, d: nat): nat {
    a + 0x100 * b + 0x1_0000 * c + 0x100_0000 * d
  }

  lemma Fixed32Reads(f: Field, s: seq<byte>, t: seq<byte>)
    requires f.ltype.Fixed32? && |s| == 4
    ensures DecScalar(f, s + t) == Done(Word32(s[0], s[1], s[2], s[3]), t)
  {
    assert (s + t)[..4] == s && (s + t)[4..] == t;
    FourBytes(s);
  }

  lemma FourBytes(s: seq<byte>)
    requires |s| == 4
    ensures FixedValue(s) == Word32(s[0], s[1], s[2], s[3])
  {
    var s1, s2, s3 := s[1..], s[2..], s[3..];
    assert s1[1..] == s2 && s2[1..] == s3 && s3[1..] == [];
    assert FixedValue(s3) == s3[0] + 256 * FixedValue([]);
    assert FixedValue(s2) == s2[0] + 256 * FixedValue(s3);
    assert FixedValue(s1) == s1[0] + 256 * FixedValue(s2);
  }

  /** Eight bytes are the low four and the high four. */
  lemma Fixed64Reads(f: Field, g: Field, low: seq<byte>, high: seq<byte>, t: seq<byte>)
    requires f.ltype.Fixed64? && g.ltype.Fixed32? && |low| == 4 && |high| == 4
    ensures DecScalar(f, low + high + t)
         == Done(DecScalar(g, low).value + 0x1_0000_0000 * DecScalar(g, high).value, t)
  {
    assert (low + high + t)[..8] == low + high && (low + high + t)[8..] == t;
    assert low[..4] == low && high[..4] == high;
    Halves(low, high);
  }

  lemma Halves(low: seq<byte>, high: seq<byte>)
    requires |low| == 4
    ensures FixedValue(low + high) == FixedValue(low) + 0x1_0000_0000 * FixedValue(high)
  {
    var l1, l2, l3 := low[1..], low[2..], low[3..];
    assert (low + high)[1..] == l1 + high && (l1 + high)[1..] == l2 + high;
    assert (l2 + high)[1..] == l3 + high && (l3 + high)[1..] == high;
    assert FixedValue(l3 + high) == l3[0] + 256 * FixedValue(high);
    assert FixedValue(l2 + high) == l2[0] + 256 * FixedValue(l3 + high);
    assert FixedValue(l1 + high) == l1[0] + 256 * FixedValue(l2 + high);
    FourBytes(low);
  }

  /** An unsigned field takes exactly the words that fit it. */
  lemma UnsignedReads(f: Field, u: nat, t: seq<byte>)
    requires f.ltype.Uvarint? && f.dataSize in {1, 2, 4, 8} && u < TWO_64
    ensures DecScalar(f, EncVarint(u) + t)
         == if u < UnsignedEnd(f.dataSize) then Done(u, t) else Failed
  {
    SizeBounds(f.dataSize);
    U64RoundTrip(u, t);
  }

  lemma SizeBounds(size: nat)
    requires size in {1, 2, 4, 8}
    ensures Pow2(8 * size) == UnsignedEnd(size)
  {
    Pow2Widths();
    Pow2Square(4, 16);
    Pow2Square(8, 0x100);
    assert 8 * size == 8 || 8 * size == 16 || 8 * size == 32 || 8 * size == 64;
  }

  function UnsignedEnd(size: nat): nat {
    if size == 1 then 0x100
    else if size == 2 then 0x1_0000
    else if size == 4 then 0x1_0000_0000
    else 0x1_0000_0000_0000_0000
  }

  /** A signed field of at most 32 bits looks at the low 32 bits alone, so it reads `n` from
      any word that is `n` modulo 2^32, sign-extended or not; one of 64 bits reads all of
      the word.  Either takes exactly the numbers that fit it. */
  lemma SignedReads(f: Field, u: nat, n: int, k: nat, t: seq<byte>)
    requires f.ltype.Varint? && f.dataSize in {1, 2, 4, 8} && u < TWO_64
    requires if f.dataSize == 8 then InSigned(8, n) && u == n + k * 0x1_0000_0000_0000_0000
             else InSigned(4, n) && u == n + k * 0x1_0000_0000
    ensures DecScalar(f, EncVarint(u) + t) == if InSigned(f.dataSize, n) then Done(n, t) else Failed
  {
    IntOfWord(f, u, n, k);
    FitsSigned(f, n);
    U64RoundTrip(u, t);
  }

  lemma IntOfWord(f: Field, u: nat, n: int, k: nat)
    requires f.ltype.Varint? && u < TWO_64
    requires if f.dataSize == 8 then InSigned(8, n) && u == n + k * 0x1_0000_0000_0000_0000
             else InSigned(4, n) && u == n + k * 0x1_0000_0000
    ensures VarintToInt(f, u) == n
  {
    if f.dataSize != 8 {
      LowWord(n, k);
    }
  }

  lemma FitsSigned(f: Field, n: int)
    requires (f.ltype.Varint? || f.ltype.Svarint?) && f.dataSize in {1, 2, 4, 8}
    ensures NumFits(f, n) <==> InSigned(f.dataSize, n)
  {
    SizeBounds(f.dataSize);
  }

  predicate InSigned(size: nat, n: int) {
    if size == 1 then -0x80 <= n < 0x80
    else if size == 2 then -0x8000 <= n < 0x8000
    else if size == 4 then -0x8000_0000 <= n < 0x8000_0000
    else -0x8000_0000_0000_0000 <= n < 0x8000_0000_0000_0000
  }

  lemma LowWord(n: int, k: nat)
    requires -0x8000_0000 <= n < 0x8000_0000 && 0 <= n + k * 0x1_0000_0000
    ensures ToI32(n + k * 0x1_0000_0000) == n
  {
    if n >= 0 {
      ModUnique(n + k * TWO_32, TWO_32, k, n);
    } else {
      ModUnique(n + k * TWO_32, TWO_32, k - 1, n + TWO_32);
    }
  }

  /** A zig-zag field: even words are the numbers from 0 up, odd ones those from -1 down. */
  lemma ZigZagReads(f: Field, u: nat, t: seq<byte>)
    requires f.ltype.Svarint? && f.dataSize in {1, 2, 4, 8} && u < TWO_64
    ensures var n := if u % 2 == 0 then u / 2 else -(u / 2) - 1;
            DecScalar(f, EncVarint(u) + t) == if InSigned(f.dataSize, n) then Done(n, t) else Failed
  {
    FitsSigned(f, UnZigZag(u));
    U64RoundTrip(u, t);
    UnZigZagValue(u);
  }

  /** A byte string needs room for itself and the four bytes of its size. */
  lemma BytesFit(f: Field, bs: seq<byte>, t: seq<byte>)
    requires f.ltype.Bytes? && |bs| < TWO_32
    ensures EncValue(f, Blob(bs)) == if |bs| + 4 <= f.dataSize then Some(LenPrefixed(bs)) else None
    ensures DecBuffer(f, LenPrefixed(bs) + t) == if |bs| + 4 <= f.dataSize then Done(Blob(bs), t) else Failed
  {
    LenPrefixedRoundTrip(bs, t);
  }

  /** A text needs room for what was sent and a NUL, and ends at its first NUL. */
  lemma TextReads(f: Field, cs: seq<byte>, more: seq<byte>, t: seq<byte>)
    requires f.ltype.String? && 0 !in cs && |cs| + 1 + |more| < TWO_32
    ensures DecBuffer(f, LenPrefixed(cs + [0] + more) + t)
         == if |cs| + 1 + |more| < f.dataSize then Done(Text(cs), t) else Failed
  {
    LenPrefixedRoundTrip(cs + [0] + more, t);
    CutsAtNul(cs, more);
  }

  lemma {:induction false} CutsAtNul(cs: seq<byte>, more: seq<byte>)
    requires 0 !in cs
    ensures CutNul(cs + [0] + more) == cs
  {
    if cs != [] {
      assert (cs + [0] + more)[1..] == cs[1..] + [0] + more;
      CutsAtNul(cs[1..], more);
    }
  }

  /** A byte string of fixed length takes that many bytes, or none, which stand for zeros. */
  lemma FixedLengthReads(f: Field, bs: seq<byte>, t: seq<byte>)
    requires |bs| < TWO_32
    ensures DecFixedLength(f, LenPrefixed(bs) + t)
         == if bs == [] then Done(Blob(seq(f.dataSize, _ => 0)), t)
            else if |bs| == f.dataSize then Done(Blob(bs), t)
            else Failed
  {
    LengthRoundTrip(bs, t);
    assert (bs + t)[..|bs|] == bs && (bs + t)[|bs|..] == t;
    assert bs == [] ==> bs + t == t;
  }

  /** A tag word of zero, however long it is written, ends the message where it stands. */
  lemma ZeroTagEnds(fs: seq<Field>, z: seq<byte>, t: seq<byte>, dest: Msg, seen: set<nat>)
    requires IsVarint(z) && GroupsValue(z) == 0 && |z| <= 5
    ensures DecLoop(fs, z + t, dest, seen) == Done(Progress(dest, seen, false), t)
  {
    SmallMod(0, Pow2(32));
    DecVarintMeaning(z, t, 32);
  }

  lemma TagWithoutNumber(wt: nat, s: seq<byte>)
    requires 0 < wt < 8
    ensures DecTag([wt] + s) == Tag(wt, 0, s)
  {
    assert EncVarint(wt) == [wt];
    Varint32RoundTrip(wt, s);
  }

  /** A field number of zero with a nonzero wire type is skipped like an unknown field,
      except by a descriptor without fields, which takes it for its own terminator. */
  lemma FieldNumberZero(fs: seq<Field>, wt: nat, s: seq<byte>, t: seq<byte>, dest: Msg, seen: set<nat>)
    requires WfFields(fs) && 0 < wt < 8 && SkipField(wt, s) == Done((), t)
    ensures DecLoop(fs, [wt] + s, dest, seen) == if fs == [] then Failed else DecLoop(fs, t, dest, seen)
  {
    TagWithoutNumber(wt, s);
    assert forall i :: 0 <= i < |fs| ==> WfField(fs[i]);
  }
}
