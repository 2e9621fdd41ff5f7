/**
 The byte-level layer of nanopb: base-128 varints, zig-zag, little-endian fixed
 fields and tags.  Encoders are stated as functions to byte sequences; decoders as
 functions that return either the value and the bytes that remain, or the bytes that
 were left when reading failed (`pb_decode_tag` looks at them).

 Unsigned machine words are natural numbers below a power of two.  Where the C code
 ORs a value shifted above every bit already set, the model adds it.
 */
module Wire {
  import opened Words

  /** `Parsed`: a value was read.  `Stuck`: reading failed with `left` unread. */
  datatype Parse<+T> = Parsed(value: T, rest: seq<byte>) | Stuck(left: seq<byte>) {
    /** The same outcome, had `t` followed the input. */
    function Followed(t: seq<byte>): Parse<T> {
      match this
      case Parsed(v, rest) => Parsed(v, rest + t)
      case Stuck(left) => Stuck(left + t)
    }
  }

  // ---------- varints ----------

  /** The canonical base-128 encoding: seven bits a byte, least significant first. */
  function EncVarint(v: nat): (bs: seq<byte>)
    ensures |bs| > 0
  {
    if v < 128 then [v] else [128 + v % 128] + EncVarint(v / 128)
  }

  /** The decoder's loop from bit position `bitpos` with `acc` accumulated, into an
      unsigned word of `width` bits: bits shifted past the word are lost. */
  function DecVarintFrom(s: seq<byte>, bitpos: nat, acc: nat, width: nat): (r: Parse<nat>)
    ensures if r.Parsed? then |r.rest| < |s| else |r.left| <= |s|
    decreases |s|
  {
    if bitpos >= width || s == [] then Stuck(s)
    else
      var next := acc + ShiftLeft(s[0] % 128, bitpos, width);
      if s[0] >= 128 then DecVarintFrom(s[1..], bitpos + 7, next, width)
      else Parsed(next, s[1..])
  }

  function DecVarint(s: seq<byte>, width: nat): Parse<nat> {
    DecVarintFrom(s, 0, 0, width)
  }

  /** What a sequence of seven-bit groups denotes. */
  function GroupsValue(bs: seq<byte>): nat {
    if bs == [] then 0 else bs[0] % 128 + 128 * GroupsValue(bs[1..])
  }

  /** The bytes up to and including the first one without a continuation bit. */
  predicate IsVarint(bs: seq<byte>) {
    && bs != []
    && bs[|bs| - 1] < 128
    && forall i | 0 <= i < |bs| - 1 :: bs[i] >= 128
  }

  lemma {:induction false} DecVarintFromEnc(v: nat, t: seq<byte>, bitpos: nat, acc: nat, width: nat)
    requires bitpos < width
    requires v * Pow2(bitpos) < Pow2(width)
    ensures DecVarintFrom(EncVarint(v) + t, bitpos, acc, width) == Parsed(acc + v * Pow2(bitpos), t)
    decreases v
  {
    var s := EncVarint(v) + t;
    var p, m := Pow2(bitpos), Pow2(width);
    if v < 128 {
      assert s[1..] == t;
      ShiftLeftValue(v, bitpos, width);
      SmallMod(v * p, m);
    } else {
      var h, g := v / 128, v % 128;
      assert s[0] % 128 == g;
      assert s[1..] == EncVarint(h) + t;
      SplitProduct(v, h, g, p);
      MulNonneg(h, p);
      Pow2Seven(bitpos);
      MulAssoc(h, 128, p);
      ShiftLeftValue(g, bitpos, width);
      SmallMod(g * p, m);
      if bitpos + 7 >= width {
        Pow2Monotone(width, bitpos + 7);
        MulLe(1, h, Pow2(bitpos + 7));
        assert false;
      }
      DecVarintFromEnc(h, t, bitpos + 7, acc + g * p, width);
    }
  }

  /** Every value that fits the word survives, whatever bytes follow it. */
  lemma VarintRoundTrip(v: nat, t: seq<byte>, width: nat)
    requires width > 0 && v < Pow2(width)
    ensures DecVarint(EncVarint(v) + t, width) == Parsed(v, t)
  {
    TimesOne(v, Pow2(0));
    DecVarintFromEnc(v, t, 0, 0, width);
  }

  lemma Varint32RoundTrip(v: nat, t: seq<byte>)
    requires v < TWO_32
    ensures DecVarint(EncVarint(v) + t, 32) == Parsed(v, t)
  {
    Pow2Widths();
    VarintRoundTrip(v, t, 32);
  }

  lemma Varint64RoundTrip(v: nat, t: seq<byte>)
    requires v < TWO_64
    ensures DecVarint(EncVarint(v) + t, 64) == Parsed(v, t)
  {
    Pow2Widths();
    VarintRoundTrip(v, t, 64);
  }

  /** The decoder accepts exactly the inputs whose varint ends before the word's bit
      positions run out, and then yields the value of its groups modulo the word; so
      over-long and overflowing encodings are accepted too. */
  lemma DecVarintMeaning(bs: seq<byte>, t: seq<byte>, width: nat)
    requires IsVarint(bs)
    ensures if 7 * (|bs| - 1) < width
            then DecVarint(bs + t, width) == Parsed(GroupsValue(bs) % Pow2(width), t)
            else (width + 6) / 7 <= |bs| && DecVarint(bs + t, width) == Stuck((bs + t)[(width + 6) / 7..])
  {
    if 7 * (|bs| - 1) < width {
      DecVarintAccepts(bs, t, width);
    } else {
      DecVarintFromStuck(bs, t, 0, 0, width, (width + 6) / 7);
    }
  }

  lemma DecVarintAccepts(bs: seq<byte>, t: seq<byte>, width: nat)
    requires IsVarint(bs) && 7 * (|bs| - 1) < width
    ensures DecVarint(bs + t, width) == Parsed(GroupsValue(bs) % Pow2(width), t)
  {
    var r, m := DecVarint(bs + t, width), Pow2(width);
    assert r.Parsed? && r.rest == t && r.value % m == GroupsValue(bs) % m by {
      DecVarintFromAccepts(bs, t, 0, 0, width);
      TimesOne(GroupsValue(bs), Pow2(7 * 0));
    }
    assert r.value < m by {
      DecVarintBound(bs + t, 0, 0, width);
    }
    SmallMod(r.value, m);
  }

  /** Going round the byte loop once more. */
  lemma DecVarintStep(s: seq<byte>, bitpos: nat, acc: nat, width: nat)
    requires s != [] && bitpos < width
    ensures DecVarintFrom(s, bitpos, acc, width)
         == if s[0] >= 128 then DecVarintFrom(s[1..], bitpos + 7, acc + ShiftLeft(s[0] % 128, bitpos, width), width)
            else Parsed(acc + ShiftLeft(s[0] % 128, bitpos, width), s[1..])
  {
  }

  /** The first group of several, and the rest one position up. */
  lemma GroupsShift(bs: seq<byte>, k: nat, acc: nat, width: nat)
    requires IsVarint(bs) && bs[0] >= 128
    ensures (acc + (bs[0] % 128 * Pow2(7 * k)) % Pow2(width) + GroupsValue(bs[1..]) * Pow2(7 * (k + 1))) % Pow2(width)
         == (acc + GroupsValue(bs) * Pow2(7 * k)) % Pow2(width)
  {
    var p, m, g, h := Pow2(7 * k), Pow2(width), bs[0] % 128, GroupsValue(bs[1..]);
    SplitProduct(GroupsValue(bs), h, g, p);
    Pow2Seven(7 * k);
    MulAssoc(h, 128, p);
    MulNonneg(h, 128 * p);
    ModSame(acc + (h * 128) * p, g * p, m);
  }

  /** From the `k`th group on, when the varint ends within the word. */
  lemma {:induction false} DecVarintFromAccepts(bs: seq<byte>, t: seq<byte>, k: nat, acc: nat, width: nat)
    requires IsVarint(bs) && 7 * (k + |bs| - 1) < width
    ensures GroupsValue(bs) * Pow2(7 * k) >= 0
    ensures var r := DecVarintFrom(bs + t, 7 * k, acc, width);
            r.Parsed? && r.rest == t && r.value % Pow2(width) == (acc + GroupsValue(bs) * Pow2(7 * k)) % Pow2(width)
    decreases |bs|
  {
    var s, g := bs + t, bs[0] % 128;
    MulNonneg(GroupsValue(bs), Pow2(7 * k));
    DecVarintStep(s, 7 * k, acc, width);
    ShiftLeftValue(g, 7 * k, width);
    if bs[0] < 128 {
      assert bs[1..] == [];
      assert s[1..] == t;
      ModSame(acc, g * Pow2(7 * k), Pow2(width));
    } else {
      assert s[1..] == bs[1..] + t;
      DecVarintFromAccepts(bs[1..], t, k + 1, acc + (g * Pow2(7 * k)) % Pow2(width), width);
      GroupsShift(bs, k, acc, width);
    }
  }

  /** From the `k`th group on, when the word ends first, after its `n` groups. */
  lemma {:induction false} DecVarintFromStuck(bs: seq<byte>, t: seq<byte>, k: nat, acc: nat, width: nat, n: nat)
    requires IsVarint(bs) && k <= n < k + |bs|
    requires 7 * n < width + 7 && width <= 7 * n
    ensures DecVarintFrom(bs + t, 7 * k, acc, width) == Stuck((bs + t)[n - k..])
    decreases |bs|
  {
    if k < n {
      DecVarintStep(bs + t, 7 * k, acc, width);
      assert (bs + t)[1..] == bs[1..] + t;
      DecVarintFromStuck(bs[1..], t, k + 1, acc + ShiftLeft(bs[0] % 128, 7 * k, width), width, n);
    }
  }

  /** A successful read does not depend on what follows. */
  lemma {:induction false} DecVarintFromExtend(s: seq<byte>, t: seq<byte>, bitpos: nat, acc: nat, width: nat)
    requires DecVarintFrom(s, bitpos, acc, width).Parsed?
    ensures DecVarintFrom(s + t, bitpos, acc, width) == DecVarintFrom(s, bitpos, acc, width).Followed(t)
    ensures |DecVarintFrom(s, bitpos, acc, width).rest| < |s|
    decreases |s|
  {
    assert (s + t)[1..] == s[1..] + t;
    if s[0] >= 128 {
      DecVarintFromExtend(s[1..], t, bitpos + 7, acc + ShiftLeft(s[0] % 128, bitpos, width), width);
    }
  }

  /** A decoded value fits the word. */
  lemma {:induction false} DecVarintBound(s: seq<byte>, k: nat, acc: nat, width: nat)
    requires acc < Pow2(7 * k) && acc < Pow2(width)
    ensures var r := DecVarintFrom(s, 7 * k, acc, width); r.Parsed? ==> r.value < Pow2(width)
    decreases |s|
  {
    if 7 * k < width && s != [] {
      var p, q, g := Pow2(7 * k), Pow2(width - 7 * k), s[0] % 128;
      Pow2Add(7 * k, width - 7 * k);
      ShiftLeftValue(g, 7 * k, width);
      GroupFits(g, p, q);
      Pow2Seven(7 * k);
      MulLe(g, 127, p);
      if s[0] >= 128 {
        DecVarintBound(s[1..], k + 1, acc + (g * p) % Pow2(width), width);
      }
    }
  }

  // ---------- zig-zag ----------

  /** The C conversion from a signed integer to `uint64_t`. */
  function ToU64(v: int): (u: nat)
    ensures u < TWO_64
  {
    v % TWO_64
  }

  /** The conversion of a `uint64_t` to `int64_t`, in two's complement. */
  function ToI64(u: nat): int {
    if u < 0x8000_0000_0000_0000 then u else u - TWO_64
  }

  /** The conversion to `int32_t`: the low 32 bits in two's complement. */
  function ToI32(u: nat): int {
    var low := u % TWO_32;
    if low < 0x8000_0000 then low else low - TWO_32
  }

  /** `~u` on 64 bits. */
  function Not64(u: nat): (r: nat)
  {
    TWO_64 - 1 - u % TWO_64
  }

  function ZigZag(v: int): (u: nat)
    ensures u < TWO_64
  {
    var shifted := 2 * ToU64(v) % TWO_64;
    if v < 0 then Not64(shifted) else shifted
  }

  function UnZigZag(u: nat): int {
    if u % 2 == 1 then ToI64(Not64(u / 2)) else ToI64(u / 2)
  }

  predicate IsInt64(v: int) {
    -0x8000_0000_0000_0000 <= v < 0x8000_0000_0000_0000
  }

  lemma ZigZagValue(v: int)
    requires IsInt64(v)
    ensures ZigZag(v) == if v < 0 then -2 * v - 1 else 2 * v
  {
    if v < 0 {
      ModUnique(v, TWO_64, -1, v + TWO_64);
      ModUnique(2 * (v + TWO_64), TWO_64, 1, 2 * v + TWO_64);
    }
  }

  lemma UnZigZagValue(u: nat)
    requires u < TWO_64
    ensures UnZigZag(u) == if u % 2 == 1 then -(u / 2) - 1 else u / 2
  {
    SmallMod(u / 2, TWO_64);
  }

  lemma ZigZagBack(v: int)
    requires IsInt64(v)
    ensures UnZigZag(ZigZag(v)) == v
  {
    ZigZagValue(v);
    UnZigZagValue(ZigZag(v));
  }

  lemma UnZigZagBack(u: nat)
    requires u < TWO_64
    ensures IsInt64(UnZigZag(u)) && ZigZag(UnZigZag(u)) == u
  {
    UnZigZagValue(u);
    ZigZagValue(UnZigZag(u));
  }

  /** Zig-zag is a bijection between the signed and the unsigned 64-bit words. */
  lemma ZigZagBijection(v: int, u: nat)
    requires IsInt64(v) && u < TWO_64
    ensures UnZigZag(ZigZag(v)) == v
    ensures IsInt64(UnZigZag(u)) && ZigZag(UnZigZag(u)) == u
  {
    ZigZagBack(v);
    UnZigZagBack(u);
  }

  // ---------- fixed-width fields ----------

  /** `n` bytes of `v`, least significant first. */
  function EncFixed(v: nat, n: nat): (bs: seq<byte>)
    ensures |bs| == n
  {
    if n == 0 then [] else [v % 256] + EncFixed(v / 256, n - 1)
  }

  function FixedValue(bs: seq<byte>): nat {
    if bs == [] then 0 else bs[0] + 256 * FixedValue(bs[1..])
  }

  lemma {:induction false} FixedRoundTrip(v: nat, n: nat)
    requires v < Pow2(8 * n)
    ensures FixedValue(EncFixed(v, n)) == v
  {
    if n > 0 {
      assert Pow2(8) == 256;
      Pow2Add(8, 8 * (n - 1));
      FixedRoundTrip(v / 256, n - 1);
      assert EncFixed(v, n)[1..] == EncFixed(v / 256, n - 1);
    }
  }
}
