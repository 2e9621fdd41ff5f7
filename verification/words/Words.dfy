/**
 Unsigned machine words as natural numbers below a power of two: shifts, single bits and
 words read as sets of bit positions, with the arithmetic that connects them.
 */
module Words {

  type byte = b: nat | b < 256

  function Pow2(n: nat): (p: nat)
    ensures p > 0
  {
    if n == 0 then 1 else 2 * Pow2(n - 1)
  }

  const TWO_32: nat := 0x1_0000_0000
  const TWO_64: nat := 0x1_0000_0000_0000_0000

  lemma Pow2Widths()
    ensures Pow2(32) == TWO_32 && Pow2(64) == TWO_64
  {
    Pow2Square(8, 256);
    Pow2Square(16, 0x1_0000);
    Pow2Square(32, TWO_32);
  }

  lemma Pow2Square(a: nat, value: nat)
    requires Pow2(a) == value
    ensures Pow2(2 * a) == value * value
  {
    Pow2Add(a, a);
  }

  lemma {:induction false} Pow2Add(a: nat, b: nat)
    ensures Pow2(a + b) == Pow2(a) * Pow2(b)
  {
    if a > 0 {
      Pow2Add(a - 1, b);
    }
  }

  lemma Pow2Seven(n: nat)
    ensures Pow2(n + 7) == 128 * Pow2(n)
  {
    assert Pow2(7) == 128;
    Pow2Add(n, 7);
  }

  // ---------- small facts about products and remainders ----------

  lemma MulLe(a: int, b: int, c: nat)
    requires a <= b
    ensures a * c <= b * c
  {
  }

  lemma MulNonneg(a: nat, b: nat)
    ensures a * b >= 0
  {
  }

  lemma MulAssoc(a: int, b: int, c: int)
    ensures a * (b * c) == (a * b) * c
  {
  }

  lemma MulDist(a: int, b: int, c: int)
    ensures (a + b) * c == a * c + b * c
  {
  }

  lemma SplitProduct(v: nat, h: nat, g: nat, p: nat)
    requires v == 128 * h + g
    ensures v * p == (h * 128) * p + g * p
    ensures g * p <= v * p && g * p >= 0
  {
    MulDist(128 * h, g, p);
    MulLe(g, v, p);
    MulNonneg(g, p);
  }

  lemma SmallMod(x: nat, m: nat)
    requires x < m
    ensures x % m == x
  {
  }

  lemma ModUnique(x: int, m: int, d: int, r: int)
    requires m > 0 && x == d * m + r && 0 <= r < m
    ensures x % m == r && x / m == d
  {
    var e := x / m;
    assert x == e * m + x % m;
    if d > e {
      MulLe(e + 1, d, m);
      MulDist(e, 1, m);
    } else if d < e {
      MulLe(d + 1, e, m);
      MulDist(d, 1, m);
    }
  }

  lemma RemainderFits(r: nat, p: nat, q: nat)
    requires 0 <= r < q && p > 0
    ensures 0 <= r * p <= p * q - p
    ensures p * q > 0
  {
    MulNonneg(r, p);
    MulLe(r, q - 1, p);
    MulDist(q - 1, 1, p);
    MulLe(1, q, p);
  }

  lemma ScaleDivision(g: nat, d: nat, r: nat, p: nat, q: nat)
    requires g == d * q + r
    ensures g * p == d * (p * q) + r * p
  {
    MulDist(d * q, r, p);
    MulAssoc(d, q, p);
  }

  /** Multiplying by `p` and reducing by `p * q` is reducing by `q` first. */
  lemma GroupFits(g: nat, p: nat, q: nat)
    requires p > 0 && q > 0
    ensures p * q > 0 && (g * p) % (p * q) == (g % q) * p
    ensures 0 <= (g % q) * p <= p * q - p
    ensures (g % q) * p <= g * p
  {
    var d, r := g / q, g % q;
    RemainderFits(r, p, q);
    ScaleDivision(g, d, r, p, q);
    MulLe(r, g, p);
    ModUnique(g * p, p * q, d, r * p);
  }

  /** Reducing a summand first does not change a sum's remainder. */
  lemma ModSame(a: nat, b: nat, m: nat)
    requires m > 0
    ensures (a + b % m) % m == (a + b) % m
  {
    var x := a + b % m;
    var d, e := x / m, b / m;
    MulDist(d, e, m);
    assert a + b == (d + e) * m + x % m;
    ModUnique(a + b, m, d + e, x % m);
  }

  lemma {:induction false} Pow2Monotone(a: nat, b: nat)
    requires a <= b
    ensures Pow2(a) <= Pow2(b)
  {
    Pow2Add(a, b - a);
    assert Pow2(a) * Pow2(b - a) >= Pow2(a) * 1;
  }

  lemma TimesOne(x: int, one: int)
    requires one == 1
    ensures x * one == x
  {
  }

  // ---------- shifts ----------

  /** `x << n` in an unsigned word of `width` bits: the bits shifted out are lost. */
  function ShiftLeft(x: nat, n: nat, width: nat): (r: nat)
  {
    if n == 0 then x % Pow2(width) else 2 * ShiftLeft(x, n - 1, width) % Pow2(width)
  }

  lemma {:induction false} ShiftLeftValue(x: nat, n: nat, width: nat)
    ensures x * Pow2(n) >= 0 && ShiftLeft(x, n, width) == (x * Pow2(n)) % Pow2(width)
  {
    MulNonneg(x, Pow2(n));
    if n > 0 {
      ShiftLeftValue(x, n - 1, width);
      var y := x * Pow2(n - 1);
      DoubleMod(y, Pow2(width));
      MulAssoc(x, 2, Pow2(n - 1));
      MulAssoc(2, x, Pow2(n - 1));
    }
  }

  lemma DoubleMod(y: nat, m: nat)
    requires m > 0
    ensures (2 * (y % m)) % m == (2 * y) % m
  {
    ModSame(y % m, y, m);
    ModSame(y, y, m);
  }

  // ---------- words as sets of bits ----------

  /** The word whose bit `i` is set when `lo + i` is in `s`, for the `n` lowest bits. */
  ghost function Word(s: set<nat>, lo: nat, n: nat): nat {
    if n == 0 then 0 else Word(s, lo, n - 1) + if lo + n - 1 in s then Pow2(n - 1) else 0
  }

  /** `w | (1 << b)`. */
  function OrBit(w: nat, b: nat): nat {
    if w / Pow2(b) % 2 == 1 then w else w + Pow2(b)
  }

  lemma {:induction false} WordFull(s: set<nat>, lo: nat, n: nat)
    ensures Word(s, lo, n) < Pow2(n)
    ensures Word(s, lo, n) == Pow2(n) - 1 <==> forall i :: lo <= i < lo + n ==> i in s
  {
    if n > 0 {
      WordFull(s, lo, n - 1);
    }
  }

  /** No element at or past `lo + k`: the higher bits are clear. */
  lemma {:induction false} WordTail(s: set<nat>, lo: nat, k: nat, n: nat)
    requires k <= n && forall i :: i in s ==> i < lo + k || i >= lo + n
    ensures Word(s, lo, n) == Word(s, lo, k)
    decreases n
  {
    if k < n {
      WordTail(s, lo, k, n - 1);
    }
  }

  lemma {:induction false} WordBits(s: set<nat>, lo: nat, b: nat, n: nat) returns (high: nat)
    requires b < n
    ensures Word(s, lo, n) == ((if lo + b in s then 1 else 0) + 2 * high) * Pow2(b) + Word(s, lo, b)
    decreases n
  {
    var bit := if lo + b in s then 1 else 0;
    if n == b + 1 {
      high := 0;
      TimesOne(Pow2(b), 1);
    } else {
      var h := WordBits(s, lo, b, n - 1);
      var top := if lo + n - 1 in s then Pow2(n - 2 - b) else 0;
      high := h + top;
      Pow2Add(n - 2 - b, b + 1);
      MulAssoc(top, 2, Pow2(b));
      MulDist(bit + 2 * h, 2 * top, Pow2(b));
    }
  }

  lemma BitTest(s: set<nat>, lo: nat, b: nat, n: nat)
    requires b < n
    ensures Word(s, lo, n) / Pow2(b) % 2 == if lo + b in s then 1 else 0
  {
    var high := WordBits(s, lo, b, n);
    var bit := if lo + b in s then 1 else 0;
    var w, p, d := Word(s, lo, n), Pow2(b), bit + 2 * high;
    assert w / p == d by {
      WordFull(s, lo, b);
      ModUnique(w, p, d, Word(s, lo, b));
    }
    ModUnique(d, 2, high, bit);
  }

  lemma {:induction false} WordInsert(s: set<nat>, lo: nat, b: nat, n: nat)
    requires lo + b !in s
    ensures Word(s + {lo + b}, lo, n) == Word(s, lo, n) + if b < n then Pow2(b) else 0
    decreases n
  {
    if n > 0 {
      WordInsert(s, lo, b, n - 1);
    }
  }

  lemma {:induction false} WordOutside(s: set<nat>, x: nat, lo: nat, n: nat)
    requires x < lo || x >= lo + n
    ensures Word(s + {x}, lo, n) == Word(s, lo, n)
    decreases n
  {
    if n > 0 {
      WordOutside(s, x, lo, n - 1);
    }
  }

  lemma SetBit(s: set<nat>, lo: nat, b: nat, n: nat)
    requires b < n
    ensures OrBit(Word(s, lo, n), b) == Word(s + {lo + b}, lo, n)
  {
    BitTest(s, lo, b, n);
    if lo + b in s {
      assert s + {lo + b} == s;
    } else {
      WordInsert(s, lo, b, n);
    }
  }

  /** A set moved up by `k`, as a word, is the word times a power of two. */
  lemma {:induction false} WordMoved(s: set<nat>, t: set<nat>, k: nat, n: nat)
    requires forall i: nat :: i in t <==> i >= k && i - k in s
    ensures Word(t, 0, n + k) == Word(s, 0, n) * Pow2(k)
    decreases n
  {
    if n == 0 {
      WordTail(t, 0, 0, k);
    } else {
      WordMoved(s, t, k, n - 1);
      Pow2Add(n - 1, k);
      MulDist(Word(s, 0, n - 1), if n - 1 in s then Pow2(n - 1) else 0, Pow2(k));
      assert n + k - 1 in t <==> n - 1 in s;
    }
  }

  /** Shifting a word left moves its set of bits up. */
  lemma ShiftMoves(s: set<nat>, t: set<nat>, k: nat, width: nat)
    requires 0 < k < width && forall i: nat :: i in t <==> i >= k && i - k in s
    ensures ShiftLeft(Word(s, 0, width), k, width) == Word(t, 0, width)
  {
    var w, low, p, q := Word(s, 0, width), Word(s, 0, width - k), Pow2(k), Pow2(width - k);
    var high := WordBits(s, 0, width - k, width);
    var h := (if width - k in s then 1 else 0) + 2 * high;
    assert low * p == Word(t, 0, width) by { WordMoved(s, t, k, width - k); }
    assert q * p == Pow2(width) by { Pow2Add(width - k, k); }
    assert low * p < Pow2(width) by { WordFull(t, 0, width); }
    assert w * p == h * (q * p) + low * p by { SplitTimes(h, q, low, p); }
    ShiftLeftValue(w, k, width);
    ModUnique(w * p, q * p, h, low * p);
  }

  lemma SplitTimes(h: int, q: int, low: int, p: int)
    ensures (h * q + low) * p == h * (q * p) + low * p
  {
    MulDist(h * q, low, p);
    MulAssoc(h, q, p);
  }

  /** Exclusive or of the `n` lowest bits. */
  function Xor(a: nat, b: nat, n: nat): nat {
    if n == 0 then 0 else (a % 2 + b % 2) % 2 + 2 * Xor(a / 2, b / 2, n - 1)
  }

  lemma {:induction false} XorBound(a: nat, b: nat, n: nat)
    ensures Xor(a, b, n) < Pow2(n)
  {
    if n > 0 {
      XorBound(a / 2, b / 2, n - 1);
    }
  }

  lemma {:induction false} XorTwice(a: nat, b: nat, n: nat)
    requires a < Pow2(n)
    ensures Xor(Xor(a, b, n), b, n) == a
  {
    if n > 0 {
      var bit, rest := (a % 2 + b % 2) % 2, Xor(a / 2, b / 2, n - 1);
      calc {
        Xor(Xor(a, b, n), b, n);
        Xor(bit + 2 * rest, b, n);
        { XorLow(bit, rest, b, n); }
        (bit + b % 2) % 2 + 2 * Xor(rest, b / 2, n - 1);
        { FlipTwice(a % 2, b % 2); }
        a % 2 + 2 * Xor(rest, b / 2, n - 1);
        { XorTwice(a / 2, b / 2, n - 1); }
        a;
      }
    }
  }

  lemma XorLow(bit: nat, rest: nat, b: nat, n: nat)
    requires bit < 2 && n > 0
    ensures Xor(bit + 2 * rest, b, n) == (bit + b % 2) % 2 + 2 * Xor(rest, b / 2, n - 1)
  {
    assert (bit + 2 * rest) / 2 == rest;
  }

  lemma FlipTwice(a: nat, b: nat)
    requires a < 2 && b < 2
    ensures ((a + b) % 2 + b) % 2 == a
  {
  }

  /** Inclusive or of the `n` lowest bits. */
  function Or(a: nat, b: nat, n: nat): nat {
    if n == 0 then 0 else (if a % 2 + b % 2 > 0 then 1 else 0) + 2 * Or(a / 2, b / 2, n - 1)
  }

  lemma {:induction false} OrBound(a: nat, b: nat, n: nat)
    ensures Or(a, b, n) < Pow2(n)
  {
    if n > 0 {
      OrBound(a / 2, b / 2, n - 1);
    }
  }

  /** The highest of `n + 1` bits. */
  predicate Top(a: nat, n: nat) {
    a >= Pow2(n)
  }

  /** Both operations work on the highest bit as on any other. */
  lemma {:induction false} TopOfXorOr(a: nat, b: nat, n: nat)
    requires a < Pow2(n + 1) && b < Pow2(n + 1)
    ensures Top(Xor(a, b, n + 1), n) <==> Top(a, n) != Top(b, n)
    ensures Top(Or(a, b, n + 1), n) <==> Top(a, n) || Top(b, n)
  {
    if n > 0 {
      TopOfXorOr(a / 2, b / 2, n - 1);
    }
  }

  function BitAt(a: nat, k: nat): (bit: nat)
    ensures bit < 2
  {
    if k == 0 then a % 2 else BitAt(a / 2, k - 1)
  }

  /** A bit of the exclusive or is set exactly when the two bits differ. */
  lemma {:induction false} XorBits(a: nat, b: nat, n: nat, k: nat)
    requires k < n
    ensures BitAt(Xor(a, b, n), k) == if BitAt(a, k) == BitAt(b, k) then 0 else 1
    decreases k
  {
    LowBit((a % 2 + b % 2) % 2, Xor(a / 2, b / 2, n - 1));
    if k == 0 {
      Differ(a % 2, b % 2);
    } else {
      XorBits(a / 2, b / 2, n - 1, k - 1);
    }
  }

  lemma LowBit(bit: nat, rest: nat)
    requires bit < 2
    ensures (bit + 2 * rest) % 2 == bit && (bit + 2 * rest) / 2 == rest
  {
  }

  lemma Differ(a: nat, b: nat)
    requires a < 2 && b < 2
    ensures (a + b) % 2 == if a == b then 0 else 1
  {
  }

  function XorByte(a: byte, b: byte): byte {
    XorBound(a, b, 8);
    assert Pow2(8) == 256;
    Xor(a, b, 8)
  }

  /** The same of a byte. */
  lemma XorByteBits(a: byte, b: byte, k: nat)
    requires k < 8
    ensures BitAt(XorByte(a, b), k) == if BitAt(a, k) == BitAt(b, k) then 0 else 1
  {
    XorBits(a, b, 8, k);
  }

  // ---------- big-endian integers ----------

  function Be(n: nat, width: nat): (bs: seq<byte>)
    ensures |bs| == width
  {
    if width == 0 then [] else Be(n / 256, width - 1) + [n % 256]
  }

  function BeValue(bs: seq<byte>): nat {
    if bs == [] then 0 else 256 * BeValue(bs[..|bs| - 1]) + bs[|bs| - 1]
  }

  function Pow256(n: nat): (p: nat)
    ensures p > 0
  {
    if n == 0 then 1 else 256 * Pow256(n - 1)
  }

  lemma {:induction false} BeInverse(n: nat, width: nat)
    requires n < Pow256(width)
    ensures BeValue(Be(n, width)) == n
  {
    if width > 0 {
      BeInverse(n / 256, width - 1);
      assert Be(n, width)[..width - 1] == Be(n / 256, width - 1);
    }
  }

  lemma {:induction false} BeValueBound(bs: seq<byte>)
    ensures BeValue(bs) < Pow256(|bs|)
  {
    if bs != [] {
      BeValueBound(bs[..|bs| - 1]);
    }
  }

  lemma {:induction false} BeValueInjective(a: seq<byte>, b: seq<byte>)
    requires |a| == |b| && BeValue(a) == BeValue(b)
    ensures a == b
  {
    if a != [] {
      var n := |a| - 1;
      BeValueInjective(a[..n], b[..n]);
      assert a == a[..n] + [a[n]] && b == b[..n] + [b[n]];
    }
  }
}
