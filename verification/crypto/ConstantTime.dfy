/**
 Branch-free comparison and selection (`crypto/internal.h`) on 64-bit words, and the
 removal of PKCS#1 padding from an RSA premaster secret that is built on them: it yields
 the decrypted secret if the padding and version are right, the random one otherwise.
 */
module ConstantTime {
  import opened Words

  const TRUE_W: bv64 := 0xFFFF_FFFF_FFFF_FFFF
  const TRUE_8: bv8 := 0xFF

  // ---------- words ----------

  function Msb(a: bv64): (m: bv64)
    ensures m == if a >= 0x8000_0000_0000_0000 then TRUE_W else 0
  {
    0 - (a >> 63)
  }

  function IsZero(a: bv64): (m: bv64)
    ensures m == if a == 0 then TRUE_W else 0
  {
    Msb(!a & (a - 1))
  }

  function Eq(a: bv64, b: bv64): (m: bv64)
    ensures m == if a == b then TRUE_W else 0
  {
    IsZero(a ^ b)
  }

  function Select(mask: bv64, a: bv64, b: bv64): (r: bv64)
    ensures mask == TRUE_W ==> r == a
    ensures mask == 0 ==> r == b
  {
    (mask & a) | (!mask & b)
  }

  // ---------- comparing ----------

  /** `constant_time_msb_w` on a word as a number. */
  function MsbWord(a: nat): nat {
    (0 - a / Pow2(63)) % Pow2(64)
  }

  /** The word whose top bit `constant_time_lt_w` spreads, for words of `n + 1` bits. */
  function LtBits(a: nat, b: nat, n: nat): (w: nat) {
    Xor(a, Or(Xor(a, b, n + 1), Xor((a - b) % Pow2(n + 1), a, n + 1), n + 1), n + 1)
  }

  /** `constant_time_lt_w`. */
  function LtWord(a: nat, b: nat): nat {
    MsbWord(LtBits(a, b, 63))
  }

  lemma LtTop(a: nat, b: nat, n: nat)
    requires a < Pow2(n + 1) && b < Pow2(n + 1)
    ensures LtBits(a, b, n) < Pow2(n + 1) && (Top(LtBits(a, b, n), n) <==> a < b)
  {
    TopOfDifference(a, b, n);
    TopOfMix(a, b, (a - b) % Pow2(n + 1), n);
  }

  lemma TopOfMix(a: nat, b: nat, d: nat, n: nat)
    requires a < Pow2(n + 1) && b < Pow2(n + 1) && d < Pow2(n + 1)
    ensures var w := Xor(a, Or(Xor(a, b, n + 1), Xor(d, a, n + 1), n + 1), n + 1);
            w < Pow2(n + 1) && (Top(w, n) <==> if Top(a, n) == Top(b, n) then Top(d, n) else Top(b, n))
  {
    var x, y := Xor(a, b, n + 1), Xor(d, a, n + 1);
    var z := Or(x, y, n + 1);
    XorBound(a, b, n + 1);
    XorBound(d, a, n + 1);
    OrBound(x, y, n + 1);
    XorBound(a, z, n + 1);
    TopOfXorOr(a, b, n);
    TopOfXorOr(d, a, n);
    TopOfXorOr(x, y, n);
    TopOfXorOr(a, z, n);
  }

  /** All ones exactly when `a` is less than `b`. */
  lemma LtIsLess(a: nat, b: nat)
    requires a < Pow2(64) && b < Pow2(64)
    ensures LtWord(a, b) == if a < b then Pow2(64) - 1 else 0
  {
    LtTop(a, b, 63);
    MsbIsMask(LtBits(a, b, 63));
  }

  /** Words with equal top bits compare as the top bit of their difference says. */
  lemma TopOfDifference(a: nat, b: nat, n: nat)
    requires a < Pow2(n + 1) && b < Pow2(n + 1)
    ensures Top(a, n) == Top(b, n) ==> (Top((a - b) % Pow2(n + 1), n) <==> a < b)
    ensures Top(a, n) != Top(b, n) ==> (Top(b, n) <==> a < b)
  {
    if a < b {
      ModUnique(a - b, Pow2(n + 1), -1, a - b + Pow2(n + 1));
    } else {
      SmallMod(a - b, Pow2(n + 1));
    }
  }

  lemma MsbIsMask(w: nat)
    requires w < Pow2(64)
    ensures MsbWord(w) == if Top(w, 63) then Pow2(64) - 1 else 0
  {
    assert Pow2(64) == 2 * Pow2(63);
    MaskOf(w, Pow2(63), Pow2(64));
  }

  lemma MaskOf(w: nat, p: nat, m: nat)
    requires 0 < p && m == 2 * p && w < m
    ensures (0 - w / p) % m == if w >= p then m - 1 else 0
  {
    if w >= p {
      ModUnique(w, p, 1, w - p);
      ModUnique(-1, m, -1, m - 1);
    } else {
      ModUnique(w, p, 0, w);
      SmallMod(0, m);
    }
  }

  // ---------- bytes ----------

  function IsZero8(a: bv64): (m: bv8)
    ensures m == if a == 0 then TRUE_8 else 0
  {
    (IsZero(a) & 0xFF) as bv8
  }

  function Eq8(a: bv64, b: bv64): (m: bv8)
    ensures m == if a == b then TRUE_8 else 0
  {
    (Eq(a, b) & 0xFF) as bv8
  }

  /** A byte is compared as a word. */
  lemma Widened(a: bv8, b: bv8)
    ensures a as bv64 == b as bv64 <==> a == b
  {
    assert (a as bv64) as bv8 == a && (b as bv64) as bv8 == b;
  }

  function Select8(mask: bv8, a: bv8, b: bv8): (r: bv8)
    ensures mask == TRUE_8 ==> r == a
    ensures mask == 0 ==> r == b
  {
    (Select(mask as bv64, a as bv64, b as bv64) & 0xFF) as bv8
  }

  // ---------- the premaster secret ----------

  const PREMASTER: nat := 48

  /** Section 7.2.2 of RFC 3447: 00 02, padding without zeros, 00; then, by section
      7.4.7.1 of RFC 5246, the version the client offered. */
  ghost predicate WellPadded(d: seq<bv8>, major: bv8, minor: bv8)
    requires |d| >= PREMASTER + 11
  {
    var pad := |d| - PREMASTER;
    && d[0] == 0 && d[1] == 2
    && (forall i :: 2 <= i < pad - 1 ==> d[i] != 0)
    && d[pad - 1] == 0
    && d[pad] == major && d[pad + 1] == minor
  }

  /** The mask so far stands for the conjunction so far. */
  ghost predicate Means(mask: bv8, b: bool) {
    mask == if b then TRUE_8 else 0
  }

  lemma AndMeans(m: bv8, b: bool, n: bv8, c: bool)
    requires Means(m, b) && Means(n, c)
    ensures Means(m & n, b && c) && Means(!m, !b)
  {
  }

  /** Computes the mask without a branch on the data. */
  method CheckPadding(d: seq<bv8>, major: bv8, minor: bv8) returns (good: bv8)
    requires |d| >= PREMASTER + 11
    ensures Means(good, WellPadded(d, major, minor))
  {
    var pad := |d| - PREMASTER;
    Widened(d[0], 0);
    Widened(d[1], 2);
    var first, second := Eq8(d[0] as bv64, 0), Eq8(d[1] as bv64, 2);
    good := first & second;
    AndMeans(first, d[0] == 0, second, d[1] == 2);
    ghost var holds := d[0] == 0 && d[1] == 2;
    for i := 2 to pad - 1
      invariant Means(good, holds)
      invariant holds <==> d[0] == 0 && d[1] == 2 && forall j :: 2 <= j < i ==> d[j] != 0
    {
      Widened(d[i], 0);
      var zero := IsZero8(d[i] as bv64);
      AndMeans(zero, d[i] == 0, 0, false);
      AndMeans(good, holds, !zero, d[i] != 0);
      good, holds := good & !zero, holds && d[i] != 0;
    }
    Widened(d[pad - 1], 0);
    Widened(d[pad], major);
    Widened(d[pad + 1], minor);
    var end := IsZero8(d[pad - 1] as bv64);
    var high, low := Eq8(d[pad] as bv64, major as bv64), Eq8(d[pad + 1] as bv64, minor as bv64);
    AndMeans(good, holds, end, d[pad - 1] == 0);
    good, holds := good & end, holds && d[pad - 1] == 0;
    AndMeans(good, holds, high, d[pad] == major);
    good, holds := good & high, holds && d[pad] == major;
    AndMeans(good, holds, low, d[pad + 1] == minor);
    good, holds := good & low, holds && d[pad + 1] == minor;
  }

  /** The RSA branch of `do_read_client_key_exchange`, from the decrypted buffer on:
      `premaster` holds random bytes and receives the outcome.  A buffer too short for any
      padding is an error. */
  method SelectPremaster(d: seq<bv8>, major: bv8, minor: bv8, premaster: array<bv8>) returns (ok: bool)
    requires premaster.Length == PREMASTER
    modifies premaster
    ensures ok == (|d| >= PREMASTER + 11)
    ensures ok ==> premaster[..] == if WellPadded(d, major, minor) then d[|d| - PREMASTER..] else old(premaster[..])
    ensures !ok ==> premaster[..] == old(premaster[..])
  {
    if |d| < 11 + PREMASTER {
      return false;
    }
    var pad := |d| - PREMASTER;
    var good := CheckPadding(d, major, minor);
    for i := 0 to PREMASTER
      invariant forall j :: i <= j < PREMASTER ==> premaster[j] == old(premaster[j])
      invariant forall j :: 0 <= j < i ==>
        premaster[j] == if WellPadded(d, major, minor) then d[pad + j] else old(premaster[j])
    {
      premaster[i] := Select8(good, d[pad + i], premaster[i]);
    }
    ok := true;
  }
}
