/**
 `ssl3_choose_cipher`: the server walks its priority list, whose ciphers may be grouped as
 equally preferred, and lets the client's order decide within a group.
 */
module CipherChoice {
  import opened Wrappers

  /** `mkey` and `auth` are the bits of the key exchange and authentication. */
  datatype Cipher = Cipher(id: nat, minVersion: nat, maxVersion: nat, mkey: bv32, auth: bv32)

  /** What this handshake allows: `ssl_get_compatible_server_ciphers` and the version. */
  datatype Config = Config(version: nat, maskK: bv32, maskA: bv32)

  predicate Compatible(c: Cipher, cfg: Config) {
    c.minVersion <= cfg.version <= c.maxVersion && c.mkey & cfg.maskK != 0 && c.auth & cfg.maskA != 0
  }

  /** The ciphers of `prio` that could be chosen. */
  predicate Match(prio: seq<Cipher>, allow: seq<Cipher>, cfg: Config, i: nat)
    requires i < |prio|
  {
    Compatible(prio[i], cfg) && prio[i] in allow
  }

  /** Where a cipher of `allow` stands in it. */
  function Place(allow: seq<Cipher>, c: Cipher): (k: nat)
    requires c in allow
    ensures k < |allow| && allow[k] == c && c !in allow[..k]
  {
    if allow[0] == c then 0 else 1 + Place(allow[1..], c)
  }

  /** `sk_find`: the first position. */
  method Find(allow: seq<Cipher>, c: Cipher) returns (found: bool, k: nat)
    ensures found <==> c in allow
    ensures found ==> k == Place(allow, c)
  {
    k := 0;
    while k < |allow|
      invariant k <= |allow| && c !in allow[..k]
    {
      if allow[k] == c {
        PlaceUnique(allow, c, k);
        return true, k;
      }
      k := k + 1;
    }
    found := false;
  }

  /** Whether cipher `c` could be chosen, and its place in `allow`. */
  method Matches(c: Cipher, allow: seq<Cipher>, cfg: Config) returns (b: bool, k: nat)
    ensures b <==> Compatible(c, cfg) && c in allow
    ensures b ==> k == Place(allow, c)
  {
    k := 0;
    b := Compatible(c, cfg);
    if b {
      b, k := Find(allow, c);
    }
  }

  lemma {:induction false} PlaceUnique(allow: seq<Cipher>, c: Cipher, k: nat)
    requires k < |allow| && allow[k] == c && c !in allow[..k]
    ensures Place(allow, c) == k
  {
    if k > 0 {
      assert allow[..k] == [allow[0]] + allow[1..][..k - 1];
      PlaceUnique(allow[1..], c, k - 1);
    }
  }

  // ---------- what is preferred ----------

  /** Positions `lo` to `hi` are one group: each but the last is flagged as continuing. */
  ghost predicate Group(flags: seq<bool>, lo: nat, hi: nat) {
    && lo < hi <= |flags|
    && (lo == 0 || !flags[lo - 1])
    && (forall i :: lo <= i < hi - 1 ==> flags[i])
    && !flags[hi - 1]
  }

  ghost predicate NoMatch(prio: seq<Cipher>, allow: seq<Cipher>, cfg: Config, lo: nat, hi: nat)
    requires hi <= |prio|
  {
    forall i :: lo <= i < hi ==> !Match(prio, allow, cfg, i)
  }

  /** Among the matches from `lo` to `hi`, `c` comes first in `allow`. */
  ghost predicate Best(prio: seq<Cipher>, allow: seq<Cipher>, cfg: Config, lo: nat, hi: nat, c: Cipher)
    requires hi <= |prio|
  {
    && (exists i :: lo <= i < hi && Match(prio, allow, cfg, i) && prio[i] == c)
    && (forall i :: lo <= i < hi && Match(prio, allow, cfg, i) ==> Place(allow, c) <= Place(allow, prio[i]))
  }

  /** The choice: the best match of the first group that has one. */
  ghost predicate Chosen(prio: seq<Cipher>, flags: seq<bool>, allow: seq<Cipher>, cfg: Config,
                         lo: nat, hi: nat, c: Cipher)
    requires |flags| == |prio|
  {
    Group(flags, lo, hi) && NoMatch(prio, allow, cfg, 0, lo) && Best(prio, allow, cfg, lo, hi, c)
  }

  /** One kind of key exchange, or of authentication. */
  predicate OneBit(m: bv32) {
    m != 0 && m & (m - 1) == 0
  }

  /** A kind that both sides' bits include. */
  predicate InCommon(m: bv32, a: bv32, b: bv32) {
    OneBit(m) && a & m == m && b & m == m
  }

  /** The lowest bit of `x`. */
  function Lowest(x: bv32): bv32 {
    x & (0 - x)
  }

  lemma LowestIsThere(x: bv32)
    requires x != 0
    ensures Lowest(x) != 0
  {
  }

  lemma LowestIsAlone(x: bv32)
    ensures Lowest(x) & (Lowest(x) - 1) == 0
  {
  }

  lemma LowestIsIn(x: bv32)
    ensures x & Lowest(x) == Lowest(x)
  {
  }

  lemma InBoth(a: bv32, b: bv32, m: bv32)
    requires a & b & m == m
    ensures a & m == m && b & m == m
  {
  }

  lemma LowestBit(a: bv32, b: bv32) returns (m: bv32)
    requires a & b != 0
    ensures InCommon(m, a, b)
  {
    var x := a & b;
    m := Lowest(x);
    LowestIsThere(x);
    LowestIsAlone(x);
    LowestIsIn(x);
    InBoth(a, b, m);
  }

  lemma BitsMeet(m: bv32, a: bv32, b: bv32)
    requires InCommon(m, a, b)
    ensures a & b != 0
  {
  }

  predicate InRange(c: Cipher, version: nat) {
    c.minVersion <= version && version <= c.maxVersion
  }

  /** What makes a cipher a match: it is in both lists, its range has the version, and its key
      exchange and its authentication are each of a kind this handshake can do. */
  lemma MatchAllows(prio: seq<Cipher>, allow: seq<Cipher>, cfg: Config, i: nat) returns (k: bv32, a: bv32)
    requires i < |prio| && Match(prio, allow, cfg, i)
    ensures prio[i] in allow && InRange(prio[i], cfg.version)
    ensures InCommon(k, prio[i].mkey, cfg.maskK) && InCommon(a, prio[i].auth, cfg.maskA)
  {
    k := LowestBit(prio[i].mkey, cfg.maskK);
    a := LowestBit(prio[i].auth, cfg.maskA);
  }

  /** And that is all it takes. */
  lemma AllowsMatch(prio: seq<Cipher>, allow: seq<Cipher>, cfg: Config, i: nat, k: bv32, a: bv32)
    requires i < |prio| && prio[i] in allow && InRange(prio[i], cfg.version)
    requires InCommon(k, prio[i].mkey, cfg.maskK) && InCommon(a, prio[i].auth, cfg.maskA)
    ensures Match(prio, allow, cfg, i)
  {
    BitsMeet(k, prio[i].mkey, cfg.maskK);
    BitsMeet(a, prio[i].auth, cfg.maskA);
  }

  /** The flags of a list without groups. */
  function Alone(n: nat): (flags: seq<bool>)
    ensures |flags| == n && forall i :: 0 <= i < n ==> !flags[i]
  {
    seq(n, _ => false)
  }

  /** Without groups the choice is the first match of the priority list. */
  lemma AloneIsFirst(prio: seq<Cipher>, allow: seq<Cipher>, cfg: Config, lo: nat, hi: nat, c: Cipher)
    requires Chosen(prio, Alone(|prio|), allow, cfg, lo, hi, c)
    ensures hi == lo + 1 && prio[lo] == c && Match(prio, allow, cfg, lo) && NoMatch(prio, allow, cfg, 0, lo)
  {
    assert !Alone(|prio|)[lo];
  }

  lemma GroupsApart(flags: seq<bool>, lo: nat, hi: nat, lo': nat, hi': nat)
    requires Group(flags, lo, hi) && Group(flags, lo', hi') && lo < lo'
    ensures hi <= lo'
  {
    assert !flags[lo' - 1];
  }

  /** No other cipher could be the choice. */
  lemma ChosenUnique(prio: seq<Cipher>, flags: seq<bool>, allow: seq<Cipher>, cfg: Config,
                     lo: nat, hi: nat, c: Cipher, lo': nat, hi': nat, c': Cipher)
    requires |flags| == |prio|
    requires Chosen(prio, flags, allow, cfg, lo, hi, c) && Chosen(prio, flags, allow, cfg, lo', hi', c')
    ensures c == c'
  {
    var i :| lo <= i < hi && Match(prio, allow, cfg, i) && prio[i] == c;
    var i' :| lo' <= i' < hi' && Match(prio, allow, cfg, i') && prio[i'] == c';
    if lo < lo' {
      GroupsApart(flags, lo, hi, lo', hi');
      assert false;
    } else if lo' < lo {
      GroupsApart(flags, lo', hi', lo, hi);
      assert false;
    }
    assert hi == hi';
    assert Place(allow, c) == Place(allow, c');
  }

  /** Some match stands in a group that is closed. */
  ghost predicate Reachable(prio: seq<Cipher>, flags: seq<bool>, allow: seq<Cipher>, cfg: Config)
    requires |flags| == |prio|
  {
    exists i, j :: 0 <= i <= j < |prio| && Match(prio, allow, cfg, i) && !flags[j]
  }

  /** Some cipher is in both lists and compatible. */
  ghost predicate Shared(prio: seq<Cipher>, allow: seq<Cipher>, cfg: Config) {
    exists c :: c in prio && c in allow && Compatible(c, cfg)
  }

  lemma ChosenReachable(prio: seq<Cipher>, flags: seq<bool>, allow: seq<Cipher>, cfg: Config,
                        lo: nat, hi: nat, c: Cipher)
    requires |flags| == |prio| && Chosen(prio, flags, allow, cfg, lo, hi, c)
    ensures Reachable(prio, flags, allow, cfg)
  {
    var i :| lo <= i < hi && Match(prio, allow, cfg, i) && prio[i] == c;
    assert !flags[hi - 1];
  }

  lemma NoneReachable(prio: seq<Cipher>, flags: seq<bool>, allow: seq<Cipher>, cfg: Config, lo: nat)
    requires |flags| == |prio| && lo <= |prio| && NoMatch(prio, allow, cfg, 0, lo)
    requires forall i :: lo <= i < |prio| ==> flags[i]
    ensures !Reachable(prio, flags, allow, cfg)
  {
  }

  /** A list whose last group is closed reaches every match. */
  lemma ClosedReaches(prio: seq<Cipher>, flags: seq<bool>, allow: seq<Cipher>, cfg: Config)
    requires |flags| == |prio| && (flags == [] || !flags[|flags| - 1])
    ensures Reachable(prio, flags, allow, cfg) <==> Shared(prio, allow, cfg)
  {
    if Shared(prio, allow, cfg) {
      var c :| c in prio && c in allow && Compatible(c, cfg);
      var i :| 0 <= i < |prio| && prio[i] == c;
      assert Match(prio, allow, cfg, i) && !flags[|flags| - 1];
    }
    if Reachable(prio, flags, allow, cfg) {
      var i, j :| 0 <= i <= j < |prio| && Match(prio, allow, cfg, i) && !flags[j];
      assert prio[i] in prio && prio[i] in allow && Compatible(prio[i], cfg);
    }
  }

  // ---------- the loop ----------

  /** `group_min` so far: -1, or the place of the best match from `lo` to `i`. */
  ghost predicate Least(prio: seq<Cipher>, allow: seq<Cipher>, cfg: Config, lo: nat, i: nat, g: int)
    requires i <= |prio|
  {
    if g == -1 then NoMatch(prio, allow, cfg, lo, i)
    else 0 <= g < |allow| && g == Place(allow, allow[g]) && Best(prio, allow, cfg, lo, i, allow[g])
  }

  lemma LeastMatch(prio: seq<Cipher>, allow: seq<Cipher>, cfg: Config, lo: nat, i: nat, g: int)
    requires lo <= i < |prio| && Least(prio, allow, cfg, lo, i, g) && Match(prio, allow, cfg, i)
    ensures Least(prio, allow, cfg, lo, i + 1,
                  if g == -1 || g > Place(allow, prio[i]) then Place(allow, prio[i]) else g)
  {
  }

  lemma LeastSkip(prio: seq<Cipher>, allow: seq<Cipher>, cfg: Config, lo: nat, i: nat, g: int)
    requires lo <= i < |prio| && Least(prio, allow, cfg, lo, i, g) && !Match(prio, allow, cfg, i)
    ensures Least(prio, allow, cfg, lo, i + 1, g)
  {
    if g != -1 {
      var k :| lo <= k < i && Match(prio, allow, cfg, k) && prio[k] == allow[g];
    }
  }

  /** The walk is in the group that starts at `lo`, and there was no match before it. */
  ghost predicate Inside(prio: seq<Cipher>, flags: seq<bool>, allow: seq<Cipher>, cfg: Config, lo: nat, i: nat)
    requires |flags| == |prio|
  {
    && lo <= i <= |prio| && (lo == 0 || !flags[lo - 1])
    && (forall j :: lo <= j < i ==> flags[j])
    && NoMatch(prio, allow, cfg, 0, lo)
  }

  lemma Leave(prio: seq<Cipher>, flags: seq<bool>, allow: seq<Cipher>, cfg: Config, lo: nat, i: nat, g: int)
    requires |flags| == |prio| && i < |prio| && Inside(prio, flags, allow, cfg, lo, i) && !flags[i]
    requires Least(prio, allow, cfg, lo, i + 1, g)
    ensures g != -1 ==> Chosen(prio, flags, allow, cfg, lo, i + 1, allow[g])
    ensures g == -1 ==> Inside(prio, flags, allow, cfg, i + 1, i + 1)
  {
  }

  function FlagsOf(prio: seq<Cipher>, inGroup: Option<seq<bool>>): (flags: seq<bool>)
    requires inGroup.Some? ==> |inGroup.value| == |prio|
    ensures |flags| == |prio|
  {
    if inGroup.None? then Alone(|prio|) else inGroup.value
  }

  /** One turn of the walk: `least` is the next `group_min`. */
  method Turn(prio: seq<Cipher>, inGroup: Option<seq<bool>>, allow: seq<Cipher>, cfg: Config, i: nat,
              groupMin: int, ghost lo: nat)
    returns (r: Option<Cipher>, least: int)
    requires (inGroup.Some? ==> |inGroup.value| == |prio|) && (inGroup.None? ==> groupMin == -1) && i < |prio|
    requires Inside(prio, FlagsOf(prio, inGroup), allow, cfg, lo, i) && Least(prio, allow, cfg, lo, i, groupMin)
    ensures var flags := FlagsOf(prio, inGroup);
            if r.Some? then Chosen(prio, flags, allow, cfg, lo, i + 1, r.value)
            else var next := if flags[i] then lo else i + 1;
                 Inside(prio, flags, allow, cfg, next, i + 1) && Least(prio, allow, cfg, next, i + 1, least)
    ensures inGroup.None? && r.None? ==> least == -1
  {
    ghost var flags := FlagsOf(prio, inGroup);
    assert flags[i] == (inGroup.Some? && inGroup.value[i]);
    var matches, index := Matches(prio[i], allow, cfg);
    least := groupMin;
    if matches {
      LeastMatch(prio, allow, cfg, lo, i, groupMin);
      if inGroup.Some? && inGroup.value[i] {
        if least == -1 || least > index {
          least := index;
        }
      } else {
        if least != -1 && least < index {
          index := least;
        }
        Leave(prio, flags, allow, cfg, lo, i, index);
        return Some(allow[index]), least;
      }
    } else {
      LeastSkip(prio, allow, cfg, lo, i, groupMin);
    }
    if !flags[i] {
      Leave(prio, flags, allow, cfg, lo, i, least);
    }
    r := if inGroup.Some? && !inGroup.value[i] && least != -1 then Some(allow[least]) else None;
  }

  /** The walk over `prio`, whose group flags are null for a client's list.  It chooses a
      cipher exactly when some match is followed, at once or later, by the end of a group. */
  method Walk(prio: seq<Cipher>, inGroup: Option<seq<bool>>, allow: seq<Cipher>, cfg: Config)
    returns (r: Option<Cipher>, ghost lo: nat, ghost hi: nat)
    requires inGroup.Some? ==> |inGroup.value| == |prio|
    ensures r.Some? <==> Reachable(prio, FlagsOf(prio, inGroup), allow, cfg)
    ensures r.Some? ==> Chosen(prio, FlagsOf(prio, inGroup), allow, cfg, lo, hi, r.value)
  {
    ghost var flags := FlagsOf(prio, inGroup);
    var groupMin: int := -1;
    lo, hi := 0, 0;
    for i := 0 to |prio|
      invariant Inside(prio, flags, allow, cfg, lo, i)
      invariant Least(prio, allow, cfg, lo, i, groupMin)
      invariant inGroup.None? ==> groupMin == -1
    {
      r, groupMin := Turn(prio, inGroup, allow, cfg, i, groupMin, lo);
      if r.Some? {
        hi := i + 1;
        ChosenReachable(prio, flags, allow, cfg, lo, hi, r.value);
        return;
      }
      if !flags[i] {
        lo := i + 1;
      }
    }
    NoneReachable(prio, flags, allow, cfg, lo);
    r := None;
  }

  /** `ssl3_choose_cipher`, once the client's list has been parsed.  A configured list ends
      with a closed group (ssl_cipher.cc); then a cipher is chosen exactly when some cipher
      is in both lists and compatible. */
  method ChooseCipher(server: seq<Cipher>, flags: seq<bool>, client: seq<Cipher>, serverPreference: bool, cfg: Config)
    returns (r: Option<Cipher>, ghost lo: nat, ghost hi: nat)
    requires |flags| == |server|
    ensures r.Some? && serverPreference ==> Chosen(server, flags, client, cfg, lo, hi, r.value)
    ensures r.Some? && !serverPreference ==> Chosen(client, Alone(|client|), server, cfg, lo, hi, r.value)
    ensures r.Some? ==> r.value in client && r.value in server && Compatible(r.value, cfg)
    ensures serverPreference ==> (r.Some? <==> Reachable(server, flags, client, cfg))
    ensures flags == [] || !flags[|flags| - 1] || !serverPreference ==> (r.Some? <==> Shared(client, server, cfg))
  {
    if serverPreference {
      r, lo, hi := Walk(server, Some(flags), client, cfg);
      if flags == [] || !flags[|flags| - 1] {
        ClosedReaches(server, flags, client, cfg);
      }
    } else {
      r, lo, hi := Walk(client, None, server, cfg);
      ClosedReaches(client, Alone(|client|), server, cfg);
    }
  }
}
