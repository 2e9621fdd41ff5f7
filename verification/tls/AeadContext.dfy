/**
 `SSLAEADContext`: which nonce and additional data a record is sealed and opened with.
 The AEAD itself is abstract.  Every construction that takes its nonce from the sequence
 number gives distinct nonces to distinct numbers, and opening rebuilds the nonce and
 additional data that sealing used.
 */
module AeadContext {
  import opened Wrappers
  import opened Words
  import opened ReplayWindow
  import RecordWriting

  const SSL3: nat := 0x0300
  const TLS13: nat := 0x0304
  const MAX_NONCE: nat := 24

  /** The algorithms: two AEADs with nonces of 12 bytes, and the older suites, in which a
      MAC key and perhaps an IV are part of the AEAD's key. */
  datatype Algorithm = AesGcm | ChaCha20 | Stateful(macLen: nat, ivLen: nat, nonceLen: nat)

  function NonceLength(alg: Algorithm): nat {
    if alg.Stateful? then alg.nonceLen else 12
  }

  /** The fixed IV that `ssl_cipher_get_evp_aead` asks for. */
  function FixedIvLength(alg: Algorithm, version: nat): nat {
    if alg.Stateful? then alg.ivLen
    else if version >= TLS13 || alg.ChaCha20? then 12
    else 4
  }

  function MacKeyLength(alg: Algorithm): nat {
    if alg.Stateful? then alg.macLen else 0
  }

  datatype Context = Context(fixedNonce: seq<byte>, variableLen: nat, inRecord: bool, random: bool,
                             omitLength: bool, omitVersion: bool, omitAd: bool, xor: bool)

  /** `SSLAEADContext::Create`.  A MAC key is what tells the older suites apart. */
  function Create(alg: Algorithm, version: nat, macKey: seq<byte>, fixedIv: seq<byte>): Option<Context> {
    if |fixedIv| != FixedIvLength(alg, version) || |macKey| != MacKeyLength(alg) then None
    else if macKey == [] then
      if alg.Stateful? then None
      else if version >= TLS13 then Some(Context(fixedIv, 8, false, false, false, false, true, true))
      else if alg.ChaCha20? then Some(Context(fixedIv, 8, false, false, false, false, false, true))
      else Some(Context(fixedIv, NonceLength(alg) - |fixedIv|, true, false, false, false, false, false))
    else if version >= TLS13 then None
    else Some(Context([], NonceLength(alg), true, true, true, version == SSL3, false, false))
  }

  /** What the assertions in `Open` and `SealScatter` rely on. */
  predicate Sound(c: Context) {
    && (c.random ==> c.inRecord)
    && (!c.random ==> c.variableLen == 8)
    && (c.xor ==> !c.inRecord && |c.fixedNonce| >= c.variableLen)
    && |c.fixedNonce| + c.variableLen <= MAX_NONCE
  }

  /** `Create` makes sound contexts, with nonces of the length the AEAD takes. */
  lemma CreateSound(alg: Algorithm, version: nat, macKey: seq<byte>, fixedIv: seq<byte>, v: seq<byte>)
    requires Create(alg, version, macKey, fixedIv).Some? && NonceLength(alg) <= MAX_NONCE
    requires |v| == Create(alg, version, macKey, fixedIv).value.variableLen
    ensures Sound(Create(alg, version, macKey, fixedIv).value)
    ensures |NonceOf(Create(alg, version, macKey, fixedIv).value, v)| == NonceLength(alg)
    ensures Create(alg, version, macKey, fixedIv).value.random == alg.Stateful?
  {
  }

  function XorAll(a: seq<byte>, b: seq<byte>): (r: seq<byte>)
    requires |a| == |b|
    ensures |r| == |a|
  {
    seq(|a|, i requires 0 <= i < |a| => XorByte(a[i], b[i]))
  }

  function Zeros(n: nat): (r: seq<byte>)
    ensures |r| == n
  {
    seq(n, _ => 0)
  }

  /** The nonce, from its variable part. */
  function NonceOf(c: Context, variable: seq<byte>): seq<byte>
    requires Sound(c) && |variable| == c.variableLen
  {
    if c.xor then XorAll(Zeros(|c.fixedNonce| - c.variableLen) + variable, c.fixedNonce)
    else c.fixedNonce + variable
  }

  /** `GetAdditionalData`. */
  function AdditionalData(c: Context, typ: byte, version: nat, number: Number, plainLen: nat): seq<byte> {
    if c.omitAd then []
    else
      number + [typ]
      + (if c.omitVersion then [] else Be(version, 2))
      + (if c.omitLength then [] else Be(plainLen, 2))
  }

  /** How nonces are made up, by construction: in TLS 1.3 and with ChaCha20, the number is
      combined with the fixed part, lined up at its end; with AES-GCM the fixed four bytes come
      first; the older suites take all of it from the random generator. */
  lemma NonceLayout(alg: Algorithm, version: nat, macKey: seq<byte>, fixedIv: seq<byte>, v: seq<byte>)
    requires Create(alg, version, macKey, fixedIv).Some? && NonceLength(alg) <= MAX_NONCE
    requires |v| == Create(alg, version, macKey, fixedIv).value.variableLen
    ensures var nonce := NonceOf(Create(alg, version, macKey, fixedIv).value, v);
            if alg.Stateful? then nonce == v && |v| == alg.nonceLen
            else if version < 0x0304 && alg.AesGcm? then |fixedIv| == 4 && |v| == 8 && nonce == fixedIv + v
            else
              && |fixedIv| == 12 && |v| == 8 && |nonce| == 12
              && (forall i :: 0 <= i < 4 ==> nonce[i] == XorByte(0, fixedIv[i]))
              && (forall i :: 4 <= i < 12 ==> nonce[i] == XorByte(v[i - 4], fixedIv[i]))
  {
    var c := Create(alg, version, macKey, fixedIv).value;
    if c.xor {
      assert |Zeros(|c.fixedNonce| - c.variableLen) + v| == 12;
    }
  }

  /** AES-GCM before TLS 1.3 and the older suites put the variable part of the nonce in front
      of the sealed plaintext; the others put nothing there. */
  lemma RecordLayout(alg: Algorithm, version: nat, macKey: seq<byte>, fixedIv: seq<byte>, a: Aead, typ: byte,
                     recordVersion: nat, number: Number, v: seq<byte>, plain: seq<byte>)
    requires Create(alg, version, macKey, fixedIv).Some? && NonceLength(alg) <= MAX_NONCE
    requires |v| == Create(alg, version, macKey, fixedIv).value.variableLen
    ensures Sound(Create(alg, version, macKey, fixedIv).value)
    ensures var c := Create(alg, version, macKey, fixedIv).value;
            var body := a.seal(NonceOf(c, v), AdditionalData(c, typ, recordVersion, number, |plain|), plain);
            Sealed(c, a, typ, recordVersion, number, v, plain)
            == if alg.Stateful? || (alg.AesGcm? && version < 0x0304) then v + body else body
  {
    var c := Create(alg, version, macKey, fixedIv).value;
    var body := a.seal(NonceOf(c, v), AdditionalData(c, typ, recordVersion, number, |plain|), plain);
    assert [] + body == body;
  }

  lemma TwoBytes(n: nat)
    ensures Be(n, 2) == [n / 256 % 256, n % 256]
  {
    assert Be(n / 256, 1) == Be(n / 256 / 256, 0) + [n / 256 % 256];
  }

  /** What is authenticated beside the plaintext, by construction: the AEADs of TLS 1.2 cover
      number, type, version and length in 13 bytes; the older suites, which authenticate the
      length themselves, 11; SSL 3.0 leaves the version out as well; TLS 1.3 covers nothing
      here. */
  lemma AdditionalDataLayout(alg: Algorithm, version: nat, macKey: seq<byte>, fixedIv: seq<byte>,
                             typ: byte, recordVersion: nat, number: Number, plainLen: nat)
    requires Create(alg, version, macKey, fixedIv).Some? && recordVersion < 0x1_0000
    ensures AdditionalData(Create(alg, version, macKey, fixedIv).value, typ, recordVersion, number, plainLen)
         == if version >= 0x0304 then []
            else if !alg.Stateful? then
              number + [typ, recordVersion / 256, recordVersion % 256, plainLen / 256 % 256, plainLen % 256]
            else if version != 0x0300 then number + [typ, recordVersion / 256, recordVersion % 256]
            else number + [typ]
  {
    TwoBytes(recordVersion);
    TwoBytes(plainLen);
  }

  /** Equal additional data means equal number and type; except in SSL 3.0, equal version; and
      for the AEADs of TLS 1.2 equal length, in its 16 bits.  Before TLS 1.3, that is. */
  lemma AdditionalDataBinds(alg: Algorithm, version: nat, macKey: seq<byte>, fixedIv: seq<byte>,
                            typ: byte, recordVersion: nat, number: Number, plainLen: nat,
                            typ': byte, recordVersion': nat, number': Number, plainLen': nat)
    requires Create(alg, version, macKey, fixedIv).Some? && version < 0x0304
    requires recordVersion < 0x1_0000 && recordVersion' < 0x1_0000
    ensures var c := Create(alg, version, macKey, fixedIv).value;
            AdditionalData(c, typ, recordVersion, number, plainLen)
            == AdditionalData(c, typ', recordVersion', number', plainLen')
            <==>
            && number == number' && typ == typ'
            && ((alg.Stateful? && version == 0x0300) || recordVersion == recordVersion')
            && (alg.Stateful? || plainLen % 0x1_0000 == plainLen' % 0x1_0000)
  {
    var c := Create(alg, version, macKey, fixedIv).value;
    var ad := AdditionalData(c, typ, recordVersion, number, plainLen);
    var ad' := AdditionalData(c, typ', recordVersion', number', plainLen');
    AdditionalDataLayout(alg, version, macKey, fixedIv, typ, recordVersion, number, plainLen);
    AdditionalDataLayout(alg, version, macKey, fixedIv, typ', recordVersion', number', plainLen');
    if ad == ad' {
      assert number == ad[..8] && number' == ad'[..8];
      assert ad[8] == typ && ad'[8] == typ';
      if |ad| > 9 {
        assert ad[9] == recordVersion / 256 && ad'[9] == recordVersion' / 256;
        assert ad[10] == recordVersion % 256 && ad'[10] == recordVersion' % 256;
      }
      if |ad| > 11 {
        assert ad[11] == plainLen / 256 % 256 && ad'[11] == plainLen' / 256 % 256;
        assert ad[12] == plainLen % 256 && ad'[12] == plainLen' % 256;
      }
    }
    LowBytes(plainLen);
    LowBytes(plainLen');
  }

  lemma LowBytes(n: nat)
    ensures n % 0x1_0000 == 256 * (n / 256 % 256) + n % 256
  {
    ModUnique(n, 0x1_0000, n / 256 / 256, 256 * (n / 256 % 256) + n % 256);
  }

  lemma XorCancels(a: seq<byte>, a': seq<byte>, b: seq<byte>)
    requires |a| == |a'| == |b| && XorAll(a, b) == XorAll(a', b)
    ensures a == a'
  {
    forall i | 0 <= i < |a|
      ensures a[i] == a'[i]
    {
      assert XorAll(a, b)[i] == XorByte(a[i], b[i]) && XorAll(a', b)[i] == XorByte(a'[i], b[i]);
      assert Pow2(8) == 256;
      XorTwice(a[i], b[i], 8);
      XorTwice(a'[i], b[i], 8);
    }
  }

  /** Distinct variable parts, so distinct sequence numbers, give distinct nonces. */
  lemma NonceInjective(c: Context, v: seq<byte>, v': seq<byte>)
    requires Sound(c) && |v| == |v'| == c.variableLen && NonceOf(c, v) == NonceOf(c, v')
    ensures v == v'
  {
    if c.xor {
      var z := Zeros(|c.fixedNonce| - c.variableLen);
      XorCancels(z + v, z + v', c.fixedNonce);
      assert v == (z + v)[|z|..] && v' == (z + v')[|z|..];
    } else {
      assert v == NonceOf(c, v)[|c.fixedNonce|..] && v' == NonceOf(c, v')[|c.fixedNonce|..];
    }
  }

  /** Over a whole run of seals in one epoch, no nonce taken from the sequence number is
      used twice. */
  lemma NoncesNeverRepeat(c: Context, events: seq<RecordWriting.Event>, i: nat, j: nat)
    requires Sound(c) && !c.random
    requires RecordWriting.Changes(events) < 0x1_0000 && 0 < i < j <= |events|
    requires forall e :: RecordWriting.Count(events, e) <= RecordWriting.NUMBERS
    requires RecordWriting.Seals(events[..i]) && RecordWriting.Seals(events[..j])
    ensures NonceOf(c, RecordWriting.Sealed(events[..i])) != NonceOf(c, RecordWriting.Sealed(events[..j]))
  {
    RecordWriting.NeverReused(events, i, j);
    if NonceOf(c, RecordWriting.Sealed(events[..i])) == NonceOf(c, RecordWriting.Sealed(events[..j])) {
      NonceInjective(c, RecordWriting.Sealed(events[..i]), RecordWriting.Sealed(events[..j]));
    }
  }

  // ---------- sealing and opening ----------

  /** An AEAD under one key: `overhead` is `EVP_AEAD_max_overhead`. */
  datatype Aead = Aead(seal: (seq<byte>, seq<byte>, seq<byte>) -> seq<byte>,
                       open: (seq<byte>, seq<byte>, seq<byte>) -> Option<seq<byte>>,
                       tagLen: nat -> nat, overhead: nat)

  /** Opening undoes sealing, and a tag is as long as announced. */
  ghost predicate Correct(a: Aead) {
    && (forall n, ad, p :: a.open(n, ad, a.seal(n, ad, p)) == Some(p))
    && (forall n, ad, p :: |a.seal(n, ad, p)| == |p| + a.tagLen(|p|))
  }

  /** Writes the nonce into `nonce`; both directions do this. */
  method FillNonce(c: Context, variable: seq<byte>, nonce: array<byte>) returns (len: nat)
    requires Sound(c) && |variable| == c.variableLen && nonce.Length == MAX_NONCE
    modifies nonce
    ensures len <= MAX_NONCE && nonce[..len] == NonceOf(c, variable)
  {
    if c.xor {
      len := |c.fixedNonce| - c.variableLen;
      forall i | 0 <= i < len {
        nonce[i] := 0;
      }
    } else {
      len := |c.fixedNonce|;
      forall i | 0 <= i < len {
        nonce[i] := c.fixedNonce[i];
      }
    }
    forall i | 0 <= i < c.variableLen {
      nonce[len + i] := variable[i];
    }
    len := len + c.variableLen;
    if c.xor {
      ghost var plain := Zeros(|c.fixedNonce| - c.variableLen) + variable;
      assert nonce[..len] == plain;
      for i := 0 to |c.fixedNonce|
        invariant forall k :: 0 <= k < |c.fixedNonce| ==>
          nonce[k] == if k < i then XorByte(plain[k], c.fixedNonce[k]) else plain[k]
      {
        nonce[i] := XorByte(nonce[i], c.fixedNonce[i]);
      }
    }
  }

  /** The record of `plain`: the variable nonce where records carry it, then the sealed
      plaintext. */
  function Sealed(c: Context, a: Aead, typ: byte, version: nat, number: Number,
                  variable: seq<byte>, plain: seq<byte>): seq<byte>
    requires Sound(c) && |variable| == c.variableLen
  {
    (if c.inRecord then variable else [])
    + a.seal(NonceOf(c, variable), AdditionalData(c, typ, version, number, |plain|), plain)
  }

  /** Sealing by a context that has a cipher; `random` is what the random generator yields,
      if it succeeds. */
  method SealWith(c: Context, a: Aead, maxOut: nat, typ: byte, version: nat, number: Number, plain: seq<byte>,
              random: Option<seq<byte>>) returns (record: Option<seq<byte>>, ghost variable: seq<byte>)
    requires Sound(c) && (random.Some? ==> |random.value| == c.variableLen)
    ensures record.Some? <==>
      (if c.inRecord then c.variableLen else 0) + |plain| + a.tagLen(|plain|) <= maxOut && (c.random ==> random.Some?)
    ensures record.Some? ==> |variable| == c.variableLen && (!c.random ==> variable == number)
    ensures record.Some? ==> record.value == Sealed(c, a, typ, version, number, variable, plain)
  {
    variable := number;
    var prefixLen := if c.inRecord then c.variableLen else 0;
    if |plain| + prefixLen + a.tagLen(|plain|) > maxOut || (c.random && random.None?) {
      return None, variable;
    }
    var v: seq<byte> := if c.random then random.value else number;
    var nonce := new byte[MAX_NONCE](_ => 0);
    var len := FillNonce(c, v, nonce);
    var prefix := if c.inRecord then v else [];
    record := Some(prefix + a.seal(nonce[..len], AdditionalData(c, typ, version, number, |plain|), plain));
    variable := v;
  }

  /** `Seal`.  Without a context the null cipher copies. */
  method Seal(context: Option<Context>, a: Aead, maxOut: nat, typ: byte, version: nat, number: Number,
              plain: seq<byte>, random: Option<seq<byte>>)
    returns (record: Option<seq<byte>>, ghost variable: seq<byte>)
    requires context.Some? ==> Sound(context.value) && (random.Some? ==> |random.value| == context.value.variableLen)
    ensures context.None? ==> record == if |plain| <= maxOut then Some(plain) else None
    ensures context.Some? ==>
      var c := context.value;
      && (record.Some? <==>
            (if c.inRecord then c.variableLen else 0) + |plain| + a.tagLen(|plain|) <= maxOut
            && (c.random ==> random.Some?))
      && (record.Some? ==>
            && |variable| == c.variableLen && (!c.random ==> variable == number)
            && record.value == Sealed(c, a, typ, version, number, variable, plain))
  {
    match context
    case None =>
      variable := [];
      record := if |plain| <= maxOut then Some(plain) else None;
    case Some(c) =>
      record, variable := SealWith(c, a, maxOut, typ, version, number, plain, random);
  }

  /** What a record opens to. */
  function Opened(c: Context, a: Aead, typ: byte, version: nat, number: Number, record: seq<byte>): Option<seq<byte>>
    requires Sound(c)
  {
    var prefixLen: nat := if c.inRecord then c.variableLen else 0;
    if |record| < prefixLen || (!c.omitLength && |record| < prefixLen + a.overhead) then None
    else
      var variable := if c.inRecord then record[..prefixLen] else number;
      var plainLen: nat := if c.omitLength then 0 else |record| - prefixLen - a.overhead;
      a.open(NonceOf(c, variable), AdditionalData(c, typ, version, number, plainLen), record[prefixLen..])
  }

  /** Opening by a context that has a cipher. */
  method OpenWith(c: Context, a: Aead, typ: byte, version: nat, number: Number, record: seq<byte>)
    returns (plain: Option<seq<byte>>)
    requires Sound(c)
    ensures plain == Opened(c, a, typ, version, number, record)
  {
    var plainLen := 0;
    if !c.omitLength {
      var overhead := (if c.inRecord then c.variableLen else 0) + a.overhead;
      if |record| < overhead {
        return None;
      }
      plainLen := |record| - overhead;
    }
    var ad := AdditionalData(c, typ, version, number, plainLen);
    var variable: seq<byte>, body := number, record;
    if c.inRecord {
      if |record| < c.variableLen {
        return None;
      }
      variable, body := record[..c.variableLen], record[c.variableLen..];
    }
    var nonce := new byte[MAX_NONCE](_ => 0);
    var len := FillNonce(c, variable, nonce);
    plain := a.open(nonce[..len], ad, body);
  }

  /** `Open`. */
  method Open(context: Option<Context>, a: Aead, typ: byte, version: nat, number: Number, record: seq<byte>)
    returns (plain: Option<seq<byte>>)
    requires context.Some? ==> Sound(context.value)
    ensures context.None? ==> plain == Some(record)
    ensures context.Some? ==> plain == Opened(context.value, a, typ, version, number, record)
  {
    match context
    case None => plain := Some(record);
    case Some(c) => plain := OpenWith(c, a, typ, version, number, record);
  }

  /** Opening rebuilds the nonce and additional data of sealing, so it recovers what was
      sealed.  Where the additional data has the length, the AEAD's overhead must be
      fixed. */
  lemma OpenUndoesSeal(c: Context, a: Aead, typ: byte, version: nat, number: Number,
                       variable: seq<byte>, plain: seq<byte>)
    requires Sound(c) && Correct(a) && |variable| == c.variableLen && (!c.random ==> variable == number)
    requires c.omitLength || a.tagLen(|plain|) == a.overhead
    ensures Opened(c, a, typ, version, number, Sealed(c, a, typ, version, number, variable, plain)) == Some(plain)
  {
    var nonce, ad := NonceOf(c, variable), AdditionalData(c, typ, version, number, |plain|);
    var record := Sealed(c, a, typ, version, number, variable, plain);
    var prefixLen := if c.inRecord then c.variableLen else 0;
    assert |a.seal(nonce, ad, plain)| == |plain| + a.tagLen(|plain|);
    assert record[prefixLen..] == a.seal(nonce, ad, plain);
    if c.inRecord {
      assert record[..prefixLen] == variable;
    }
    assert c.omitLength ==> AdditionalData(c, typ, version, number, 0) == ad;
  }
}
