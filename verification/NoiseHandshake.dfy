/**
 The key schedule of sv2_noise_handshake against the Noise Protocol Framework, revision 34:
 sections 5.2 (SymmetricState) and 7.5 (the NX pattern). The initiator is the code; the
 responder is written with the framework's own operations.
 */
module NoiseHandshake {
  import opened Options
  import opened Digits
  import opened Noise

  type Digest = b: Bytes | |b| == 32 witness seq(32, _ => 0)

  /** The primitives: cipher, SHA-256, HMAC, ElligatorSwift encoding and key exchange. */
  datatype Suite = Suite(
    cipher: Cipher,
    hash: Bytes -> Digest,
    hmac: (Bytes, Bytes) -> Digest,
    encode: (Bytes, Bytes) -> Bytes,                      // private key, randomness
    xdh: (Bytes, Bytes, Bytes, nat) -> Option<Bytes>)     // encodings of both sides, own key, own side

  ghost predicate Sound(s: Suite) {
    && Ideal(s.cipher)
    && (forall k, r :: |s.encode(k, r)| == 64)
    && (forall a, ra, b, rb ::
          var (ea, eb) := (s.encode(a, ra), s.encode(b, rb));
          s.xdh(ea, eb, a, 0).Some? && s.xdh(ea, eb, a, 0) == s.xdh(ea, eb, b, 1))
  }

  /** Noise_NX_Secp256k1+EllSwift_ChaChaPoly_SHA256 */
  const NAME: Bytes := [78, 111, 105, 115, 101, 95, 78, 88, 95, 83, 101, 99, 112, 50, 53, 54, 107, 49, 43, 69, 108, 108,
    83, 119, 105, 102, 116, 95, 67, 104, 97, 67, 104, 97, 80, 111, 108, 121, 95, 83, 72, 65, 50, 53, 54]

  const EXPECTED_H: Bytes := [46, 180, 120, 129, 32, 142, 158, 238, 31, 102, 159, 103, 198, 110, 231, 14,
    169, 234, 136, 9, 13, 80, 63, 232, 48, 220, 75, 200, 62, 41, 191, 16]

  // ---------- the framework ----------

  /** SymmetricState with its CipherState: chaining key, handshake hash, key, nonce. */
  datatype Symmetric = Symmetric(ck: Digest, h: Digest, k: Option<Bytes>, n: nat)

  function Hkdf(s: Suite, ck: Bytes, ikm: Bytes): (Digest, Digest) {
    var prk := s.hmac(ck, ikm);
    var one := s.hmac(prk, [1]);
    (one, s.hmac(prk, one + [2]))
  }

  function Initialize(s: Suite): Symmetric {
    Symmetric(s.hash(NAME), s.hash(NAME), None, 0)
  }

  function MixHash(s: Suite, st: Symmetric, data: Bytes): Symmetric {
    st.(h := s.hash(st.h + data))
  }

  function MixKey(s: Suite, st: Symmetric, ikm: Bytes): Symmetric {
    var (ck, k) := Hkdf(s, st.ck, ikm);
    st.(ck := ck, k := Some(k), n := 0)
  }

  function EncryptAndHash(s: Suite, st: Symmetric, text: Bytes): (Symmetric, Bytes) {
    match st.k
    case None => (MixHash(s, st, text), text)
    case Some(k) =>
      var sealed := s.cipher.seal(k, NonceBytes(st.n), st.h, text);
      (MixHash(s, st.(n := st.n + 1), sealed), sealed)
  }

  /** The keys for initiator-to-responder and responder-to-initiator traffic. */
  function Split(s: Suite, st: Symmetric): (Bytes, Bytes) {
    Hkdf(s, st.ck, [])
  }

  /** What the responder's own secrets and the certificate it sends are. */
  datatype Responder = Responder(ephemeral: Bytes, r1: Bytes, fixed: Bytes, r2: Bytes, certificate: Bytes)

  /** NX: -> e, <- e, ee, s, es. The second message and the two traffic keys. */
  function Respond(s: Suite, ePub: Bytes, r: Responder): Option<(Bytes, Bytes, Bytes)> {
    var re, rs := s.encode(r.ephemeral, r.r1), s.encode(r.fixed, r.r2);
    var start := MixHash(s, Initialize(s), []);
    var act1 := EncryptAndHash(s, MixHash(s, start, ePub), []).0;
    match (s.xdh(ePub, re, r.ephemeral, 1), s.xdh(ePub, rs, r.fixed, 1))
    case (Some(ee), Some(es)) =>
      var (afterS, c1) := EncryptAndHash(s, MixKey(s, MixHash(s, act1, re), ee), rs);
      var (done, c2) := EncryptAndHash(s, MixKey(s, afterS, es), r.certificate);
      var (toResponder, toInitiator) := Split(s, done);
      Some((re + c1 + c2, toResponder, toInitiator))
    case _ => None
  }

  // ---------- the code ----------

  function Decrypt(s: Suite, key: Bytes, h: Bytes, text: Bytes): (p: Option<Bytes>)
    ensures p.Some? ==> |p.value| + TAG == |text|
  {
    if |text| < TAG then None else
      match s.cipher.open(key, NonceBytes(0), h, text)
      case Some(p) => if |p| + TAG == |text| then Some(p) else None
      case None => None
  }

  /** One exchange of the initiator: mix the shared secret into the chaining key and open a text with the new key. */
  function Exchange(s: Suite, ck: Bytes, h: Bytes, ePub: Bytes, other: Bytes, ePriv: Bytes, text: Bytes)
    : Option<(Digest, Bytes)>
  {
    match s.xdh(ePub, other, ePriv, 0)
    case None => None
    case Some(shared) =>
      var (next, key) := Hkdf(s, ck, shared);
      match Decrypt(s, key, h, text)
      case None => None
      case Some(p) => Some((next, p))
  }

  /** The handshake hash after the first message. */
  function Greeted(s: Suite, ePub: Bytes): Digest {
    s.hash(s.hash(s.hash(s.hash(NAME) + []) + ePub) + [])
  }

  /**
   What the initiator derives from a 234-byte answer: the two traffic keys, when every step
   of the handshake succeeds. certOk is the outcome of the certificate check, which is
   skipped without an authority key.
   */
  function Initiate(s: Suite, ePriv: Bytes, ePub: Bytes, resp: Bytes, authority: bool, certOk: (Bytes, Bytes) -> bool)
    : Option<(Bytes, Bytes)>
    requires |resp| == 234
  {
    if s.hash(NAME) != EXPECTED_H then None else
      var h4 := s.hash(Greeted(s, ePub) + resp[..64]);
      match Exchange(s, s.hash(NAME), h4, ePub, resp[..64], ePriv, resp[64..144])
      case None => None
      case Some((ck1, rs)) =>
        var h5 := s.hash(h4 + resp[64..144]);
        match Exchange(s, ck1, h5, ePub, rs, ePriv, resp[144..])
        case None => None
        case Some((ck2, cert)) =>
          if authority && !certOk(cert, rs) then None else Some(Hkdf(s, ck2, []))
  }

  /**
   Agreement: the code accepts the answer of a responder that follows the framework, with a
   certificate of 74 bytes that passes the check, and both ends hold the same two keys.
   */
  lemma HandshakeAgrees(s: Suite, ePriv: Bytes, rand: Bytes, r: Responder, authority: bool, certOk: (Bytes, Bytes) -> bool)
    requires Sound(s) && s.hash(NAME) == EXPECTED_H
    requires |r.certificate| == 74
    requires authority ==> certOk(r.certificate, s.encode(r.fixed, r.r2))
    ensures var ePub := s.encode(ePriv, rand);
      && Respond(s, ePub, r).Some?
      && var (resp, toResponder, toInitiator) := Respond(s, ePub, r).value;
      && |resp| == 234
      && Initiate(s, ePriv, ePub, resp, authority, certOk) == Some((toResponder, toInitiator))
  {
    hide NonceBytes;
    var ePub, re, rs := s.encode(ePriv, rand), s.encode(r.ephemeral, r.r1), s.encode(r.fixed, r.r2);
    var ee, es := s.xdh(ePub, re, r.ephemeral, 1).value, s.xdh(ePub, rs, r.fixed, 1).value;
    assert s.xdh(ePub, re, ePriv, 0) == Some(ee) && s.xdh(ePub, rs, ePriv, 0) == Some(es);
    var start := MixHash(s, Initialize(s), []);
    var act1 := EncryptAndHash(s, MixHash(s, start, ePub), []).0;
    var keyed := MixKey(s, MixHash(s, act1, re), ee);
    var (afterS, c1) := EncryptAndHash(s, keyed, rs);
    var keyed2 := MixKey(s, afterS, es);
    var (done, c2) := EncryptAndHash(s, keyed2, r.certificate);
    assert |c1| == 80 && |c2| == 90;
    var resp := re + c1 + c2;
    assert resp[..64] == re && resp[64..144] == c1 && resp[144..] == c2;
    assert Decrypt(s, keyed.k.value, keyed.h, c1) == Some(rs);
    assert Decrypt(s, keyed2.k.value, keyed2.h, c2) == Some(r.certificate);
  }

  /** What an initiator learns from an answer: two shared secrets, the responder's key and its certificate. */
  datatype Learned = Learned(ee: Bytes, es: Bytes, key: Bytes, certificate: Bytes)

  /**
   An answer as the framework makes it, seen from the initiator: an ephemeral key, then the
   responder's key and the certificate, each sealed with the state of the handshake so far.
   */
  predicate Answers(s: Suite, ePriv: Bytes, ePub: Bytes, resp: Bytes, l: Learned, keys: (Bytes, Bytes))
    requires |resp| == 234
  {
    var re := resp[..64];
    var act1 := EncryptAndHash(s, MixHash(s, MixHash(s, Initialize(s), []), ePub), []).0;
    var (afterS, c1) := EncryptAndHash(s, MixKey(s, MixHash(s, act1, re), l.ee), l.key);
    var (done, c2) := EncryptAndHash(s, MixKey(s, afterS, l.es), l.certificate);
    && s.xdh(ePub, re, ePriv, 0) == Some(l.ee) && s.xdh(ePub, l.key, ePriv, 0) == Some(l.es)
    && |c1| == 80 && resp == re + c1 + c2
    && keys == Split(s, done)
  }

  /** Opening gives a text exactly for what sealing made of it. */
  lemma DecryptExact(s: Suite, key: Bytes, h: Bytes, text: Bytes, p: Bytes)
    requires Ideal(s.cipher)
    ensures Decrypt(s, key, h, text) == Some(p) <==> text == s.cipher.seal(key, NonceBytes(0), h, p)
  {
    hide NonceBytes;
    var sealed := s.cipher.seal(key, NonceBytes(0), h, p);
    assert |sealed| == |p| + TAG;
  }

  /**
   The code accepts an answer, with two traffic keys, if and only if it is one the framework
   makes, with those keys, and the certificate passes the check.
   */
  lemma AcceptsExactly(s: Suite, ePriv: Bytes, ePub: Bytes, resp: Bytes, authority: bool,
                       certOk: (Bytes, Bytes) -> bool, keys: (Bytes, Bytes))
    requires Ideal(s.cipher) && s.hash(NAME) == EXPECTED_H && |resp| == 234
    ensures Initiate(s, ePriv, ePub, resp, authority, certOk) == Some(keys)
      <==> exists l :: Answers(s, ePriv, ePub, resp, l, keys) && (authority ==> certOk(l.certificate, l.key))
  {
    if Initiate(s, ePriv, ePub, resp, authority, certOk) == Some(keys) {
      var l := Learn(s, ePriv, ePub, resp, authority, certOk, keys);
    } else if exists l :: Answers(s, ePriv, ePub, resp, l, keys) && (authority ==> certOk(l.certificate, l.key)) {
      var l :| Answers(s, ePriv, ePub, resp, l, keys) && (authority ==> certOk(l.certificate, l.key));
      Accepts(s, ePriv, ePub, resp, authority, certOk, keys, l);
    }
  }

  /**
   Such an answer and its keys, written out: both texts are sealed under a zero nonce with the
   handshake hash so far as associated data, and all keys come from the shared secrets in turn.
   */
  lemma AnswerWrittenOut(s: Suite, ePriv: Bytes, ePub: Bytes, resp: Bytes, l: Learned, keys: (Bytes, Bytes))
    requires |resp| == 234 && Answers(s, ePriv, ePub, resp, l, keys)
    ensures s.xdh(ePub, resp[..64], ePriv, 0) == Some(l.ee) && s.xdh(ePub, l.key, ePriv, 0) == Some(l.es)
    ensures var h3 := s.hash(s.hash(s.hash(s.hash(NAME) + []) + ePub) + []);
      var h4 := s.hash(h3 + resp[..64]);
      var h5 := s.hash(h4 + resp[64..144]);
      var prk1 := s.hmac(s.hash(NAME), l.ee);
      var ck1 := s.hmac(prk1, [1]);
      var prk2 := s.hmac(ck1, l.es);
      var ck2 := s.hmac(prk2, [1]);
      var prk3 := s.hmac(ck2, []);
      var k3 := s.hmac(prk3, [1]);
      && resp[64..144] == s.cipher.seal(s.hmac(prk1, ck1 + [2]), Repeat(0, 12), h4, l.key)
      && resp[144..] == s.cipher.seal(s.hmac(prk2, ck2 + [2]), Repeat(0, 12), h5, l.certificate)
      && keys == (k3, s.hmac(prk3, k3 + [2]))
  {
    hide NonceBytes;
    ZeroNonce();
    var re := resp[..64];
    var act1 := EncryptAndHash(s, MixHash(s, MixHash(s, Initialize(s), []), ePub), []).0;
    var (afterS, c1) := EncryptAndHash(s, MixKey(s, MixHash(s, act1, re), l.ee), l.key);
    var c2 := EncryptAndHash(s, MixKey(s, afterS, l.es), l.certificate).1;
    assert resp == re + c1 + c2;
    assert resp[64..144] == c1 && resp[144..] == c2;
  }

  lemma ZeroNonce()
    ensures NonceBytes(0) == Repeat(0, 12)
  {
    LittleAllZero(8);
  }

  lemma {:induction false} LittleAllZero(n: nat)
    ensures Little(0, n) == Repeat(0, n)
  {
    if n > 0 {
      LittleAllZero(n - 1);
    }
  }

  lemma Learn(s: Suite, ePriv: Bytes, ePub: Bytes, resp: Bytes, authority: bool,
              certOk: (Bytes, Bytes) -> bool, keys: (Bytes, Bytes)) returns (l: Learned)
    requires Ideal(s.cipher) && s.hash(NAME) == EXPECTED_H && |resp| == 234
    requires Initiate(s, ePriv, ePub, resp, authority, certOk) == Some(keys)
    ensures Answers(s, ePriv, ePub, resp, l, keys) && (authority ==> certOk(l.certificate, l.key))
  {
    hide NonceBytes, Ideal, Decrypt;
    var re, c1, c2 := resp[..64], resp[64..144], resp[144..];
    var h4 := s.hash(Greeted(s, ePub) + re);
    var ee := s.xdh(ePub, re, ePriv, 0).value;
    var (ck1, k1) := Hkdf(s, s.hash(NAME), ee);
    var key := Decrypt(s, k1, h4, c1).value;
    DecryptExact(s, k1, h4, c1, key);
    var h5 := s.hash(h4 + c1);
    var es := s.xdh(ePub, key, ePriv, 0).value;
    var (ck2, k2) := Hkdf(s, ck1, es);
    var certificate := Decrypt(s, k2, h5, c2).value;
    DecryptExact(s, k2, h5, c2, certificate);
    l := Learned(ee, es, key, certificate);
    assert resp == re + c1 + c2;
  }

  lemma Accepts(s: Suite, ePriv: Bytes, ePub: Bytes, resp: Bytes, authority: bool,
                certOk: (Bytes, Bytes) -> bool, keys: (Bytes, Bytes), l: Learned)
    requires Ideal(s.cipher) && s.hash(NAME) == EXPECTED_H && |resp| == 234
    requires Answers(s, ePriv, ePub, resp, l, keys) && (authority ==> certOk(l.certificate, l.key))
    ensures Initiate(s, ePriv, ePub, resp, authority, certOk) == Some(keys)
  {
    hide NonceBytes, Ideal, Decrypt;
    var re := resp[..64];
    var act1 := EncryptAndHash(s, MixHash(s, MixHash(s, Initialize(s), []), ePub), []).0;
    var keyed := MixKey(s, MixHash(s, act1, re), l.ee);
    var (afterS, c1) := EncryptAndHash(s, keyed, l.key);
    var keyed2 := MixKey(s, afterS, l.es);
    var (done, c2) := EncryptAndHash(s, keyed2, l.certificate);
    assert resp[64..144] == c1 && resp[144..] == c2;
    DecryptExact(s, keyed.k.value, keyed.h, c1, l.key);
    DecryptExact(s, keyed2.k.value, keyed2.h, c2, l.certificate);
  }

  // ---------- the C functions ----------

  method Store(dest: array<byte>, data: Digest)
    requires dest.Length == 32
    modifies dest
    ensures dest[..] == data
  {
    forall i | 0 <= i < 32 { dest[i] := data[i]; }
  }

  /** memset(dest, 0, 32) */
  method Wipe(dest: array<byte>)
    requires dest.Length == 32
    modifies dest
    ensures forall i :: 0 <= i < 32 ==> dest[i] == 0
  {
    forall i | 0 <= i < 32 { dest[i] := 0; }
  }

  /** mix_hash: the hash is replaced in place. */
  method MixHashInto(s: Suite, h: array<byte>, data: Bytes)
    requires h.Length == 32
    modifies h
    ensures h[..] == s.hash(old(h[..]) + data)
  {
    Store(h, s.hash(h[..] + data));
  }

  /** hkdf2: both outputs come from the chaining key as it was, even when out1 or out2 is the buffer of the key itself. */
  method Hkdf2(s: Suite, ck: array<byte>, ikm: Bytes, out1: array<byte>, out2: array<byte>)
    requires ck.Length == 32 && out1.Length == 32 && out2.Length == 32 && out1 != out2
    modifies out1, out2
    ensures (out1[..], out2[..]) == Hkdf(s, old(ck[..]), ikm)
    ensures var prk := s.hmac(old(ck[..]), ikm);
      out1[..] == s.hmac(prk, [1]) && out2[..] == s.hmac(prk, s.hmac(prk, [1]) + [2])
  {
    var prk := s.hmac(ck[..], ikm);
    Store(out1, s.hmac(prk, [1]));
    Store(out2, s.hmac(prk, out1[..] + [2]));
  }

  /** Key exchange, key derivation into the context and decryption. */
  method OpenWith(ctx: NoiseContext, s: Suite, ePub: Bytes, other: Bytes, text: Bytes) returns (p: Option<Bytes>)
    requires ctx.Valid()
    modifies ctx.ck
    ensures ctx.Valid()
    ensures var e := Exchange(s, old(ctx.ck[..]), ctx.h[..], ePub, other, ctx.ePriv[..], text);
      match e
      case None => p == None
      case Some((next, plain)) => p == Some(plain) && ctx.ck[..] == next
  {
    hide Hkdf, Decrypt;
    var shared := s.xdh(ePub, other, ctx.ePriv[..], 0);
    if shared.None? {
      return None;
    }
    var key := new byte[32];
    Hkdf2(s, ctx.ck, shared.value, ctx.ck, key);
    p := Decrypt(s, key[..], ctx.h[..], text);
  }

  /** The first message: hash and chaining key are initialised, the ephemeral key is made and sent. */
  method Greet(ctx: NoiseContext, s: Suite, t: Transport, ePriv: Digest, rand: Bytes) returns (ret: int, ePub: Bytes)
    requires ctx.Valid()
    modifies ctx.h, ctx.ck, ctx.ePriv, t`outgoing
    ensures ctx.Valid() && (ret == 0 || ret == -1)
    ensures s.hash(NAME) != EXPECTED_H ==> ret != 0 && ctx.ePriv[..] == old(ctx.ePriv[..])
    ensures s.hash(NAME) == EXPECTED_H ==> ctx.ePriv[..] == ePriv
    ensures ret != 0 ==> t.outgoing == old(t.outgoing)
    ensures ret == 0 ==> ePub == s.encode(ePriv, rand) && ctx.ck[..] == s.hash(NAME) && ctx.h[..] == Greeted(s, ePub)
  {
    ePub := [];
    Store(ctx.h, s.hash(NAME));
    Store(ctx.ck, ctx.h[..]);
    if ctx.h[..] != EXPECTED_H {
      return -1, ePub;
    }
    MixHashInto(s, ctx.h, []);
    Store(ctx.ePriv, ePriv);
    ePub := s.encode(ePriv, rand);
    MixHashInto(s, ctx.h, ePub);
    MixHashInto(s, ctx.h, []);
    ghost var taken;
    ret, taken := SendAll(t, ePub);
  }

  /** The answer: both exchanges and the certificate. */
  method ReadAnswer(ctx: NoiseContext, s: Suite, ePub: Bytes, resp: Bytes, authority: bool, certOk: (Bytes, Bytes) -> bool)
    returns (ok: bool)
    requires ctx.Valid() && |resp| == 234 && s.hash(NAME) == EXPECTED_H
    requires ctx.ck[..] == s.hash(NAME) && ctx.h[..] == Greeted(s, ePub)
    modifies ctx.h, ctx.ck
    ensures ctx.Valid()
    ensures var keys := Initiate(s, ctx.ePriv[..], ePub, resp, authority, certOk);
      ok == keys.Some? && (ok ==> keys.value == Hkdf(s, ctx.ck[..], []))
  {
    hide Exchange, Hkdf, Greeted;
    MixHashInto(s, ctx.h, resp[..64]);
    var rs := OpenWith(ctx, s, ePub, resp[..64], resp[64..144]);
    if rs.None? {
      return false;
    }
    MixHashInto(s, ctx.h, resp[64..144]);
    var cert := OpenWith(ctx, s, ePub, rs.value, resp[144..]);
    if cert.None? {
      return false;
    }
    ok := !authority || certOk(cert.value, rs.value);
  }

  /** The end of the handshake: traffic keys from the chaining key, then the secrets are wiped. */
  method SplitKeys(ctx: NoiseContext, s: Suite)
    requires ctx.Valid()
    modifies ctx, ctx.h, ctx.ck, ctx.ePriv
    ensures ctx.Valid() && (ctx.sendKey, ctx.recvKey) == Hkdf(s, old(ctx.ck[..]), [])
    ensures var prk := s.hmac(old(ctx.ck[..]), []);
      ctx.sendKey == s.hmac(prk, [1]) && ctx.recvKey == s.hmac(prk, s.hmac(prk, [1]) + [2])
    ensures ctx.complete && ctx.sendNonce == 0 && ctx.recvNonce == 0 && ctx.sealed == []
    ensures forall i :: 0 <= i < 32 ==> ctx.ePriv[i] == 0 && ctx.ck[i] == 0 && ctx.h[i] == 0
  {
    hide Hkdf, NonceBytes;
    var toResponder, toInitiator := new byte[32], new byte[32];
    Hkdf2(s, ctx.ck, [], toResponder, toInitiator);
    ctx.sendKey, ctx.recvKey := toResponder[..], toInitiator[..];
    Wipe(ctx.ePriv);
    Wipe(ctx.ck);
    Wipe(ctx.h);
    ctx.sendNonce, ctx.recvNonce, ctx.sealed := 0, 0, [];
    ctx.complete := true;
  }

  /**
   sv2_noise_handshake, after its self-test. On success the traffic keys are in place, both
   counters are zero and the three secrets of the handshake are wiped; after a failure the
   ephemeral private key stays in the context.
   */
  method Handshake(ctx: NoiseContext, s: Suite, t: Transport, ePriv: Digest, rand: Bytes, authority: bool,
                   certOk: (Bytes, Bytes) -> bool)
    returns (ret: int)
    requires ctx.Valid()
    modifies ctx, ctx.h, ctx.ck, ctx.ePriv, t`incoming, t`outgoing
    ensures ctx.Valid() && (ret == 0 || ret == -1)
    ensures ret == 0 ==>
      && |old(t.incoming)| >= 234 && t.incoming == old(t.incoming)[234..]
      && Initiate(s, ePriv, s.encode(ePriv, rand), old(t.incoming)[..234], authority, certOk) == Some((ctx.sendKey, ctx.recvKey))
      && ctx.complete && ctx.sendNonce == 0 && ctx.recvNonce == 0 && ctx.sealed == []
      && (forall i :: 0 <= i < 32 ==> ctx.ePriv[i] == 0 && ctx.ck[i] == 0 && ctx.h[i] == 0)
    ensures ret != 0 ==>
      && ctx.complete == old(ctx.complete) && ctx.sendKey == old(ctx.sendKey) && ctx.recvKey == old(ctx.recvKey)
      && ctx.sendNonce == old(ctx.sendNonce) && ctx.recvNonce == old(ctx.recvNonce)
      && ctx.ePriv[..] == if s.hash(NAME) == EXPECTED_H then ePriv else old(ctx.ePriv[..])
    ensures ret != 0 && t.up && |old(t.incoming)| >= 234 && t.outgoing != old(t.outgoing) ==>
      Initiate(s, ePriv, s.encode(ePriv, rand), old(t.incoming)[..234], authority, certOk) == None
  {
    hide Initiate, Hkdf, Greeted, NonceBytes, Noise.Wrap;
    var ePub, resp;
    ret, ePub := Greet(ctx, s, t, ePriv, rand);
    if ret != 0 {
      return -1;
    }
    ret, resp := RecvExact(t, 234);
    if ret != 0 {
      return -1;
    }
    var ok := ReadAnswer(ctx, s, ePub, resp, authority, certOk);
    if !ok {
      return -1;
    }
    SplitKeys(ctx, s);
    ret := 0;
  }
}
