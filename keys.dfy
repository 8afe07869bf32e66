/**
 * The key records and the library operations of reop.c over them
 * (reop.c:452-534, 708-966): key generation, the passphrase protection of
 * secret keys, signing and verification, and public-key and symmetric
 * encryption. The cryptography is the abstract `Primitives`; randomness
 * (salts, nonces, key material, the random id) is passed in.
 *
 * A NULL password is `None`. When kdf gets no password it takes the one in
 * REOP_PASSPHRASE or reads one from the terminal; `prompt` stands for that
 * passphrase.
 */
module Keys {
  import opened Common
  import opened Layout
  import opened Sodium
  import opened Base64
  import opened Armor

  /** The work factor reop uses whenever there is a passphrase (reop.c:500, 949). */
  const DefaultRounds: nat := 42

  /** The key kdf gives for zero rounds. */
  const ZeroKey: Key32 := Zeros(32)

  /** A password that is given (not NULL) and empty, as `-n` passes it. */
  predicate EmptyPassword(password: Option<CString>) {
    password.Some? && |password.value| == 0
  }

  /** The passphrase kdf hashes: the one given, or for NULL the one it asks for. */
  function Passphrase(password: Option<CString>, prompt: CString): CString {
    if password.Some? then password.value else prompt
  }

  /**
   * kdf (reop.c:452-486): no rounds give an all-zero key without looking at
   * any passphrase; otherwise bcrypt_pbkdf, whose failure is fatal.
   */
  function Kdf(p: Primitives, salt: Salt16, rounds: nat, password: Option<CString>,
               prompt: CString): (r: Result<Key32>)
    ensures rounds == 0 ==> r == Ok(ZeroKey)
    ensures r.Err? ==> r.error == BcryptFailed && rounds != 0
  {
    if rounds == 0 then Ok(ZeroKey)
    else
      match p.bcrypt(Passphrase(password, prompt), salt, rounds)
      case None => Err(BcryptFailed)
      case Some(key) => Ok(key)
  }

  // ---------------------------------------------------------- key generation

  /**
   * The relation between the halves of a pair made by reop_generate: one
   * random id, one ident, the algorithm tags, and public keys that belong to
   * the secret keys.
   */
  ghost predicate KeyPair(p: Primitives, pk: PubKey, sk: SecKey) {
    && pk.randomid == sk.randomid && pk.ident == sk.ident
    && pk.sigalg == SigAlg && sk.sigalg == SigAlg
    && pk.encalg == EncKeyAlg && sk.encalg == EncKeyAlg
    && sk.symalg == SymAlg && sk.kdfalg == KdfAlg
    && pk.sigkey == p.sigPublic(sk.sigkey) && pk.enckey == p.encPublic(sk.enckey)
  }

  /** strlcpy of a C string into a `char ident[IDENTLEN]` member. */
  function IdentOf(s: CString): (r: Ident)
    ensures StartsWith(s, r)
    ensures |r| == if |s| <= 63 then |s| else 63
  {
    var t := Take(s, 63);
    assert forall i :: 0 <= i < |t| ==> t[i] == s[i];
    t
  }

  /**
   * reop_generate (reop.c:708-737): both records start zeroed, get the ident,
   * the two key pairs (`sigsk` and `encsk` are what the key generators
   * draw), one random id, and their algorithm tags.
   */
  method Generate(p: Primitives, ident: CString, sigsk: Key64, encsk: Key32, randomid: Id8)
    returns (pk: PubKey, sk: SecKey)
    ensures KeyPair(p, pk, sk)
    ensures pk.ident == Take(ident, 63) && pk.randomid == randomid
    ensures sk.sigkey == sigsk && sk.enckey == encsk
    ensures sk.kdfrounds == Zeros(4) && sk.salt == Zeros(16)
    ensures sk.nonce == Zeros(24) && sk.tag == Zeros(16)
  {
    pk := PubKey(Zeros(2), Zeros(2), Zeros(8), Zeros(32), Zeros(32), []);
    sk := SecKey(Zeros(2), Zeros(2), Zeros(2), Zeros(2), Zeros(8), Zeros(4), Zeros(16),
                 Zeros(24), Zeros(16), Zeros(64), Zeros(32), []);
    pk := pk.(ident := IdentOf(ident));
    sk := sk.(ident := IdentOf(ident));
    pk := pk.(sigkey := p.sigPublic(sigsk));
    sk := sk.(sigkey := sigsk);
    pk := pk.(enckey := p.encPublic(encsk));
    sk := sk.(enckey := encsk);
    sk := sk.(randomid := randomid, sigalg := SigAlg, encalg := EncKeyAlg, symalg := SymAlg,
              kdfalg := KdfAlg);
    pk := pk.(randomid := randomid, sigalg := SigAlg, encalg := EncKeyAlg);
  }

  // ------------------------------------------------ secret keys at rest

  /** encryptseckey's work factor: none exactly when the password given is empty. */
  function SecKeyRounds(password: Option<CString>): (n: nat)
    ensures n == 0 <==> EmptyPassword(password)
    ensures n != 0 ==> n == DefaultRounds
  {
    if EmptyPassword(password) then 0 else DefaultRounds
  }

  /** The record with its two secret keys sealed under `key`. */
  function SealSecKey(p: Primitives, k: SecKey, key: Key32, rounds: nat, salt: Salt16,
                      nonce: Nonce24): (r: SecKey)
    requires rounds < Two32
    ensures r.sigalg == k.sigalg && r.encalg == k.encalg && r.symalg == k.symalg
    ensures r.kdfalg == k.kdfalg && r.randomid == k.randomid && r.ident == k.ident
    ensures r.kdfrounds == BE32(rounds) && r.salt == salt && r.nonce == nonce
    ensures SecretBoxOpen(p, key, nonce, r.sigkey + r.enckey, r.tag) == Some(k.sigkey + k.enckey)
  {
    var sealed := SecretBox(p, key, nonce, k.sigkey + k.enckey);
    var r := k.(kdfrounds := BE32(rounds), salt := salt, nonce := nonce, tag := sealed.1,
                sigkey := sealed.0[..64], enckey := sealed.0[64..]);
    assert r.sigkey + r.enckey == sealed.0;
    SecretBoxRoundTrip(p, key, nonce, k.sigkey + k.enckey);
    r
  }

  /**
   * encryptseckey (reop.c:495-512) on a copy of the record: a fresh salt,
   * the rounds stored big-endian, and the secret keys sealed under the
   * derived key with a fresh nonce.
   */
  function EncryptedSecKey(p: Primitives, k: SecKey, password: Option<CString>, prompt: CString,
                           salt: Salt16, nonce: Nonce24): (r: Result<SecKey>)
    ensures EmptyPassword(password) ==> r.Ok?
    ensures r.Ok? ==> ReadBE32(r.value.kdfrounds) == SecKeyRounds(password) && r.value.salt == salt
  {
    var rounds := SecKeyRounds(password);
    BE32RoundTrip(rounds);
    match Kdf(p, salt, rounds, password, prompt)
    case Err(e) => Err(e)
    case Ok(key) => Ok(SealSecKey(p, k, key, rounds, salt, nonce))
  }

  /** encryptseckey as the code runs it: field by field on the record. */
  method EncryptSecKey(p: Primitives, k: SecKey, password: Option<CString>, prompt: CString,
                       salt: Salt16, nonce: Nonce24) returns (r: Result<SecKey>)
    ensures r == EncryptedSecKey(p, k, password, prompt, salt, nonce)
  {
    var rounds := 42;
    if password.Some? && |password.value| == 0 {
      rounds := 0;
    }
    var rec := k.(salt := salt);
    rec := rec.(kdfrounds := BE32(rounds));
    var key := Kdf(p, salt, rounds, password, prompt);
    if key.Err? {
      return Err(key.error);
    }
    var sealed := SecretBox(p, key.value, nonce, rec.sigkey + rec.enckey);
    rec := rec.(sigkey := sealed.0[..64], enckey := sealed.0[64..], nonce := nonce, tag := sealed.1);
    r := Ok(rec);
  }

  /**
   * decryptseckey (reop.c:515-534): -2 for a kdfalg other than "BK";
   * otherwise the key is derived with the rounds stored in the record and
   * the secret keys are opened (-1 when they do not open).
   */
  function DecryptSecKey(p: Primitives, k: SecKey, password: Option<CString>, prompt: CString): (r: Result<SecKey>)
    ensures k.kdfalg != KdfAlg ==> r == Err(SecKeyKdfAlg)
    ensures r.Err? ==> r.error in {SecKeyKdfAlg, SecKeyOpenFailed, BcryptFailed}
    ensures r.Ok? ==> r.value == k.(sigkey := r.value.sigkey, enckey := r.value.enckey)
    ensures k.kdfalg == KdfAlg && ReadBE32(k.kdfrounds) == 0 ==>
      r == DecryptSecKeyUnder(p, k, ZeroKey)
  {
    if k.kdfalg != KdfAlg then Err(SecKeyKdfAlg)
    else
      match Kdf(p, k.salt, ReadBE32(k.kdfrounds), password, prompt)
      case Err(e) => Err(e)
      case Ok(key) => DecryptSecKeyUnder(p, k, key)
  }

  /** The second half of decryptseckey: open the secret keys under a derived key. */
  function DecryptSecKeyUnder(p: Primitives, k: SecKey, key: Key32): (r: Result<SecKey>)
    ensures r.Err? <==> k.tag != p.poly1305(key, k.nonce, k.sigkey + k.enckey)
    ensures r.Err? ==> r.error == SecKeyOpenFailed
    ensures r.Ok? ==> Encipher(p, key, k.nonce, r.value.sigkey + r.value.enckey) == k.sigkey + k.enckey
  {
    match SecretBoxOpen(p, key, k.nonce, k.sigkey + k.enckey, k.tag)
    case None => Err(SecKeyOpenFailed)
    case Some(plain) =>
      assert plain == plain[..64] + plain[64..];
      Ok(k.(sigkey := plain[..64], enckey := plain[64..]))
  }

  /**
   * Two records of the same secret key: they differ at most in the
   * parameters of the passphrase protection (rounds, salt, nonce, tag).
   */
  predicate SameKey(a: SecKey, b: SecKey) {
    a.sigalg == b.sigalg && a.encalg == b.encalg && a.symalg == b.symalg && a.kdfalg == b.kdfalg
    && a.randomid == b.randomid && a.sigkey == b.sigkey && a.enckey == b.enckey && a.ident == b.ident
  }

  /** Every part of a generated pair that KeyPair speaks of is kept by SameKey. */
  lemma KeyPairSameKey(p: Primitives, pk: PubKey, sk: SecKey, sk2: SecKey)
    requires KeyPair(p, pk, sk) && SameKey(sk, sk2)
    ensures KeyPair(p, pk, sk2)
  {
  }

  /**
   * A sealed secret key opens again to the same key, with the sealing
   * parameters it was stored with. A key sealed
   * without a passphrase opens with any password, since the stored rounds
   * are zero; otherwise the same passphrase must reach kdf.
   */
  lemma DecryptEncryptedSecKey(p: Primitives, k: SecKey, password: Option<CString>, prompt: CString,
                               salt: Salt16, nonce: Nonce24, password2: Option<CString>, prompt2: CString)
    requires k.kdfalg == KdfAlg
    requires EncryptedSecKey(p, k, password, prompt, salt, nonce).Ok?
    requires EmptyPassword(password) || Passphrase(password2, prompt2) == Passphrase(password, prompt)
    ensures var e := EncryptedSecKey(p, k, password, prompt, salt, nonce).value;
      DecryptSecKey(p, e, password2, prompt2) == Ok(e.(sigkey := k.sigkey, enckey := k.enckey))
      && SameKey(k, e.(sigkey := k.sigkey, enckey := k.enckey))
  {
    var rounds := SecKeyRounds(password);
    var key := Kdf(p, salt, rounds, password, prompt).value;
    var e := SealSecKey(p, k, key, rounds, salt, nonce);
    BE32RoundTrip(rounds);
    assert Kdf(p, salt, rounds, password2, prompt2) == Ok(key);
    var plain := k.sigkey + k.enckey;
    assert EncryptedSecKey(p, k, password, prompt, salt, nonce).value == e;
    assert ReadBE32(e.kdfrounds) == rounds;
    assert SecretBoxOpen(p, key, nonce, e.sigkey + e.enckey, e.tag) == Some(plain);
    assert plain[..64] == k.sigkey && plain[64..] == k.enckey;
    assert DecryptSecKeyUnder(p, e, key) == Ok(e.(sigkey := k.sigkey, enckey := k.enckey));
  }

  /** A key with zero stored rounds opens the same whatever password is given. */
  lemma ZeroRoundsIgnorePassword(p: Primitives, k: SecKey, pw1: Option<CString>, prompt1: CString,
                                 pw2: Option<CString>, prompt2: CString)
    requires ReadBE32(k.kdfrounds) == 0
    ensures DecryptSecKey(p, k, pw1, prompt1) == DecryptSecKey(p, k, pw2, prompt2)
  {
  }

  /**
   * reop_parseseckey (reop.c:763-774): the armored record, then
   * decryptseckey; a record that does not decrypt gives NULL.
   */
  function ParseSecKey(c: Codec, p: Primitives, data: bytes, password: Option<CString>,
                       prompt: CString): (r: Result<SecKey>)
    ensures r.Ok? ==> exists b :: ParseKeyData(c, data, SecretKeyInfo, SecKeySize) == Ok((b, r.value.ident))
  {
    match ParseKeyData(c, data, SecretKeyInfo, SecKeySize)
    case Err(e) => Err(e)
    case Ok((b, ident)) => DecryptSecKey(p, SecKeyOf(b, ident), password, prompt)
  }

  /**
   * reop_encodeseckey (reop.c:780-787): a copy of the record is sealed and
   * armored; the caller's record is a value and stays as it was.
   */
  function EncodeSecKey(c: Codec, p: Primitives, k: SecKey, password: Option<CString>, prompt: CString,
                        salt: Salt16, nonce: Nonce24): (r: Result<bytes>)
    ensures r.Ok? ==> EncryptedSecKey(p, k, password, prompt, salt, nonce).Ok?
  {
    match EncryptedSecKey(p, k, password, prompt, salt, nonce)
    case Err(e) => Err(e)
    case Ok(sealed) => EncodeKey(c, SecretKeyInfo, SecKeyBytes(sealed), k.ident)
  }

  /**
   * The secret key file round trip: what reop_encodeseckey writes,
   * reop_parseseckey reads back as the same record, given the passphrase
   * (or any passphrase, for a key written with an empty one).
   */
  lemma ParseEncodeSecKey(c: Codec, p: Primitives, k: SecKey, password: Option<CString>, prompt: CString,
                          salt: Salt16, nonce: Nonce24, password2: Option<CString>, prompt2: CString)
    requires Lawful(c) && IdentOk(k.ident) && k.kdfalg == KdfAlg
    requires EncryptedSecKey(p, k, password, prompt, salt, nonce).Ok?
    requires EmptyPassword(password) || Passphrase(password2, prompt2) == Passphrase(password, prompt)
    ensures EncodeSecKey(c, p, k, password, prompt, salt, nonce).Ok?
    ensures var r := ParseSecKey(c, p, EncodeSecKey(c, p, k, password, prompt, salt, nonce).value,
                                 password2, prompt2);
      r.Ok? && SameKey(k, r.value)
  {
    var sealed := EncryptedSecKey(p, k, password, prompt, salt, nonce).value;
    ParseEncodeKey(c, SecretKeyInfo, SecKeyBytes(sealed), k.ident);
    SecKeyRoundTrip(sealed);
    DecryptEncryptedSecKey(p, k, password, prompt, salt, nonce, password2, prompt2);
  }

  // ------------------------------------------------------ signing

  datatype VerifyResult = VerifyOk | VerifyFail | VerifyMismatch

  /** reop_sign (reop.c:793-804): the signature carries the signer's random id and ident. */
  function Sign(p: Primitives, sk: SecKey, msg: bytes): (s: Sig)
    ensures s.sigalg == SigAlg && s.randomid == sk.randomid && s.ident == sk.ident
    ensures s.sig == p.ed25519(sk.sigkey, msg)
  {
    Sig(SigAlg, sk.randomid, p.ed25519(sk.sigkey, msg), sk.ident)
  }

  /**
   * reop_verify (reop.c:839-849): MISMATCH when the random ids differ, and
   * then without consulting the signature primitive; otherwise the
   * primitive decides.
   */
  function Verify(p: Primitives, pk: PubKey, msg: bytes, s: Sig): (r: VerifyResult)
    ensures r == VerifyMismatch <==> pk.randomid != s.randomid
    ensures r == VerifyOk <==> pk.randomid == s.randomid && p.ed25519Verify(pk.sigkey, msg, s.sig)
  {
    if pk.randomid != s.randomid then VerifyMismatch
    else if !p.ed25519Verify(pk.sigkey, msg, s.sig) then VerifyFail
    else VerifyOk
  }

  /** A signature made with a generated secret key verifies under its public half. */
  lemma VerifySign(p: Primitives, pk: PubKey, sk: SecKey, msg: bytes)
    requires Sound(p) && KeyPair(p, pk, sk)
    ensures Verify(p, pk, msg, Sign(p, sk, msg)) == VerifyOk
  {
    assert p.ed25519Verify(p.sigPublic(sk.sigkey), msg, p.ed25519(sk.sigkey, msg));
  }

  /** Checked against the wrong key (another random id), verification reports MISMATCH. */
  lemma VerifyWrongKey(p: Primitives, pk: PubKey, sk: SecKey, msg: bytes)
    requires pk.randomid != sk.randomid
    ensures Verify(p, pk, msg, Sign(p, sk, msg)) == VerifyMismatch
  {
  }

  // ------------------------------------------ public-key encryption

  datatype Decrypted = Plain(msg: bytes) | DecryptFail | DecryptMismatch | DecryptInvalid

  /**
   * reop_pubencrypt (reop.c:857-879): the message is boxed for the
   * recipient with a fresh ephemeral key (`ephsk`), and the ephemeral public
   * key is boxed from the sender's secret key to the recipient. The header
   * carries both random ids and the sender's ident. `nonce` and `ephnonce`
   * are the two nonces randombytes draws, in that order.
   */
  function PubEncrypt(p: Primitives, pk: PubKey, sk: SecKey, msg: bytes, ephsk: Key32,
                      nonce: Nonce24, ephnonce: Nonce24): (r: (EncMsg, bytes))
    ensures r.0.encalg == EncAlg && r.0.pubrandomid == pk.randomid && r.0.secrandomid == sk.randomid
    ensures r.0.ident == sk.ident && |r.1| == |msg|
  {
    var body := Box(p, pk.enckey, ephsk, nonce, msg);
    var eph := Box(p, pk.enckey, sk.enckey, ephnonce, p.encPublic(ephsk));
    (EncMsg(EncAlg, sk.randomid, pk.randomid, eph.0, ephnonce, eph.1, nonce, body.1, sk.ident), body.0)
  }

  /**
   * reop_pubdecrypt (reop.c:882-909): MISMATCH unless the header names the
   * recipient's secret key and the sender's public key, then INVALID unless
   * both keys are "CS" keys; only then are the ephemeral key and the message
   * opened (FAIL when either does not open).
   */
  function PubDecrypt(p: Primitives, e: EncMsg, pk: PubKey, sk: SecKey, ct: bytes): (r: Decrypted)
    ensures r == DecryptMismatch <==> e.pubrandomid != sk.randomid || e.secrandomid != pk.randomid
    ensures r == DecryptInvalid <==> e.pubrandomid == sk.randomid && e.secrandomid == pk.randomid
                                     && (pk.encalg != EncKeyAlg || sk.encalg != EncKeyAlg)
    ensures r.Plain? ==> |r.msg| == |ct|
  {
    if e.pubrandomid != sk.randomid || e.secrandomid != pk.randomid then DecryptMismatch
    else if pk.encalg != EncKeyAlg || sk.encalg != EncKeyAlg then DecryptInvalid
    else
      match BoxOpen(p, pk.enckey, sk.enckey, e.ephnonce, e.ephpubkey, e.ephtag)
      case None => DecryptFail
      case Some(eph) =>
        match BoxOpen(p, eph, sk.enckey, e.nonce, ct, e.tag)
        case None => DecryptFail
        case Some(m) => Plain(m)
  }

  /**
   * Public-key round trip: what the holder of pair A encrypts for pair B,
   * the holder of B's secret key decrypts with A's public key.
   */
  lemma PubDecryptPubEncrypt(p: Primitives, pkA: PubKey, skA: SecKey, pkB: PubKey, skB: SecKey,
                             msg: bytes, ephsk: Key32, nonce: Nonce24, ephnonce: Nonce24)
    requires Sound(p) && KeyPair(p, pkA, skA) && KeyPair(p, pkB, skB)
    ensures var (e, ct) := PubEncrypt(p, pkB, skA, msg, ephsk, nonce, ephnonce);
      PubDecrypt(p, e, pkA, skB, ct) == Plain(msg)
  {
    BoxRoundTrip(p, skA.enckey, skB.enckey, ephnonce, p.encPublic(ephsk));
    BoxRoundTrip(p, ephsk, skB.enckey, nonce, msg);
  }

  // ------------------------------------------------ symmetric encryption

  /**
   * reop_symencrypt (reop.c:943-966): "SP"/"BK" with 42 rounds and a fresh
   * salt; the message is sealed under the derived key.
   */
  function SymEncrypt(p: Primitives, msg: bytes, password: Option<CString>, prompt: CString,
                      salt: Salt16, nonce: Nonce24): (r: Result<(SymMsg, bytes)>)
    ensures r.Ok? ==> (r.value.0.symalg == SymAlg && r.value.0.kdfalg == KdfAlg
                       && ReadBE32(r.value.0.kdfrounds) == DefaultRounds && r.value.0.salt == salt
                       && |r.value.1| == |msg|)
    ensures r.Err? <==> p.bcrypt(Passphrase(password, prompt), salt, DefaultRounds).None?
  {
    BE32RoundTrip(DefaultRounds);
    match Kdf(p, salt, DefaultRounds, password, prompt)
    case Err(e) => Err(e)
    case Ok(key) =>
      var sealed := SecretBox(p, key, nonce, msg);
      Ok((SymMsg(SymAlg, KdfAlg, BE32(DefaultRounds), salt, nonce, sealed.1), sealed.0))
  }

  /**
   * reop_symdecrypt (reop.c:912-931): INVALID for a kdfalg other than "BK";
   * otherwise the key is derived from the stored rounds and salt. The
   * password argument is not used: kdf is always called with NULL, so the
   * passphrase is the one asked for.
   */
  function SymDecrypt(p: Primitives, h: SymMsg, password: Option<CString>, prompt: CString,
                      ct: bytes): (r: Result<Decrypted>)
    ensures h.kdfalg != KdfAlg ==> r == Ok(DecryptInvalid)
    ensures r.Ok? ==> r.value.Plain? || r.value == DecryptFail || r.value == DecryptInvalid
    ensures r.Err? <==> h.kdfalg == KdfAlg && ReadBE32(h.kdfrounds) != 0
                        && p.bcrypt(prompt, h.salt, ReadBE32(h.kdfrounds)).None?
  {
    if h.kdfalg != KdfAlg then Ok(DecryptInvalid)
    else
      match Kdf(p, h.salt, ReadBE32(h.kdfrounds), None, prompt)
      case Err(e) => Err(e)
      case Ok(key) =>
        match SecretBoxOpen(p, key, h.nonce, ct, h.tag)
        case None => Ok(DecryptFail)
        case Some(m) => Ok(Plain(m))
  }

  /** reop_symdecrypt's result does not depend on the password it is given. */
  lemma SymDecryptIgnoresPassword(p: Primitives, h: SymMsg, pw1: Option<CString>,
                                  pw2: Option<CString>, prompt: CString, ct: bytes)
    ensures SymDecrypt(p, h, pw1, prompt, ct) == SymDecrypt(p, h, pw2, prompt, ct)
  {
  }

  /**
   * Symmetric round trip: decrypting what was encrypted gives the message
   * back when the passphrase asked for at decryption is the one used to
   * encrypt.
   */
  lemma SymDecryptSymEncrypt(p: Primitives, msg: bytes, password: Option<CString>, prompt: CString,
                             salt: Salt16, nonce: Nonce24, password2: Option<CString>, prompt2: CString)
    requires SymEncrypt(p, msg, password, prompt, salt, nonce).Ok?
    requires prompt2 == Passphrase(password, prompt)
    ensures var (h, ct) := SymEncrypt(p, msg, password, prompt, salt, nonce).value;
      SymDecrypt(p, h, password2, prompt2, ct) == Ok(Plain(msg))
  {
    BE32RoundTrip(DefaultRounds);
    var key := Kdf(p, salt, DefaultRounds, password, prompt).value;
    assert Kdf(p, salt, DefaultRounds, None, prompt2) == Ok(key);
    SecretBoxRoundTrip(p, key, nonce, msg);
  }
}
