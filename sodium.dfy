/**
 * The cryptographic primitives reop.c calls (libsodium and bcrypt_pbkdf).
 * Their code is not part of this model; each is an uninterpreted function
 * held in a `Primitives` value that the operations take as a parameter.
 *
 * XSalsa20-Poly1305 is a stream cipher followed by a one-time MAC over the
 * ciphertext, and that shape is kept: the keystream and the MAC are
 * uninterpreted, the enciphering (adding the keystream byte by byte) and the
 * MAC check are written out. So opening what was sealed gives back the
 * plaintext by proof, and a ciphertext always has the length of its
 * plaintext, as the in-place wrappers of reop.c (reop.c:221-287) require.
 * crypto_box is crypto_secretbox under the key crypto_box_beforenm derives
 * from a public and a secret key.
 *
 * The two facts about the primitives that cannot be proved here are
 * collected in `Sound`: the Curve25519 shared key is the same from either
 * side, and an Ed25519 signature verifies under the matching public key.
 */
module Sodium {
  import opened Common
  import opened Layout

  datatype Primitives = Primitives(
    keystream: (Key32, Nonce24, nat) -> byte,   // XSalsa20: byte i of the stream
    poly1305: (Key32, Nonce24, bytes) -> Mac16, // the tag of a ciphertext
    beforenm: (Key32, Key32) -> Key32,          // crypto_box_beforenm(pk, sk)
    encPublic: Key32 -> Key32,                  // the Curve25519 public key of a secret key
    sigPublic: Key64 -> Key32,                  // the Ed25519 public key of a secret key
    ed25519: (Key64, bytes) -> Sig64,           // crypto_sign_detached
    ed25519Verify: (Key32, bytes, Sig64) -> bool, // crypto_sign_verify_detached
    bcrypt: (bytes, Salt16, nat) -> Option<Key32>) // bcrypt_pbkdf; None is its -1

  ghost predicate Sound(p: Primitives) {
    && (forall a: Key32, b: Key32 :: p.beforenm(p.encPublic(a), b) == p.beforenm(p.encPublic(b), a))
    && (forall sk: Key64, m: bytes :: p.ed25519Verify(p.sigPublic(sk), m, p.ed25519(sk, m)))
  }

  function AddByte(a: byte, b: byte): byte {
    ((a as int + b as int) % 256) as char
  }

  function SubByte(a: byte, b: byte): byte {
    ((a as int - b as int) % 256) as char
  }

  function Encipher(p: Primitives, key: Key32, nonce: Nonce24, m: bytes): (r: bytes)
    ensures |r| == |m|
  {
    seq<byte>(|m|, i requires 0 <= i < |m| => AddByte(m[i], p.keystream(key, nonce, i)))
  }

  function Decipher(p: Primitives, key: Key32, nonce: Nonce24, ct: bytes): (r: bytes)
    ensures |r| == |ct|
  {
    seq<byte>(|ct|, i requires 0 <= i < |ct| => SubByte(ct[i], p.keystream(key, nonce, i)))
  }

  /** Deciphering undoes enciphering, byte by byte. */
  lemma DecipherEncipher(p: Primitives, key: Key32, nonce: Nonce24, m: bytes)
    ensures Decipher(p, key, nonce, Encipher(p, key, nonce, m)) == m
  {
    var ct := Encipher(p, key, nonce, m);
    var d := Decipher(p, key, nonce, ct);
    forall i | 0 <= i < |m|
      ensures d[i] == m[i]
    {
      var k := p.keystream(key, nonce, i) as int;
      assert ct[i] as int == (m[i] as int + k) % 256;
      assert d[i] as int == (ct[i] as int - k) % 256;
    }
  }

  /** crypto_secretbox_detached: the ciphertext (in place of the message) and its tag. */
  function SecretBox(p: Primitives, key: Key32, nonce: Nonce24, m: bytes): (r: (bytes, Mac16))
    ensures |r.0| == |m|
    ensures r.1 == p.poly1305(key, nonce, r.0)
  {
    var ct := Encipher(p, key, nonce, m);
    (ct, p.poly1305(key, nonce, ct))
  }

  /**
   * crypto_secretbox_open_detached: None (its -1) unless the tag is the MAC
   * of the ciphertext; otherwise the plaintext, which enciphers back to the
   * ciphertext.
   */
  function SecretBoxOpen(p: Primitives, key: Key32, nonce: Nonce24, ct: bytes, tag: Mac16): (r: Option<bytes>)
    ensures r.Some? <==> tag == p.poly1305(key, nonce, ct)
    ensures r.Some? ==> |r.value| == |ct| && Encipher(p, key, nonce, r.value) == ct
  {
    if tag != p.poly1305(key, nonce, ct) then None
    else
      var m := Decipher(p, key, nonce, ct);
      EncipherDecipher(p, key, nonce, ct);
      Some(m)
  }

  lemma EncipherDecipher(p: Primitives, key: Key32, nonce: Nonce24, ct: bytes)
    ensures Encipher(p, key, nonce, Decipher(p, key, nonce, ct)) == ct
  {
    var d := Decipher(p, key, nonce, ct);
    var e := Encipher(p, key, nonce, d);
    forall i | 0 <= i < |ct|
      ensures e[i] == ct[i]
    {
      var k := p.keystream(key, nonce, i) as int;
      assert d[i] as int == (ct[i] as int - k) % 256;
      assert e[i] as int == (d[i] as int + k) % 256;
    }
  }

  /** Opening what was sealed under the same key and nonce gives the message back. */
  lemma SecretBoxRoundTrip(p: Primitives, key: Key32, nonce: Nonce24, m: bytes)
    ensures var (ct, tag) := SecretBox(p, key, nonce, m);
      SecretBoxOpen(p, key, nonce, ct, tag) == Some(m)
  {
    DecipherEncipher(p, key, nonce, m);
  }

  /** crypto_box_detached(pk, sk): secretbox under the shared key. */
  function Box(p: Primitives, pk: Key32, sk: Key32, nonce: Nonce24, m: bytes): (r: (bytes, Mac16))
    ensures |r.0| == |m|
  {
    SecretBox(p, p.beforenm(pk, sk), nonce, m)
  }

  /** crypto_box_open_detached(pk, sk). */
  function BoxOpen(p: Primitives, pk: Key32, sk: Key32, nonce: Nonce24, ct: bytes, tag: Mac16): (r: Option<bytes>)
    ensures r.Some? ==> |r.value| == |ct|
  {
    SecretBoxOpen(p, p.beforenm(pk, sk), nonce, ct, tag)
  }

  /**
   * A box sealed by the holder of secret key a for public key B opens with
   * secret key b and public key A, where A and B are the public halves of a
   * and b.
   */
  lemma BoxRoundTrip(p: Primitives, a: Key32, b: Key32, nonce: Nonce24, m: bytes)
    requires Sound(p)
    ensures var (ct, tag) := Box(p, p.encPublic(b), a, nonce, m);
      BoxOpen(p, p.encPublic(a), b, nonce, ct, tag) == Some(m)
  {
    assert p.beforenm(p.encPublic(b), a) == p.beforenm(p.encPublic(a), b);
    SecretBoxRoundTrip(p, p.beforenm(p.encPublic(b), a), nonce, m);
  }
}
