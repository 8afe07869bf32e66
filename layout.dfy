/**
 * The fixed-size records of reop.c (reop.c:69-147) as byte strings. Every
 * field is a run of bytes at a fixed offset; the structures hold no padding
 * before their `ident` member, so the serialised size of each record is the
 * sum of its field widths. The trailing `ident` is never part of the bytes
 * that are base64 encoded or written to an envelope: it travels on an
 * `ident:` line (or after the binary header) instead.
 */
module Layout {
  import opened Common

  type Alg2 = s: bytes | |s| == 2 witness Zeros(2)
  type Id8 = s: bytes | |s| == 8 witness Zeros(8)
  type Word4 = s: bytes | |s| == 4 witness Zeros(4)
  type Salt16 = s: bytes | |s| == 16 witness Zeros(16)
  type Nonce24 = s: bytes | |s| == 24 witness Zeros(24)
  type Mac16 = s: bytes | |s| == 16 witness Zeros(16)
  type Key32 = s: bytes | |s| == 32 witness Zeros(32)
  type Key64 = s: bytes | |s| == 64 witness Zeros(64)
  type Sig64 = s: bytes | |s| == 64 witness Zeros(64)

  /** The contents of a `char ident[IDENTLEN]` member: a C string of at most 63 bytes. */
  type Ident = s: bytes | '\0' !in s && |s| < 64

  // Algorithm tags (reop.c:57-63)
  const SigAlg: Alg2 := "Ed"
  const EncAlg: Alg2 := "eC"
  const OldEncAlg: Alg2 := "CS"
  const EncKeyAlg: Alg2 := "CS"
  const OldEkcAlg: Alg2 := "eS"
  const SymAlg: Alg2 := "SP"
  const KdfAlg: Alg2 := "BK"

  // Serialised sizes (reop.c:106, 114, 124, 134, 147 and the two legacy structs)
  const SecKeySize: nat := 172
  const SigSize: nat := 74
  const PubKeySize: nat := 76
  const SymMsgSize: nat := 64
  const EncMsgSize: nat := 130
  const OldEncMsgSize: nat := 58
  const OldEkcMsgSize: nat := 82

  datatype PubKey = PubKey(sigalg: Alg2, encalg: Alg2, randomid: Id8,
                           sigkey: Key32, enckey: Key32, ident: Ident)

  /** `kdfrounds` holds the stored (big-endian) bytes of the uint32 member. */
  datatype SecKey = SecKey(sigalg: Alg2, encalg: Alg2, symalg: Alg2, kdfalg: Alg2,
                           randomid: Id8, kdfrounds: Word4, salt: Salt16,
                           nonce: Nonce24, tag: Mac16, sigkey: Key64, enckey: Key32,
                           ident: Ident)

  datatype Sig = Sig(sigalg: Alg2, randomid: Id8, sig: Sig64, ident: Ident)

  datatype SymMsg = SymMsg(symalg: Alg2, kdfalg: Alg2, kdfrounds: Word4, salt: Salt16,
                           nonce: Nonce24, tag: Mac16)

  datatype EncMsg = EncMsg(encalg: Alg2, secrandomid: Id8, pubrandomid: Id8,
                           ephpubkey: Key32, ephnonce: Nonce24, ephtag: Mac16,
                           nonce: Nonce24, tag: Mac16, ident: Ident)

  datatype OldEncMsg = OldEncMsg(encalg: Alg2, secrandomid: Id8, pubrandomid: Id8,
                                 nonce: Nonce24, tag: Mac16)

  datatype OldEkcMsg = OldEkcMsg(ekcalg: Alg2, pubrandomid: Id8, pubkey: Key32,
                                 nonce: Nonce24, tag: Mac16)

  // ---------------------------------------------------------------- public key

  function PubKeyBytes(k: PubKey): (r: bytes)
    ensures |r| == PubKeySize
    ensures r[..2] == k.sigalg && r[4..12] == k.randomid && r[44..] == k.enckey
  {
    k.sigalg + k.encalg + k.randomid + k.sigkey + k.enckey
  }

  function PubKeyOf(b: bytes, ident: Ident): (k: PubKey)
    requires |b| == PubKeySize
    ensures k.ident == ident && k.sigalg == b[..2] && k.randomid == b[4..12]
  {
    PubKey(b[0..2], b[2..4], b[4..12], b[12..44], b[44..76], ident)
  }

  lemma PubKeyRoundTrip(k: PubKey)
    ensures PubKeyOf(PubKeyBytes(k), k.ident) == k
  {
    var b := PubKeyBytes(k);
    assert b[2..4] == k.encalg;
    assert b[12..44] == k.sigkey;
  }

  lemma PubKeyBytesOf(b: bytes, ident: Ident)
    requires |b| == PubKeySize
    ensures PubKeyBytes(PubKeyOf(b, ident)) == b
  {
    assert b == b[0..2] + b[2..4] + b[4..12] + b[12..44] + b[44..76];
  }

  // ---------------------------------------------------------------- secret key

  function SecKeyBytes(k: SecKey): (r: bytes)
    ensures |r| == SecKeySize
    ensures r[..8] == k.sigalg + k.encalg + k.symalg + k.kdfalg && r[8..16] == k.randomid
    ensures r[76..140] == k.sigkey && r[140..] == k.enckey
  {
    k.sigalg + k.encalg + k.symalg + k.kdfalg + k.randomid + k.kdfrounds + k.salt
      + k.nonce + k.tag + k.sigkey + k.enckey
  }

  function SecKeyOf(b: bytes, ident: Ident): (k: SecKey)
    requires |b| == SecKeySize
    ensures k.ident == ident && k.randomid == b[8..16] && k.kdfalg == b[6..8]
  {
    SecKey(b[0..2], b[2..4], b[4..6], b[6..8], b[8..16], b[16..20], b[20..36],
           b[36..60], b[60..76], b[76..140], b[140..172], ident)
  }

  lemma SecKeyRoundTrip(k: SecKey)
    ensures SecKeyOf(SecKeyBytes(k), k.ident) == k
  {
    var b := SecKeyBytes(k);
    assert b[0..2] == k.sigalg;
    assert b[2..4] == k.encalg;
    assert b[4..6] == k.symalg;
    assert b[6..8] == k.kdfalg;
    assert b[16..20] == k.kdfrounds;
    assert b[20..36] == k.salt;
    assert b[36..60] == k.nonce;
    assert b[60..76] == k.tag;
  }

  lemma SecKeyBytesOf(b: bytes, ident: Ident)
    requires |b| == SecKeySize
    ensures SecKeyBytes(SecKeyOf(b, ident)) == b
  {
    assert b == b[0..2] + b[2..4] + b[4..6] + b[6..8] + b[8..16] + b[16..20] + b[20..36]
      + b[36..60] + b[60..76] + b[76..140] + b[140..172];
  }

  // ----------------------------------------------------------------- signature

  function SigBytes(s: Sig): (r: bytes)
    ensures |r| == SigSize
    ensures r[..2] == s.sigalg && r[2..10] == s.randomid && r[10..] == s.sig
  {
    s.sigalg + s.randomid + s.sig
  }

  function SigOf(b: bytes, ident: Ident): (s: Sig)
    requires |b| == SigSize
    ensures s.ident == ident && s.randomid == b[2..10] && s.sig == b[10..]
  {
    Sig(b[0..2], b[2..10], b[10..74], ident)
  }

  lemma SigRoundTrip(s: Sig)
    ensures SigOf(SigBytes(s), s.ident) == s
  {
  }

  lemma SigBytesOf(b: bytes, ident: Ident)
    requires |b| == SigSize
    ensures SigBytes(SigOf(b, ident)) == b
  {
    assert b == b[0..2] + b[2..10] + b[10..74];
  }

  // ------------------------------------------------------------ message headers

  function SymMsgBytes(h: SymMsg): (r: bytes)
    ensures |r| == SymMsgSize && r[..2] == h.symalg
  {
    h.symalg + h.kdfalg + h.kdfrounds + h.salt + h.nonce + h.tag
  }

  function SymMsgOf(b: bytes): (h: SymMsg)
    requires |b| == SymMsgSize
    ensures h.symalg == b[..2] && h.kdfalg == b[2..4]
  {
    SymMsg(b[0..2], b[2..4], b[4..8], b[8..24], b[24..48], b[48..64])
  }

  lemma SymMsgRoundTrip(h: SymMsg)
    ensures SymMsgOf(SymMsgBytes(h)) == h
  {
    var b := SymMsgBytes(h);
    assert b[0..2] == h.symalg;
    assert b[2..4] == h.kdfalg;
    assert b[4..8] == h.kdfrounds;
    assert b[8..24] == h.salt;
    assert b[24..48] == h.nonce;
    assert b[48..64] == h.tag;
  }

  lemma SymMsgBytesOf(b: bytes)
    requires |b| == SymMsgSize
    ensures SymMsgBytes(SymMsgOf(b)) == b
  {
    assert b == b[0..2] + b[2..4] + b[4..8] + b[8..24] + b[24..48] + b[48..64];
  }

  function EncMsgBytes(h: EncMsg): (r: bytes)
    ensures |r| == EncMsgSize && r[..2] == h.encalg
  {
    h.encalg + h.secrandomid + h.pubrandomid + h.ephpubkey + h.ephnonce + h.ephtag
      + h.nonce + h.tag
  }

  function EncMsgOf(b: bytes, ident: Ident): (h: EncMsg)
    requires |b| == EncMsgSize
    ensures h.encalg == b[..2] && h.ident == ident
    ensures h.secrandomid == b[2..10] && h.pubrandomid == b[10..18]
  {
    EncMsg(b[0..2], b[2..10], b[10..18], b[18..50], b[50..74], b[74..90], b[90..114],
           b[114..130], ident)
  }

  lemma EncMsgRoundTrip(h: EncMsg)
    ensures EncMsgOf(EncMsgBytes(h), h.ident) == h
  {
    var b := EncMsgBytes(h);
    assert b[0..2] == h.encalg;
    assert b[2..10] == h.secrandomid;
    assert b[10..18] == h.pubrandomid;
    assert b[18..50] == h.ephpubkey;
    assert b[50..74] == h.ephnonce;
    assert b[74..90] == h.ephtag;
    assert b[90..114] == h.nonce;
    assert b[114..130] == h.tag;
  }

  lemma EncMsgBytesOf(b: bytes, ident: Ident)
    requires |b| == EncMsgSize
    ensures EncMsgBytes(EncMsgOf(b, ident)) == b
  {
    assert b == b[0..2] + b[2..10] + b[10..18] + b[18..50] + b[50..74] + b[74..90]
      + b[90..114] + b[114..130];
  }

  function OldEncMsgBytes(h: OldEncMsg): (r: bytes)
    ensures |r| == OldEncMsgSize && r[..2] == h.encalg
  {
    h.encalg + h.secrandomid + h.pubrandomid + h.nonce + h.tag
  }

  function OldEncMsgOf(b: bytes): (h: OldEncMsg)
    requires |b| == OldEncMsgSize
    ensures h.encalg == b[..2] && h.secrandomid == b[2..10] && h.pubrandomid == b[10..18]
  {
    OldEncMsg(b[0..2], b[2..10], b[10..18], b[18..42], b[42..58])
  }

  lemma OldEncMsgRoundTrip(h: OldEncMsg)
    ensures OldEncMsgOf(OldEncMsgBytes(h)) == h
  {
    var b := OldEncMsgBytes(h);
    assert b[0..2] == h.encalg;
    assert b[2..10] == h.secrandomid;
    assert b[10..18] == h.pubrandomid;
    assert b[18..42] == h.nonce;
    assert b[42..58] == h.tag;
  }

  lemma OldEncMsgBytesOf(b: bytes)
    requires |b| == OldEncMsgSize
    ensures OldEncMsgBytes(OldEncMsgOf(b)) == b
  {
    assert b == b[0..2] + b[2..10] + b[10..18] + b[18..42] + b[42..58];
  }

  function OldEkcMsgBytes(h: OldEkcMsg): (r: bytes)
    ensures |r| == OldEkcMsgSize && r[..2] == h.ekcalg
  {
    h.ekcalg + h.pubrandomid + h.pubkey + h.nonce + h.tag
  }

  function OldEkcMsgOf(b: bytes): (h: OldEkcMsg)
    requires |b| == OldEkcMsgSize
    ensures h.ekcalg == b[..2] && h.pubrandomid == b[2..10] && h.pubkey == b[10..42]
  {
    OldEkcMsg(b[0..2], b[2..10], b[10..42], b[42..66], b[66..82])
  }

  lemma OldEkcMsgRoundTrip(h: OldEkcMsg)
    ensures OldEkcMsgOf(OldEkcMsgBytes(h)) == h
  {
    var b := OldEkcMsgBytes(h);
    assert b[0..2] == h.ekcalg;
    assert b[2..10] == h.pubrandomid;
    assert b[10..42] == h.pubkey;
    assert b[42..66] == h.nonce;
    assert b[66..82] == h.tag;
  }

  lemma OldEkcMsgBytesOf(b: bytes)
    requires |b| == OldEkcMsgSize
    ensures OldEkcMsgBytes(OldEkcMsgOf(b)) == b
  {
    assert b == b[0..2] + b[2..10] + b[10..42] + b[42..66] + b[66..82];
  }
}
