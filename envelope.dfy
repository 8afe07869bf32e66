/**
 * Encrypted message files (reop.c:1252-1296, 1304-1389, 1395-1600).
 *
 * `writeencfile` stores a message header, an ident and the ciphertext in one
 * of two layouts:
 *
 *   binary:   "RBF\0" | header | ident length (4 bytes, big-endian) | ident | ciphertext
 *
 *   armored:  -----BEGIN REOP ENCRYPTED MESSAGE-----
 *             ident:alice
 *             <base64 of the header, 76-character lines>
 *             -----BEGIN REOP ENCRYPTED MESSAGE DATA-----
 *             <base64 of the ciphertext, 76-character lines>
 *             -----END REOP ENCRYPTED MESSAGE-----
 *
 * `decrypt` reads either layout back and dispatches on the 2-byte tag at the
 * start of the header: "SP" (symmetric), "eC" (ephemeral public key), and
 * the legacy "CS" and "eS" headers.
 */
module Envelope {
  import opened Common
  import opened Layout
  import opened Sodium
  import opened Base64
  import opened Wrap
  import opened Armor
  import opened Keys
  import opened Keyring

  /** REOP_BINARY with its NUL: the four bytes writeall copies. */
  const BinaryMagic: bytes := "RBF\0"

  const BeginMsg: bytes := "-----BEGIN REOP ENCRYPTED MESSAGE-----\n"
  const BeginData: bytes := "-----BEGIN REOP ENCRYPTED " + "MESSAGE DATA-----\n"
  const EndMsg: bytes := "-----END REOP ENCRYPTED MESSAGE-----\n"

  /** The ident symencrypt writes. */
  const SymIdent: Ident := "<symmetric>"

  /**
   * `sizeof(hdr)` in decrypt: the union of the four headers. Its largest
   * member is the "eC" struct with its 64-byte ident (194 bytes), padded to
   * 196 for the 32-bit kdfrounds of the "SP" struct.
   */
  const HeaderBuffer: nat := 196

  /** `char ident[IDENTLEN]` in decrypt. */
  const IdentBuffer: nat := 64

  /** What decrypt takes out of a file: the header bytes, the ident, the ciphertext. */
  datatype Envelope = Envelope(hdr: bytes, ident: Ident, msg: bytes)

  /** The header size that goes with a 2-byte tag; None for a tag decrypt does not know. */
  function KindSize(alg: bytes): (r: Option<nat>)
    requires |alg| == 2
    ensures r.Some? <==> alg == SymAlg || alg == EncAlg || alg == OldEncAlg || alg == OldEkcAlg
    ensures r.Some? ==> r.value >= 2 && r.value <= HeaderBuffer
  {
    if alg == SymAlg then Some(SymMsgSize)
    else if alg == EncAlg then Some(EncMsgSize)
    else if alg == OldEncAlg then Some(OldEncMsgSize)
    else if alg == OldEkcAlg then Some(OldEkcMsgSize)
    else None
  }

  /** A header of a known kind and of that kind's size. */
  predicate HeaderOk(hdr: bytes) {
    |hdr| >= 2 && KindSize(hdr[..2]) == Some(|hdr|)
  }

  // ------------------------------------------------------------ writeencfile

  function BinaryFile(hdr: bytes, ident: Ident, msg: bytes): bytes {
    BinaryMagic + hdr + BE32(|ident|) + ident + msg
  }

  function ArmoredFile(b64hdr: bytes, ident: Ident, b64msg: bytes): bytes {
    BeginMsg + (IdentTag + ident + "\n" + (Chunked(b64hdr) + BeginData + (Chunked(b64msg) + EndMsg)))
  }

  /**
   * The bytes writeencfile (reop.c:1252-1296) leaves in the file. The
   * armored form fails ("b64 encode failed") when the ciphertext's base64
   * does not fit in (msglen + 2) / 3 * 4 + 1 bytes or the header's does not
   * fit in 1024 bytes.
   */
  function EncFile(c: Codec, hdr: bytes, ident: Ident, msg: bytes, binary: bool): (r: Result<bytes>)
    ensures binary ==> r == Ok(BinaryFile(hdr, ident, msg))
    ensures r.Err? ==> r.error == B64EncodeFailed
  {
    if binary then Ok(BinaryFile(hdr, ident, msg))
    else
      match Ntop(c, msg, (|msg| + 2) / 3 * 4 + 1)
      case None => Err(B64EncodeFailed)
      case Some(b64data) =>
        match Ntop(c, hdr, TextBuffer)
        case None => Err(B64EncodeFailed)
        case Some(b64) => Ok(ArmoredFile(CStr(b64), ident, CStr(b64data)))
  }

  /** writeencfile as a sequence of writes. */
  method WriteEncFile(c: Codec, hdr: bytes, ident: Ident, msg: bytes, binary: bool) returns (r: Result<bytes>)
    ensures r == EncFile(c, hdr, ident, msg, binary)
  {
    if binary {
      var out := BinaryMagic;
      out := out + hdr;
      out := out + BE32(|ident|);
      out := out + ident;
      out := out + msg;
      return Ok(out);
    }
    var b64data := Ntop(c, msg, (|msg| + 2) / 3 * 4 + 1);
    if b64data.None? {
      return Err(B64EncodeFailed);
    }
    var b64 := Ntop(c, hdr, TextBuffer);
    if b64.None? {
      return Err(B64EncodeFailed);
    }
    var lines := WriteB64Data(b64.value);
    var data := WriteB64Data(b64data.value);
    r := Ok(BeginMsg + (IdentTag + ident + "\n" + (lines + BeginData + (data + EndMsg))));
  }

  /** A "CS" header is one decrypt knows. */
  lemma OldEncHeaderOk(h: OldEncMsg)
    requires h.encalg == OldEncAlg
    ensures HeaderOk(OldEncMsgBytes(h))
    ensures OldEncMsgBytes(h)[..2] != SymAlg && OldEncMsgBytes(h)[..2] != OldEkcAlg
            && OldEncMsgBytes(h)[..2] != EncAlg
  {
    assert OldEncAlg[0] != SymAlg[0] && OldEncAlg[0] != EncAlg[0] && OldEncAlg[0] != OldEkcAlg[0];
  }

  /** An "eC" header is one decrypt knows, and it is neither "SP" nor "eS". */
  lemma EncHeaderOk(h: EncMsg)
    requires h.encalg == EncAlg
    ensures HeaderOk(EncMsgBytes(h))
    ensures EncMsgBytes(h)[..2] != SymAlg && EncMsgBytes(h)[..2] != OldEkcAlg
  {
    assert EncAlg[0] != SymAlg[0] && EncAlg[1] != OldEkcAlg[1];
  }

  // ------------------------------------------------------------- decrypt: parse

  /** decrypt takes the binary branch for a file of six bytes or more that starts with "RBF\0". */
  predicate IsBinary(data: bytes) {
    |data| >= 6 && data[..4] == BinaryMagic
  }

  /**
   * The binary branch of decrypt (reop.c:1414-1459): the header of the size
   * its tag names, the ident length, fewer than 64 ident bytes (read as a C
   * string), and the rest of the file as the ciphertext; "invalid encrypted
   * message" for an unknown tag and for any part that runs past the end.
   */
  function ParseBinary(data: bytes): (r: Result<Envelope>)
    requires IsBinary(data)
    ensures r.Err? ==> r.error == InvalidEncryptedMessage
    ensures r.Ok? ==> HeaderOk(r.value.hdr) && 4 + |r.value.hdr| + 4 <= |data|
                      && data[4..4 + |r.value.hdr|] == r.value.hdr
    ensures r.Ok? ==> |r.value.msg| <= |data| && r.value.msg == data[|data| - |r.value.msg|..]
  {
    match KindSize(data[4..6])
    case None => Err(InvalidEncryptedMessage)
    case Some(size) => ParseSized(data, size)
  }

  /** The binary branch after the tag: a header of `size` bytes, the ident length, the ident, the ciphertext. */
  function ParseSized(data: bytes, size: nat): (r: Result<Envelope>)
    requires IsBinary(data) && KindSize(data[4..6]) == Some(size)
    ensures r.Err? ==> r.error == InvalidEncryptedMessage
    ensures r.Ok? ==> HeaderOk(r.value.hdr) && 4 + |r.value.hdr| + 4 <= |data|
                      && data[4..4 + |r.value.hdr|] == r.value.hdr
    ensures r.Ok? ==> |r.value.msg| <= |data| && r.value.msg == data[|data| - |r.value.msg|..]
  {
    var p := 4 + size;
    if p + 4 > |data| then Err(InvalidEncryptedMessage)
    else
      var identlen := ReadBE32(data[p..p + 4]);
      if identlen >= IdentBuffer || p + 4 + identlen > |data| then Err(InvalidEncryptedMessage)
      else
        var hdr := data[4..p];
        assert hdr[..2] == data[4..6];
        Ok(Envelope(hdr, CStr(data[p + 4..p + 4 + identlen]), data[p + 4 + identlen..]))
  }

  /** The binary branch as the code runs it, advancing a read position field by field. */
  method ReadBinary(data: bytes) returns (r: Result<Envelope>)
    requires IsBinary(data)
    ensures r == ParseBinary(data)
  {
    var ptr := 4;
    var hdrsize: nat;
    var alg := data[ptr..ptr + 2];
    if alg == SymAlg {
      hdrsize := SymMsgSize;
    } else if alg == EncAlg {
      hdrsize := EncMsgSize;
    } else if alg == OldEncAlg {
      hdrsize := OldEncMsgSize;
    } else if alg == OldEkcAlg {
      hdrsize := OldEkcMsgSize;
    } else {
      return Err(InvalidEncryptedMessage);
    }
    assert KindSize(data[4..6]) == Some(hdrsize);
    assert ParseBinary(data) == ParseSized(data, hdrsize);
    if ptr + hdrsize > |data| {
      return Err(InvalidEncryptedMessage);
    }
    var hdr := data[ptr..ptr + hdrsize];
    ptr := ptr + hdrsize;
    if ptr + 4 > |data| {
      return Err(InvalidEncryptedMessage);
    }
    var identlen := ReadBE32(data[ptr..ptr + 4]);
    ptr := ptr + 4;
    if identlen >= IdentBuffer {
      return Err(InvalidEncryptedMessage);
    }
    if ptr + identlen > |data| {
      return Err(InvalidEncryptedMessage);
    }
    var ident := CStr(data[ptr..ptr + identlen]);
    ptr := ptr + identlen;
    r := Ok(Envelope(hdr, ident, data[ptr..]));
  }

  /**
   * The armored branch of decrypt (reop.c:1460-1486), on the file as a C
   * string: the BEGIN line, the ident line (readident, whose failures are
   * fatal), the header's base64 up to the DATA line (at most 130 bytes), and
   * the ciphertext's base64 up to the END line.
   */
  function ParseArmored(c: Codec, data: bytes): (r: Result<Envelope>)
    ensures r.Err? ==> r.error in {InvalidEncryptedMessage, NoIdentFound, InvalidHeader}
    ensures !StartsWith(CStr(data), BeginMsg) ==> r == Err(InvalidEncryptedMessage)
    ensures r.Ok? ==> |r.value.hdr| <= HeaderBuffer
  {
    var s := CStr(data);
    if !StartsWith(s, BeginMsg) then Err(InvalidEncryptedMessage)
    else
      match ReadIdent(s[39..])
      case Err(e) => Err(e)
      case Ok((ident, rest)) => Sections(c, ident, rest)
  }

  /** What follows the ident line: the header's base64 up to the DATA line, then the ciphertext's. */
  function Sections(c: Codec, ident: Ident, rest: bytes): (r: Result<Envelope>)
    ensures r.Err? ==> r.error == InvalidEncryptedMessage
    ensures r.Ok? ==> |r.value.hdr| <= HeaderBuffer && r.value.ident == ident
  {
    match Find(rest, BeginData)
    case None => Err(InvalidEncryptedMessage)
    case Some(end) =>
      match Pton(c, rest[..end], HeaderBuffer)
      case None => Err(InvalidEncryptedMessage)
      case Some(hdr) => DataSection(c, hdr, ident, rest[end + 44..])
  }

  /** The ciphertext's base64 up to the END line, decoded into (length + 3) / 4 * 3 + 1 bytes. */
  function DataSection(c: Codec, hdr: bytes, ident: Ident, body: bytes): (r: Result<Envelope>)
    ensures r.Err? ==> r.error == InvalidEncryptedMessage
    ensures r.Ok? ==> r.value.hdr == hdr && r.value.ident == ident
  {
    match Find(body, EndMsg)
    case None => Err(InvalidEncryptedMessage)
    case Some(e) =>
      match Pton(c, body[..e], (e + 3) / 4 * 3 + 1)
      case None => Err(InvalidEncryptedMessage)
      case Some(msg) => Ok(Envelope(hdr, ident, msg))
  }

  /** The parse half of decrypt: binary or armored by the first bytes. */
  function ParseEncFile(c: Codec, data: bytes): (r: Result<Envelope>)
    ensures r.Err? ==> r.error in {InvalidEncryptedMessage, NoIdentFound, InvalidHeader}
  {
    if IsBinary(data) then ParseBinary(data) else ParseArmored(c, data)
  }

  method ReadEncFile(c: Codec, data: bytes) returns (r: Result<Envelope>)
    ensures r == ParseEncFile(c, data)
  {
    if |data| >= 6 && data[..4] == BinaryMagic {
      r := ReadBinary(data);
    } else {
      r := ParseArmored(c, data);
    }
  }

  // ------------------------------------------------------- parse after write

  /** decrypt's buffer for the ciphertext holds what writeencfile encoded. */
  lemma DataBound(n: nat, e: nat)
    requires e >= (n + 2) / 3 * 4
    ensures n <= (e + 3) / 4 * 3 + 1
  {
    var k := (n + 2) / 3;
    assert n <= 3 * k;
    assert (e + 3) / 4 >= k;
  }

  /** Reading a binary file back gives what was written, for any ident and any header of a known kind. */
  lemma BinaryRoundTrip(hdr: bytes, ident: Ident, msg: bytes)
    requires HeaderOk(hdr)
    ensures IsBinary(BinaryFile(hdr, ident, msg))
    ensures ParseBinary(BinaryFile(hdr, ident, msg)) == Ok(Envelope(hdr, ident, msg))
  {
    var data := BinaryFile(hdr, ident, msg);
    var p := 4 + |hdr|;
    assert data[..4] == BinaryMagic;
    assert data[4..6] == hdr[..2];
    assert data[4..p] == hdr;
    assert data[p..p + 4] == BE32(|ident|);
    BE32RoundTrip(|ident|);
    assert data[p + 4..p + 4 + |ident|] == ident;
    CStrOfCString(ident);
    assert data[p + 4 + |ident|..] == msg;
  }

  /**
   * Reading an armored file back gives what was written, when the ident is
   * one word (readident stops at white space) and the header fits decrypt's
   * buffer.
   */
  lemma ArmoredRoundTrip(c: Codec, hdr: bytes, ident: Ident, msg: bytes)
    requires Lawful(c) && IdentOk(ident) && |hdr| <= HeaderBuffer
    ensures !IsBinary(ArmoredFile(c.encode(hdr), ident, c.encode(msg)))
    ensures ParseArmored(c, ArmoredFile(c.encode(hdr), ident, c.encode(msg))) == Ok(Envelope(hdr, ident, msg))
  {
    var rest := Chunked(c.encode(hdr)) + BeginData + (Chunked(c.encode(msg)) + EndMsg);
    var line := IdentTag + ident + "\n" + rest;
    var data := ArmoredFile(c.encode(hdr), ident, c.encode(msg));
    ArmoredLayout(c, hdr, ident, msg);
    CStrOfCString(data);
    assert data[..39] == BeginMsg && data[39..] == line;
    ReadIdentWord(ident, rest);
    SectionsRoundTrip(c, hdr, ident, msg);
  }

  /** The armored file is one C string: the BEGIN line, the ident line, the two sections. */
  lemma ArmoredLayout(c: Codec, hdr: bytes, ident: Ident, msg: bytes)
    requires Lawful(c) && IdentOk(ident)
    ensures var rest := Chunked(c.encode(hdr)) + BeginData + (Chunked(c.encode(msg)) + EndMsg);
      var data := ArmoredFile(c.encode(hdr), ident, c.encode(msg));
      data == BeginMsg + (IdentTag + ident + "\n" + rest) && '\0' !in data && !IsBinary(data)
  {
    var hc, mc := Chunked(c.encode(hdr)), Chunked(c.encode(msg));
    ChunkedB64(c, hdr);
    ChunkedB64(c, msg);
    B64NoNul(hc);
    B64NoNul(mc);
    var line := IdentTag + ident + "\n" + (hc + BeginData + (mc + EndMsg));
    var data := ArmoredFile(c.encode(hdr), ident, c.encode(msg));
    ArmorNoNul(hc, ident, mc);
    NotBinary(data, line);
  }

  /** The armor adds no NUL to the base64 it carries. */
  lemma ArmorNoNul(hc: bytes, ident: Ident, mc: bytes)
    requires '\0' !in hc && '\0' !in mc
    ensures '\0' !in BeginMsg + (IdentTag + ident + "\n" + (hc + BeginData + (mc + EndMsg)))
  {
    var rest := hc + BeginData + (mc + EndMsg);
    NotInJoin('\0', mc, EndMsg);
    NotInJoin('\0', hc, BeginData);
    NotInJoin('\0', hc + BeginData, mc + EndMsg);
    NotInJoin('\0', IdentTag + ident + "\n", rest);
    NotInJoin('\0', BeginMsg, IdentTag + ident + "\n" + rest);
  }

  /** A file that starts with the armor's BEGIN line does not take the binary branch. */
  lemma NotBinary(data: bytes, line: bytes)
    requires data == BeginMsg + line
    ensures !IsBinary(data)
  {
    assert data[0] == '-' && BinaryMagic[0] == 'R';
    assert data[..4] != BinaryMagic by {
      assert data[..4][0] == data[0];
    }
  }

  lemma SectionsRoundTrip(c: Codec, hdr: bytes, ident: Ident, msg: bytes)
    requires Lawful(c) && |hdr| <= HeaderBuffer
    ensures Sections(c, ident, Chunked(c.encode(hdr)) + BeginData + (Chunked(c.encode(msg)) + EndMsg))
            == Ok(Envelope(hdr, ident, msg))
  {
    var h64 := c.encode(hdr);
    var hc := Chunked(h64);
    var body := Chunked(c.encode(msg)) + EndMsg;
    var rest := hc + BeginData + body;
    ChunkedB64(c, hdr);
    B64NoNul(hc);
    FindAfterB64(hc, BeginData, body);
    assert rest[..|hc|] == hc;
    EncodingIsPlain(c, hdr);
    DropSpaceChunked(h64);
    DropSpaceOfNoSpace(h64);
    PtonOfSpaced(c, hdr, hc, HeaderBuffer);
    assert rest[|hc| + 44..] == body;
    DataRoundTrip(c, hdr, ident, msg);
  }

  lemma DataRoundTrip(c: Codec, hdr: bytes, ident: Ident, msg: bytes)
    requires Lawful(c)
    ensures DataSection(c, hdr, ident, Chunked(c.encode(msg)) + EndMsg) == Ok(Envelope(hdr, ident, msg))
  {
    var m64 := c.encode(msg);
    var mc := Chunked(m64);
    var body := mc + EndMsg;
    ChunkedB64(c, msg);
    B64NoNul(mc);
    FindAfterB64(mc, EndMsg, []);
    assert body == mc + EndMsg + [];
    assert body[..|mc|] == mc;
    EncodingIsPlain(c, msg);
    DropSpaceChunked(m64);
    DropSpaceOfNoSpace(m64);
    DataBound(|msg|, |mc|);
    PtonOfSpaced(c, msg, mc, (|mc| + 3) / 4 * 3 + 1);
  }

  /**
   * decrypt reads back what writeencfile wrote, in either layout: the
   * header, the ident and the ciphertext come out unchanged.
   */
  lemma EnvelopeRoundTrip(c: Codec, hdr: bytes, ident: Ident, msg: bytes, binary: bool)
    requires HeaderOk(hdr)
    requires !binary ==> Lawful(c) && IdentOk(ident)
    ensures EncFile(c, hdr, ident, msg, binary).Ok?
    ensures ParseEncFile(c, EncFile(c, hdr, ident, msg, binary).value) == Ok(Envelope(hdr, ident, msg))
  {
    if binary {
      BinaryRoundTrip(hdr, ident, msg);
    } else {
      NtopFits(c, msg, (|msg| + 2) / 3 * 4 + 1);
      NtopFits(c, hdr, TextBuffer);
      EncodingIsPlain(c, hdr);
      EncodingIsPlain(c, msg);
      CStrOfCString(c.encode(hdr));
      CStrOfCString(c.encode(msg));
      ArmoredRoundTrip(c, hdr, ident, msg);
    }
  }

  /**
   * The binary branch rejects a file with an unknown tag, and one whose
   * header, ident length or ident runs past its end or whose ident length
   * is 64 or more.
   */
  lemma BinaryRejects(data: bytes)
    requires IsBinary(data)
    ensures ParseBinary(data).Err? <==>
      KindSize(data[4..6]).None?
      || 4 + KindSize(data[4..6]).value + 4 > |data|
      || ReadBE32(data[4 + KindSize(data[4..6]).value..8 + KindSize(data[4..6]).value]) >= IdentBuffer
      || 8 + KindSize(data[4..6]).value + ReadBE32(data[4 + KindSize(data[4..6]).value..8 + KindSize(data[4..6]).value]) > |data|
  {
  }

  // ---------------------------------------------------------- decrypt: dispatch

  /**
   * The "CS" branch of decrypt (reop.c:1537-1563). Its key-id test, as
   * written: when the header's public id is the public key's, the header's
   * secret id must be the secret key's; otherwise the header's public id
   * must be the secret key's, a comparison the code makes twice, so the
   * header's secret id is not looked at.
   */
  function LegacyDecrypt(p: Primitives, h: OldEncMsg, pk: PubKey, sk: SecKey, ct: bytes): (r: Result<bytes>)
    ensures r == Err(KeyMismatch) <==>
      (h.pubrandomid == pk.randomid && h.secrandomid != sk.randomid)
      || (h.pubrandomid != pk.randomid && h.pubrandomid != sk.randomid)
    ensures r.Ok? ==> |r.value| == |ct|
  {
    if h.pubrandomid == pk.randomid && h.secrandomid != sk.randomid then Err(KeyMismatch)
    else if h.pubrandomid != pk.randomid
            && (h.pubrandomid != sk.randomid || h.pubrandomid != sk.randomid) then Err(KeyMismatch)
    else if pk.encalg != EncKeyAlg || sk.encalg != EncKeyAlg then Err(UnsupportedKeyFormat)
    else
      match BoxOpen(p, pk.enckey, sk.enckey, h.nonce, ct, h.tag)
      case None => Err(PubDecryptionFailed)
      case Some(m) => Ok(m)
  }

  /** The "eS" branch of decrypt (reop.c:1564-1577): the sender's public key is in the header. */
  function EkcDecrypt(p: Primitives, h: OldEkcMsg, sk: SecKey, ct: bytes): (r: Result<bytes>)
    ensures r == Err(KeyMismatch) <==> h.pubrandomid != sk.randomid
    ensures r.Ok? ==> |r.value| == |ct|
  {
    if h.pubrandomid != sk.randomid then Err(KeyMismatch)
    else
      match BoxOpen(p, h.pubkey, sk.enckey, h.nonce, ct, h.tag)
      case None => Err(PubDecryptionFailed)
      case Some(m) => Ok(m)
  }

  /** The messages of decrypt for what reop_symdecrypt and reop_pubdecrypt return. */
  function SymOutcome(d: Decrypted): (r: Result<bytes>)
    ensures r.Ok? <==> d.Plain?
  {
    match d
    case Plain(m) => Ok(m)
    case DecryptInvalid => Err(UnsupportedKeyFormat)
    case _ => Err(SymDecryptionFailed)
  }

  function PubOutcome(d: Decrypted): (r: Result<bytes>)
    ensures r.Ok? <==> d.Plain?
  {
    match d
    case Plain(m) => Ok(m)
    case DecryptFail => Err(PubDecryptionFailed)
    case DecryptMismatch => Err(KeyMismatch)
    case DecryptInvalid => Err(UnsupportedKeyFormat)
  }

  /**
   * The dispatch half of decrypt (reop.c:1488-1580): the header size must be
   * the one its tag names, else (and for an unknown tag) "invalid encrypted
   * message". The public key is looked up by the file's ident (the ident is
   * never NULL here, so without -p only the key ring is searched), and the
   * secret key is read with a NULL password. The result is the plaintext
   * that is written to the message file.
   *
   * A header shorter than two bytes (possible only in the armored form)
   * leaves the tag unread; every branch rejects it, since every kind is
   * longer.
   */
  function Dispatch(c: Codec, p: Primitives, env: Env, pubkeyfile: Option<CString>,
                    seckeyfile: Option<CString>, prompt: CString, e: Envelope): (r: Result<bytes>)
    ensures !HeaderOk(e.hdr) ==> r == Err(InvalidEncryptedMessage)
    ensures r.Ok? ==> |r.value| == |e.msg|
  {
    if |e.hdr| < 2 then Err(InvalidEncryptedMessage)
    else if KindSize(e.hdr[..2]) != Some(|e.hdr|) then Err(InvalidEncryptedMessage)
    else if e.hdr[..2] == SymAlg then
      match SymDecrypt(p, SymMsgOf(e.hdr), None, prompt, e.msg)
      case Err(err) => Err(err)
      case Ok(d) => SymOutcome(d)
    else if e.hdr[..2] == OldEkcAlg then
      match GetSecKey(c, p, env, seckeyfile, None, prompt)
      case Err(err) => Err(err)
      case Ok(sk) => EkcDecrypt(p, OldEkcMsgOf(e.hdr), sk, e.msg)
    else
      match GetPubKey(c, env, pubkeyfile, Some(e.ident))
      case Err(err) => Err(err)
      case Ok(pk) =>
        match GetSecKey(c, p, env, seckeyfile, None, prompt)
        case Err(err) => Err(err)
        case Ok(sk) =>
          if e.hdr[..2] == EncAlg then PubOutcome(PubDecrypt(p, EncMsgOf(e.hdr, e.ident), pk, sk, e.msg))
          else LegacyDecrypt(p, OldEncMsgOf(e.hdr), pk, sk, e.msg)
  }

  /** decrypt (reop.c:1395-1600): read the file, parse it, dispatch. */
  function Decrypt(c: Codec, p: Primitives, env: Env, pubkeyfile: Option<CString>,
                   seckeyfile: Option<CString>, encfile: CString, prompt: CString): (r: Result<bytes>)
    ensures encfile !in env.files ==> r == Err(CouldNotOpen)
  {
    match ReadAll(env, encfile)
    case None => Err(CouldNotOpen)
    case Some(data) =>
      match ParseEncFile(c, data)
      case Err(err) => Err(err)
      case Ok(e) => Dispatch(c, p, env, pubkeyfile, seckeyfile, prompt, e)
  }

  /**
   * The legacy key-id test never looks at the header's secret id when the
   * header's public id is not the public key's.
   */
  lemma LegacyIgnoresSecRandomId(p: Primitives, h: OldEncMsg, pk: PubKey, sk: SecKey, ct: bytes, other: Id8)
    requires h.pubrandomid != pk.randomid
    ensures LegacyDecrypt(p, h.(secrandomid := other), pk, sk, ct) == LegacyDecrypt(p, h, pk, sk, ct)
  {
  }

  /** A file that reads back whole is dispatched on the envelope it was written from. */
  lemma DecryptReadsBack(c: Codec, p: Primitives, env: Env, pubkeyfile: Option<CString>,
                         seckeyfile: Option<CString>, encfile: CString, prompt: CString,
                         hdr: bytes, ident: Ident, ct: bytes, binary: bool)
    requires HeaderOk(hdr) && (!binary ==> Lawful(c) && IdentOk(ident))
    requires EncFile(c, hdr, ident, ct, binary).Ok?
    requires ReadAll(env, encfile) == Some(EncFile(c, hdr, ident, ct, binary).value)
    ensures Decrypt(c, p, env, pubkeyfile, seckeyfile, encfile, prompt)
            == Dispatch(c, p, env, pubkeyfile, seckeyfile, prompt, Envelope(hdr, ident, ct))
  {
    EnvelopeRoundTrip(c, hdr, ident, ct, binary);
  }

  /**
   * An "eC" message from the holder of pair A to the holder of pair B
   * decrypts to the plaintext when B's side finds A's public key under the
   * ident in the file and B's secret key.
   */
  lemma DispatchPubEncrypt(c: Codec, p: Primitives, env: Env, pubkeyfile: Option<CString>,
                           seckeyfile: Option<CString>, prompt: CString,
                           pkA: PubKey, skA: SecKey, pkB: PubKey, skB: SecKey,
                           msg: bytes, ephsk: Key32, nonce: Nonce24, ephnonce: Nonce24)
    requires Sound(p) && KeyPair(p, pkA, skA) && KeyPair(p, pkB, skB)
    requires GetPubKey(c, env, pubkeyfile, Some(skA.ident)) == Ok(pkA)
    requires GetSecKey(c, p, env, seckeyfile, None, prompt) == Ok(skB)
    ensures var (h, ct) := PubEncrypt(p, pkB, skA, msg, ephsk, nonce, ephnonce);
      Dispatch(c, p, env, pubkeyfile, seckeyfile, prompt, Envelope(EncMsgBytes(h), h.ident, ct)) == Ok(msg)
  {
    var (h, ct) := PubEncrypt(p, pkB, skA, msg, ephsk, nonce, ephnonce);
    PubDecryptPubEncrypt(p, pkA, skA, pkB, skB, msg, ephsk, nonce, ephnonce);
    DispatchEnc(c, p, env, pubkeyfile, seckeyfile, prompt, h, ct, pkA, skB);
  }

  /** An "eC" envelope is dispatched to pubdecrypt with the keys found for it. */
  lemma DispatchEnc(c: Codec, p: Primitives, env: Env, pubkeyfile: Option<CString>,
                    seckeyfile: Option<CString>, prompt: CString, h: EncMsg, ct: bytes, pk: PubKey, sk: SecKey)
    requires h.encalg == EncAlg
    requires GetPubKey(c, env, pubkeyfile, Some(h.ident)) == Ok(pk)
    requires GetSecKey(c, p, env, seckeyfile, None, prompt) == Ok(sk)
    ensures Dispatch(c, p, env, pubkeyfile, seckeyfile, prompt, Envelope(EncMsgBytes(h), h.ident, ct))
            == PubOutcome(PubDecrypt(p, h, pk, sk, ct))
  {
    EncHeaderOk(h);
    EncMsgRoundTrip(h);
  }

  /**
   * A "CS" message v1pubencrypt wrote from A to B passes the legacy key-id
   * test and opens, whether or not the two key pairs share a random id.
   */
  lemma DispatchV1PubEncrypt(c: Codec, p: Primitives, env: Env, pubkeyfile: Option<CString>,
                             seckeyfile: Option<CString>, prompt: CString,
                             pkA: PubKey, skA: SecKey, pkB: PubKey, skB: SecKey, msg: bytes, nonce: Nonce24)
    requires Sound(p) && KeyPair(p, pkA, skA) && KeyPair(p, pkB, skB)
    requires GetPubKey(c, env, pubkeyfile, Some(skA.ident)) == Ok(pkA)
    requires GetSecKey(c, p, env, seckeyfile, None, prompt) == Ok(skB)
    ensures var (h, ct) := V1PubEncrypt(p, pkB, skA, msg, nonce);
      Dispatch(c, p, env, pubkeyfile, seckeyfile, prompt, Envelope(OldEncMsgBytes(h), skA.ident, ct)) == Ok(msg)
  {
    var (h, ct) := V1PubEncrypt(p, pkB, skA, msg, nonce);
    BoxRoundTrip(p, skA.enckey, skB.enckey, nonce, msg);
    assert LegacyDecrypt(p, h, pkA, skB, ct) == Ok(msg);
    DispatchOldEnc(c, p, env, pubkeyfile, seckeyfile, prompt, h, skA.ident, ct, pkA, skB);
  }

  /** A "CS" envelope is dispatched to the legacy decryption with the keys found for it. */
  lemma DispatchOldEnc(c: Codec, p: Primitives, env: Env, pubkeyfile: Option<CString>,
                       seckeyfile: Option<CString>, prompt: CString, h: OldEncMsg, ident: Ident, ct: bytes,
                       pk: PubKey, sk: SecKey)
    requires h.encalg == OldEncAlg
    requires GetPubKey(c, env, pubkeyfile, Some(ident)) == Ok(pk)
    requires GetSecKey(c, p, env, seckeyfile, None, prompt) == Ok(sk)
    ensures Dispatch(c, p, env, pubkeyfile, seckeyfile, prompt, Envelope(OldEncMsgBytes(h), ident, ct))
            == LegacyDecrypt(p, h, pk, sk, ct)
  {
    OldEncMsgRoundTrip(h);
    OldEncHeaderOk(h);
  }

  /** An "SP" message decrypts to the plaintext under the passphrase it was encrypted with. */
  lemma DispatchSymEncrypt(c: Codec, p: Primitives, env: Env, pubkeyfile: Option<CString>,
                           seckeyfile: Option<CString>, prompt: CString, msg: bytes,
                           salt: Salt16, nonce: Nonce24)
    requires SymEncrypt(p, msg, None, prompt, salt, nonce).Ok?
    ensures var (h, ct) := SymEncrypt(p, msg, None, prompt, salt, nonce).value;
      Dispatch(c, p, env, pubkeyfile, seckeyfile, prompt, Envelope(SymMsgBytes(h), SymIdent, ct)) == Ok(msg)
  {
    var (h, ct) := SymEncrypt(p, msg, None, prompt, salt, nonce).value;
    SymMsgRoundTrip(h);
    SymDecryptSymEncrypt(p, msg, None, prompt, salt, nonce, None, prompt);
  }

  // -------------------------------------------------------------- encrypting

  /**
   * pubencrypt (reop.c:1304-1332): the message, the recipient's public key
   * (from the file given, or by ident), the sender's secret key, both
   * checked to be "CS" keys; the header and the sender's ident go to the
   * file with the ciphertext.
   */
  function PubEncryptFile(c: Codec, p: Primitives, env: Env, pubkeyfile: Option<CString>,
                          ident: Option<CString>, seckeyfile: Option<CString>, msgfile: CString,
                          prompt: CString, binary: bool, ephsk: Key32, nonce: Nonce24,
                          ephnonce: Nonce24): (r: Result<bytes>)
    ensures msgfile !in env.files ==> r == Err(CouldNotOpen)
  {
    match ReadAll(env, msgfile)
    case None => Err(CouldNotOpen)
    case Some(msg) =>
      match GetPubKey(c, env, pubkeyfile, ident)
      case Err(err) => Err(err)
      case Ok(pk) =>
        match GetSecKey(c, p, env, seckeyfile, None, prompt)
        case Err(err) => Err(err)
        case Ok(sk) =>
          if pk.encalg != EncKeyAlg || sk.encalg != EncKeyAlg then Err(UnsupportedKeyFormat)
          else
            var (h, ct) := PubEncrypt(p, pk, sk, msg, ephsk, nonce, ephnonce);
            EncFile(c, EncMsgBytes(h), h.ident, ct, binary)
  }

  /** The "CS" header v1pubencrypt writes, and the message boxed from the sender to the recipient. */
  function V1PubEncrypt(p: Primitives, pk: PubKey, sk: SecKey, msg: bytes, nonce: Nonce24): (r: (OldEncMsg, bytes))
    ensures r.0.encalg == OldEncAlg && r.0.pubrandomid == pk.randomid && r.0.secrandomid == sk.randomid
    ensures |r.1| == |msg|
  {
    var (ct, tag) := Box(p, pk.enckey, sk.enckey, nonce, msg);
    (OldEncMsg(OldEncAlg, sk.randomid, pk.randomid, nonce, tag), ct)
  }

  /**
   * v1pubencrypt (reop.c:1339-1371): the keys are looked up before the
   * message is read; the header is a "CS" header and the ident is the
   * sender's.
   */
  function V1PubEncryptFile(c: Codec, p: Primitives, env: Env, pubkeyfile: Option<CString>,
                            ident: Option<CString>, seckeyfile: Option<CString>, msgfile: CString,
                            prompt: CString, binary: bool, nonce: Nonce24): (r: Result<bytes>)
    ensures GetPubKey(c, env, pubkeyfile, ident).Err? ==> r == Err(GetPubKey(c, env, pubkeyfile, ident).error)
    ensures GetPubKey(c, env, pubkeyfile, ident).Ok? && GetSecKey(c, p, env, seckeyfile, None, prompt).Err? ==>
              r == Err(GetSecKey(c, p, env, seckeyfile, None, prompt).error)
    ensures GetPubKey(c, env, pubkeyfile, ident).Ok? && GetSecKey(c, p, env, seckeyfile, None, prompt).Ok? ==>
      var pk := GetPubKey(c, env, pubkeyfile, ident).value;
      var sk := GetSecKey(c, p, env, seckeyfile, None, prompt).value;
      && (msgfile !in env.files ==> r == Err(CouldNotOpen))
      && (msgfile in env.files && (pk.encalg != EncKeyAlg || sk.encalg != EncKeyAlg) ==> r == Err(UnsupportedKeyFormat))
      && (msgfile in env.files && pk.encalg == EncKeyAlg && sk.encalg == EncKeyAlg ==>
            var (h, ct) := V1PubEncrypt(p, pk, sk, env.files[msgfile], nonce);
            r == EncFile(c, OldEncMsgBytes(h), sk.ident, ct, binary))
  {
    match GetPubKey(c, env, pubkeyfile, ident)
    case Err(err) => Err(err)
    case Ok(pk) =>
      match GetSecKey(c, p, env, seckeyfile, None, prompt)
      case Err(err) => Err(err)
      case Ok(sk) =>
        match ReadAll(env, msgfile)
        case None => Err(CouldNotOpen)
        case Some(msg) =>
          if pk.encalg != EncKeyAlg || sk.encalg != EncKeyAlg then Err(UnsupportedKeyFormat)
          else
            var (h, ct) := V1PubEncrypt(p, pk, sk, msg, nonce);
            EncFile(c, OldEncMsgBytes(h), sk.ident, ct, binary)
  }

  /**
   * The two public-key encryptions check in different orders: pubencrypt
   * reads the message before it looks up the keys (reop.c:1309-1315), and
   * v1pubencrypt looks up the keys first (reop.c:1344-1352). With neither
   * the message nor the recipient's key, pubencrypt says "could not open"
   * and v1pubencrypt says "no pubkey".
   */
  lemma EncryptErrorOrder(c: Codec, p: Primitives, env: Env, pubkeyfile: Option<CString>,
                          ident: Option<CString>, seckeyfile: Option<CString>, msgfile: CString,
                          prompt: CString, binary: bool, ephsk: Key32, nonce: Nonce24, ephnonce: Nonce24)
    requires msgfile !in env.files && GetPubKey(c, env, pubkeyfile, ident) == Err(NoPubKey)
    ensures PubEncryptFile(c, p, env, pubkeyfile, ident, seckeyfile, msgfile, prompt, binary, ephsk, nonce, ephnonce)
            == Err(CouldNotOpen)
    ensures V1PubEncryptFile(c, p, env, pubkeyfile, ident, seckeyfile, msgfile, prompt, binary, nonce)
            == Err(NoPubKey)
  {
  }

  /** symencrypt (reop.c:1374-1389): the passphrase asked for, and the ident "<symmetric>". */
  function SymEncryptFile(c: Codec, p: Primitives, env: Env, msgfile: CString, prompt: CString,
                          binary: bool, salt: Salt16, nonce: Nonce24): (r: Result<bytes>)
    ensures msgfile !in env.files ==> r == Err(CouldNotOpen)
  {
    match ReadAll(env, msgfile)
    case None => Err(CouldNotOpen)
    case Some(msg) =>
      match SymEncrypt(p, msg, None, prompt, salt, nonce)
      case Err(err) => Err(err)
      case Ok((h, ct)) => EncFile(c, SymMsgBytes(h), SymIdent, ct, binary)
  }

  // ------------------------------------------------------------ file to file

  /**
   * pubencrypt then decrypt: when A's side finds B's public key, A's secret
   * key and the message, the file is written; and when B's side reads that
   * file and finds A's public key (under the ident the file carries) and
   * B's secret key, decrypt gives the message back.
   */
  lemma PubEncryptFileDecrypt(c: Codec, p: Primitives, pkA: PubKey, skA: SecKey, pkB: PubKey, skB: SecKey,
                              msg: bytes, envA: Env, pubkeyfileA: Option<CString>, identA: Option<CString>,
                              seckeyfileA: Option<CString>, msgfile: CString, promptA: CString, binary: bool,
                              ephsk: Key32, nonce: Nonce24, ephnonce: Nonce24,
                              envB: Env, pubkeyfileB: Option<CString>, seckeyfileB: Option<CString>,
                              encfile: CString, promptB: CString)
    requires Lawful(c) && Sound(p) && KeyPair(p, pkA, skA) && KeyPair(p, pkB, skB)
    requires !binary ==> IdentOk(skA.ident)
    requires ReadAll(envA, msgfile) == Some(msg)
    requires GetPubKey(c, envA, pubkeyfileA, identA) == Ok(pkB)
    requires GetSecKey(c, p, envA, seckeyfileA, None, promptA) == Ok(skA)
    requires GetPubKey(c, envB, pubkeyfileB, Some(skA.ident)) == Ok(pkA)
    requires GetSecKey(c, p, envB, seckeyfileB, None, promptB) == Ok(skB)
    ensures var r := PubEncryptFile(c, p, envA, pubkeyfileA, identA, seckeyfileA, msgfile, promptA,
                                    binary, ephsk, nonce, ephnonce);
      r.Ok? && (ReadAll(envB, encfile) == Some(r.value) ==>
                Decrypt(c, p, envB, pubkeyfileB, seckeyfileB, encfile, promptB) == Ok(msg))
  {
    var (h, ct) := PubEncrypt(p, pkB, skA, msg, ephsk, nonce, ephnonce);
    var hdr := EncMsgBytes(h);
    EncHeaderOk(h);
    EnvelopeRoundTrip(c, hdr, h.ident, ct, binary);
    PubEncryptFileWrites(c, p, pkB, skA, msg, envA, pubkeyfileA, identA, seckeyfileA, msgfile, promptA,
                         binary, ephsk, nonce, ephnonce);
    var r := PubEncryptFile(c, p, envA, pubkeyfileA, identA, seckeyfileA, msgfile, promptA,
                            binary, ephsk, nonce, ephnonce);
    if ReadAll(envB, encfile) == Some(r.value) {
      DecryptReadsBack(c, p, envB, pubkeyfileB, seckeyfileB, encfile, promptB, hdr, h.ident, ct, binary);
      DispatchPubEncrypt(c, p, envB, pubkeyfileB, seckeyfileB, promptB, pkA, skA, pkB, skB,
                         msg, ephsk, nonce, ephnonce);
    }
  }

  /** When pubencrypt finds the message and both keys, it writes the envelope of what PubEncrypt returns. */
  lemma PubEncryptFileWrites(c: Codec, p: Primitives, pk: PubKey, sk: SecKey, msg: bytes, env: Env,
                             pubkeyfile: Option<CString>, ident: Option<CString>, seckeyfile: Option<CString>,
                             msgfile: CString, prompt: CString, binary: bool,
                             ephsk: Key32, nonce: Nonce24, ephnonce: Nonce24)
    requires pk.encalg == EncKeyAlg && sk.encalg == EncKeyAlg
    requires ReadAll(env, msgfile) == Some(msg)
    requires GetPubKey(c, env, pubkeyfile, ident) == Ok(pk)
    requires GetSecKey(c, p, env, seckeyfile, None, prompt) == Ok(sk)
    ensures var (h, ct) := PubEncrypt(p, pk, sk, msg, ephsk, nonce, ephnonce);
      PubEncryptFile(c, p, env, pubkeyfile, ident, seckeyfile, msgfile, prompt, binary, ephsk, nonce, ephnonce)
        == EncFile(c, EncMsgBytes(h), h.ident, ct, binary)
  {
  }

  /** v1pubencrypt then decrypt, under the same conditions as pubencrypt. */
  lemma V1PubEncryptFileDecrypt(c: Codec, p: Primitives, pkA: PubKey, skA: SecKey, pkB: PubKey, skB: SecKey,
                                msg: bytes, envA: Env, pubkeyfileA: Option<CString>, identA: Option<CString>,
                                seckeyfileA: Option<CString>, msgfile: CString, promptA: CString, binary: bool,
                                nonce: Nonce24, envB: Env, pubkeyfileB: Option<CString>,
                                seckeyfileB: Option<CString>, encfile: CString, promptB: CString)
    requires Lawful(c) && Sound(p) && KeyPair(p, pkA, skA) && KeyPair(p, pkB, skB)
    requires !binary ==> IdentOk(skA.ident)
    requires ReadAll(envA, msgfile) == Some(msg)
    requires GetPubKey(c, envA, pubkeyfileA, identA) == Ok(pkB)
    requires GetSecKey(c, p, envA, seckeyfileA, None, promptA) == Ok(skA)
    requires GetPubKey(c, envB, pubkeyfileB, Some(skA.ident)) == Ok(pkA)
    requires GetSecKey(c, p, envB, seckeyfileB, None, promptB) == Ok(skB)
    ensures var r := V1PubEncryptFile(c, p, envA, pubkeyfileA, identA, seckeyfileA, msgfile, promptA,
                                      binary, nonce);
      r.Ok? && (ReadAll(envB, encfile) == Some(r.value) ==>
                Decrypt(c, p, envB, pubkeyfileB, seckeyfileB, encfile, promptB) == Ok(msg))
  {
    var (h, ct) := V1PubEncrypt(p, pkB, skA, msg, nonce);
    var hdr := OldEncMsgBytes(h);
    OldEncHeaderOk(h);
    EnvelopeRoundTrip(c, hdr, skA.ident, ct, binary);
    var r := V1PubEncryptFile(c, p, envA, pubkeyfileA, identA, seckeyfileA, msgfile, promptA, binary, nonce);
    assert r == EncFile(c, hdr, skA.ident, ct, binary);
    if ReadAll(envB, encfile) == Some(r.value) {
      DecryptReadsBack(c, p, envB, pubkeyfileB, seckeyfileB, encfile, promptB, hdr, skA.ident, ct, binary);
      DispatchV1PubEncrypt(c, p, envB, pubkeyfileB, seckeyfileB, promptB, pkA, skA, pkB, skB, msg, nonce);
    }
  }

  /**
   * symencrypt then decrypt: the message comes back when the passphrase
   * asked for at decryption is the one given at encryption.
   */
  lemma SymEncryptFileDecrypt(c: Codec, p: Primitives, msg: bytes, envA: Env, msgfile: CString,
                              prompt: CString, binary: bool, salt: Salt16, nonce: Nonce24,
                              envB: Env, pubkeyfile: Option<CString>, seckeyfile: Option<CString>,
                              encfile: CString)
    requires Lawful(c)
    requires ReadAll(envA, msgfile) == Some(msg)
    requires SymEncrypt(p, msg, None, prompt, salt, nonce).Ok?
    ensures var r := SymEncryptFile(c, p, envA, msgfile, prompt, binary, salt, nonce);
      r.Ok? && (ReadAll(envB, encfile) == Some(r.value) ==>
                Decrypt(c, p, envB, pubkeyfile, seckeyfile, encfile, prompt) == Ok(msg))
  {
    var (h, ct) := SymEncrypt(p, msg, None, prompt, salt, nonce).value;
    var hdr := SymMsgBytes(h);
    assert HeaderOk(hdr);
    assert IdentOk(SymIdent);
    EnvelopeRoundTrip(c, hdr, SymIdent, ct, binary);
    var r := SymEncryptFile(c, p, envA, msgfile, prompt, binary, salt, nonce);
    if ReadAll(envB, encfile) == Some(r.value) {
      DecryptReadsBack(c, p, envB, pubkeyfile, seckeyfile, encfile, prompt, hdr, SymIdent, ct, binary);
      DispatchSymEncrypt(c, p, envB, pubkeyfile, seckeyfile, prompt, msg, salt, nonce);
    }
  }
}
