/**
 * Signing and verifying files (reop.c:1094-1246).
 *
 * A detached signature is the armored signature record. An embedded
 * signature is one file holding the message and the signature:
 *
 *   -----BEGIN REOP SIGNED MESSAGE-----
 *   <the message, byte for byte>-----BEGIN REOP SIGNATURE-----
 *   ident:alice
 *   <base64 of the signature record>
 *   -----END REOP SIGNED MESSAGE-----
 *
 * The message is not escaped, so it may itself contain the SIGNATURE line;
 * verifyembedded therefore takes the last such line as the start of the
 * signature.
 */
module Signed {
  import opened Common
  import opened Layout
  import opened Sodium
  import opened Base64
  import opened Wrap
  import opened Armor
  import opened Keys
  import opened Keyring

  /** The kind in the BEGIN and END lines of a signed message, with the rest of the line. */
  const SignedTail: bytes := "SIGNED MESSAGE-----\n"

  /** "-----BEGIN REOP SIGNED MESSAGE-----\n" */
  const BeginSigned: bytes := BeginKey + SignedTail
  /** "-----BEGIN REOP SIGNATURE-----\n": the BEGIN line of an armored signature. */
  const BeginSig: bytes := BeginKey + SignatureInfo + "-----\n"
  /** "-----END REOP SIGNED MESSAGE-----\n" */
  const EndSigned: bytes := EndKey + SignedTail

  /** What a successful verification prints unless -q is given. */
  const Verified: bytes := "Signature Verified\n"

  // --------------------------------------------------------- writesignedmsg

  /** The ident line and the base64 lines of the signature. */
  function SigLines(ident: bytes, b64: bytes): bytes {
    IdentTag + ident + "\n" + Chunked(b64)
  }

  /** The signature part of a signed message: from its BEGIN line to the end of the file. */
  function SigBlock(ident: bytes, b64: bytes): bytes {
    BeginSig + SigLines(ident, b64) + EndSigned
  }

  /**
   * writesignedmsg (reop.c:1094-1115): the BEGIN line, the message, and the
   * signature block; "b64 encode failed" when the signature's base64 does
   * not fit in 1024 bytes.
   */
  function WriteSignedMsg(c: Codec, s: Sig, ident: Ident, msg: bytes): (r: Result<bytes>)
    ensures r.Err? <==> |c.encode(SigBytes(s))| >= TextBuffer
    ensures r.Err? ==> r.error == B64EncodeFailed
    ensures r.Ok? ==> StartsWith(r.value, BeginSigned + msg)
  {
    match Ntop(c, SigBytes(s), TextBuffer)
    case None => Err(B64EncodeFailed)
    case Some(b64) =>
      var text := BeginSigned + msg + SigBlock(ident, CStr(b64));
      assert text[..|BeginSigned + msg|] == BeginSigned + msg;
      Ok(text)
  }

  // -------------------------------------------------------- verifyembedded

  /** The last position at or before i where p occurs, searching backwards. */
  function LastAtOrBefore(s: bytes, p: bytes, i: nat): (r: Option<nat>)
    decreases i
    ensures r.Some? ==> r.value <= i && OccursAt(s, p, r.value)
    ensures r.Some? ==> forall j :: r.value < j <= i ==> !OccursAt(s, p, j)
    ensures r.None? ==> forall j :: 0 <= j <= i ==> !OccursAt(s, p, j)
  {
    if OccursAt(s, p, i) then Some(i)
    else if i == 0 then None
    else LastAtOrBefore(s, p, i - 1)
  }

  /** The last occurrence of p in s: it occurs there and nowhere after. */
  function Last(s: bytes, p: bytes): (r: Option<nat>)
    ensures r.Some? ==> OccursAt(s, p, r.value) && forall j :: r.value < j ==> !OccursAt(s, p, j)
    ensures r.None? ==> forall j :: !OccursAt(s, p, j)
  {
    LastAtOrBefore(s, p, |s|)
  }

  /** An occurrence with none after it is the last. */
  lemma LastIs(s: bytes, p: bytes, k: nat)
    requires OccursAt(s, p, k) && forall j :: k < j ==> !OccursAt(s, p, j)
    ensures Last(s, p) == Some(k)
  {
  }

  /**
   * The search of verifyembedded (reop.c:1216-1220): the first SIGNATURE
   * line, then each following one in turn, until there is no other.
   */
  method LastSignature(m: bytes) returns (r: Option<nat>)
    ensures r == Last(m, BeginSig)
  {
    r := Find(m, BeginSig);
    if r.None? {
      return;
    }
    var k := r.value;
    while FindFrom(m, BeginSig, k + 1).Some?
      invariant OccursAt(m, BeginSig, k)
      decreases |m| - k
    {
      k := FindFrom(m, BeginSig, k + 1).value;
    }
    LastIs(m, BeginSig, k);
    r := Some(k);
  }

  /**
   * The parse half of verifyembedded (reop.c:1203-1222), on the file as a C
   * string: the BEGIN line, then the message and the signature; "invalid
   * signature" when either line is missing.
   */
  function SplitSigned(c: Codec, data: bytes): (r: Result<(bytes, Sig)>)
    ensures !StartsWith(CStr(data), BeginSigned) ==> r == Err(InvalidSignature)
    ensures r.Ok? ==> '\0' !in r.value.0
  {
    var s := CStr(data);
    if !StartsWith(s, BeginSigned) then Err(InvalidSignature)
    else SplitMessage(c, s[36..])
  }

  /**
   * What follows the BEGIN line: the message runs up to the last SIGNATURE
   * line, and the signature is read from there.
   */
  function SplitMessage(c: Codec, m: bytes): (r: Result<(bytes, Sig)>)
    ensures Last(m, BeginSig).None? ==> r == Err(InvalidSignature)
    ensures r.Ok? ==> Last(m, BeginSig) == Some(|r.value.0|) && m[..|r.value.0|] == r.value.0
  {
    match Last(m, BeginSig)
    case None => Err(InvalidSignature)
    case Some(k) =>
      match ParseSig(c, m[k..])
      case Err(e) => Err(e)
      case Ok(sig) => Ok((m[..k], sig))
  }

  /** What verifysimple and verifyembedded report for reop_verify's result. */
  function VerifyOutcome(v: VerifyResult, quiet: bool): (r: Result<bytes>)
    ensures r.Ok? <==> v == VerifyOk
    ensures v == VerifyMismatch ==> r == Err(WrongKey)
    ensures v == VerifyFail ==> r == Err(SignatureFailed)
    ensures r.Ok? ==> (r.value == [] <==> quiet)
  {
    match v
    case VerifyOk => Ok(if quiet then [] else Verified)
    case VerifyMismatch => Err(WrongKey)
    case VerifyFail => Err(SignatureFailed)
  }

  /** The signer's public key, looked up by the signature's ident, checks the message. */
  function CheckSig(c: Codec, p: Primitives, env: Env, pubkeyfile: Option<CString>, msg: bytes,
                    sig: Sig, quiet: bool): (r: Result<bytes>)
    ensures r.Ok? ==> exists pk :: GetPubKey(c, env, pubkeyfile, Some(sig.ident)) == Ok(pk)
                                   && Verify(p, pk, msg, sig) == VerifyOk
  {
    match GetPubKey(c, env, pubkeyfile, Some(sig.ident))
    case Err(e) => Err(e)
    case Ok(pk) => VerifyOutcome(Verify(p, pk, msg, sig), quiet)
  }

  /**
   * verifyembedded (reop.c:1203-1246): the result is what goes to standard
   * output.
   */
  function VerifyEmbedded(c: Codec, p: Primitives, env: Env, pubkeyfile: Option<CString>,
                          sigfile: CString, quiet: bool): (r: Result<bytes>)
    ensures sigfile !in env.files ==> r == Err(CouldNotOpen)
  {
    match ReadAll(env, sigfile)
    case None => Err(CouldNotOpen)
    case Some(data) =>
      match SplitSigned(c, data)
      case Err(e) => Err(e)
      case Ok((msg, sig)) => CheckSig(c, p, env, pubkeyfile, msg, sig, quiet)
  }

  /**
   * verifysimple with readsigfile (reop.c:1154-1197): the message file must
   * open, the signature file must be read, and the signature parse.
   */
  function VerifySimple(c: Codec, p: Primitives, env: Env, pubkeyfile: Option<CString>,
                        msgfile: CString, sigfile: CString, quiet: bool): (r: Result<bytes>)
    ensures msgfile !in env.files ==> r == Err(CouldNotOpen)
    ensures msgfile in env.files && sigfile !in env.files ==> r == Err(CouldNotRead)
  {
    match ReadAll(env, msgfile)
    case None => Err(CouldNotOpen)
    case Some(msg) =>
      match ReadAll(env, sigfile)
      case None => Err(CouldNotRead)
      case Some(sigdata) =>
        match ParseSig(c, sigdata)
        case Err(e) => Err(e)
        case Ok(sig) => CheckSig(c, p, env, pubkeyfile, msg, sig, quiet)
  }

  // ---------------------------------------------------------------- signfile

  /**
   * signfile (reop.c:1121-1148): the message, the secret key (read with a
   * NULL password), the signature; the result is what goes to the
   * signature file: the signed message, or the armored signature up to its
   * first NUL.
   */
  function SignFile(c: Codec, p: Primitives, env: Env, seckeyfile: Option<CString>, msgfile: CString,
                    prompt: CString, embedded: bool): (r: Result<bytes>)
    ensures msgfile !in env.files ==> r == Err(CouldNotOpen)
  {
    match ReadAll(env, msgfile)
    case None => Err(CouldNotOpen)
    case Some(msg) =>
      match GetSecKey(c, p, env, seckeyfile, None, prompt)
      case Err(e) => Err(e)
      case Ok(sk) =>
        var sig := Sign(p, sk, msg);
        if embedded then WriteSignedMsg(c, sig, sig.ident, msg)
        else
          match EncodeSig(c, sig)
          case Err(e) => Err(e)
          case Ok(sigdata) => Ok(CStr(sigdata))
  }

  // ------------------------------------------------------------ round trips

  /** The bytes of the SIGNATURE line that a match must reproduce. */
  lemma BeginSigBytes()
    ensures |BeginSig| == 31 && BeginSig[5] == 'B' && BeginSig[10] == ' ' && BeginSig[15] == ' '
    ensures forall q :: 0 <= q < 31 && q != 10 && q != 15 ==> BeginSig[q] != ' '
  {
  }

  lemma EndSignedBytes()
    ensures |EndSigned| == 34 && EndSigned[3] == '-' && EndSigned[8] == ' ' && EndSigned[15] == 'I'
    ensures forall e :: 0 <= e < 34 && e != 8 && e != 13 && e != 20 ==> EndSigned[e] != ' '
  {
  }

  /**
   * Where the SIGNATURE line could start inside a signature block, past its
   * own start, the blank at its offset 10 or the 'B' at its offset 5 is
   * missing: the block's only blanks are the two of its BEGIN line and the
   * three of its END line.
   */
  lemma NoBlankAndB(mid: bytes, j: nat)
    requires ' ' !in mid && 0 < j && j + 31 <= |BeginSig + mid + EndSigned|
    ensures var t := BeginSig + mid + EndSigned;
      t[j + 10] != ' ' || t[j + 5] != 'B'
  {
    var t := BeginSig + mid + EndSigned;
    var q := j + 10;
    BeginSigBytes();
    EndSignedBytes();
    if q < 31 {
      assert t[q] == BeginSig[q] && t[j + 5] == BeginSig[j + 5];
    } else if q < 31 + |mid| {
      assert t[q] == mid[q - 31];
    } else {
      var e := q - 31 - |mid|;
      assert t[q] == EndSigned[e];
      if e == 8 || e == 13 || e == 20 {
        assert t[j + 5] == EndSigned[e - 5];
      }
    }
  }

  /** The SIGNATURE line occurs in a signature block only at its start. */
  lemma OnlySigLine(mid: bytes)
    requires ' ' !in mid
    ensures var t := BeginSig + mid + EndSigned;
      OccursAt(t, BeginSig, 0) && forall j :: 0 < j ==> !OccursAt(t, BeginSig, j)
  {
    var t := BeginSig + mid + EndSigned;
    BeginSigBytes();
    assert t[..31] == BeginSig;
    forall j | 0 < j
      ensures !OccursAt(t, BeginSig, j)
    {
      if j + 31 <= |t| {
        NoBlankAndB(mid, j);
        assert t[j..j + 31][10] == t[j + 10] && t[j..j + 31][5] == t[j + 5];
      }
    }
  }

  /** An occurrence in the second part of a concatenation, seen from the whole. */
  lemma OccursShift(a: bytes, b: bytes, p: bytes, j: nat)
    ensures OccursAt(a + b, p, |a| + j) <==> OccursAt(b, p, j)
  {
    if |a| + j + |p| <= |a + b| {
      assert (a + b)[|a| + j..|a| + j + |p|] == b[j..j + |p|];
    }
  }

  /** The signature block of a one-word ident and an encoding has no blank between its lines. */
  lemma SigLinesNoBlank(c: Codec, ident: Ident, b: bytes)
    requires Lawful(c) && IdentOk(ident)
    ensures ' ' !in SigLines(ident, c.encode(b)) && '\0' !in SigBlock(ident, c.encode(b))
  {
    var w := Chunked(c.encode(b));
    ChunkedB64(c, b);
    B64NoNul(w);
    forall i | 0 <= i < |w|
      ensures w[i] != ' '
    {
    }
    assert forall i :: 0 <= i < |ident| ==> ident[i] != ' ' && ident[i] != '\0' by {
      assert forall i :: 0 <= i < |ident| ==> !IsSpace(ident[i]);
    }
    NotInJoin(' ', IdentTag + ident + "\n", w);
    NotInJoin('\0', IdentTag + ident + "\n", w);
    NotInJoin('\0', BeginSig, SigLines(ident, c.encode(b)));
    NotInJoin('\0', BeginSig + SigLines(ident, c.encode(b)), EndSigned);
  }

  /** The signature block is the armor parsekeydata reads, followed by "SIGNED MESSAGE-----\n". */
  lemma SigBlockIsArmor(c: Codec, s: Sig, ident: Ident)
    requires Lawful(c)
    ensures SigBlock(ident, c.encode(SigBytes(s)))
            == ArmorHead(SignatureInfo) + ArmorMiddle(ident, WrapText(c.encode(SigBytes(s)), TextBuffer))
               + EndKey + SignedTail
  {
    var e := c.encode(SigBytes(s));
    assert |e| == 100;
    assert WrapText(e, TextBuffer) == Wrapped(e);
    ChunkedIsWrapped(e);
  }

  /** The signature read from a signature block is the one written. */
  lemma ParseSigBlock(c: Codec, s: Sig)
    requires Lawful(c) && IdentOk(s.ident)
    ensures ParseSig(c, SigBlock(s.ident, c.encode(SigBytes(s)))) == Ok(s)
  {
    SigBlockIsArmor(c, s, s.ident);
    ParseFramed(c, SignatureInfo, SigBytes(s), s.ident, SignedTail);
    SigRoundTrip(s);
  }

  /**
   * The embedded-signature round trip: verifyembedded takes apart what
   * writesignedmsg wrote into the same message and signature, also when
   * the message contains the SIGNATURE line itself. The message must be
   * free of NUL, since the file is read as a C string.
   */
  lemma SplitSignedRoundTrip(c: Codec, s: Sig, msg: bytes)
    requires Lawful(c) && IdentOk(s.ident) && '\0' !in msg
    ensures WriteSignedMsg(c, s, s.ident, msg).Ok?
    ensures SplitSigned(c, WriteSignedMsg(c, s, s.ident, msg).value) == Ok((msg, s))
  {
    var e := c.encode(SigBytes(s));
    EncodingIsPlain(c, SigBytes(s));
    CStrOfCString(e);
    var block := SigBlock(s.ident, e);
    assert WriteSignedMsg(c, s, s.ident, msg) == Ok(BeginSigned + msg + block);
    SigLinesNoBlank(c, s.ident, SigBytes(s));
    SignedLayout(msg, block);
    SplitMessageRoundTrip(c, s, msg);
  }

  /** A signed message without NUL is its own C string, and its message part follows the BEGIN line. */
  lemma SignedLayout(msg: bytes, block: bytes)
    requires '\0' !in msg && '\0' !in block
    ensures var data := BeginSigned + msg + block;
      CStr(data) == data && StartsWith(data, BeginSigned) && data[36..] == msg + block
  {
    var data := BeginSigned + msg + block;
    NotInJoin('\0', BeginSigned, msg);
    NotInJoin('\0', BeginSigned + msg, block);
    CStrOfCString(data);
    assert data[..36] == BeginSigned;
  }

  lemma SplitMessageRoundTrip(c: Codec, s: Sig, msg: bytes)
    requires Lawful(c) && IdentOk(s.ident)
    ensures SplitMessage(c, msg + SigBlock(s.ident, c.encode(SigBytes(s)))) == Ok((msg, s))
  {
    var block := SigBlock(s.ident, c.encode(SigBytes(s)));
    var m := msg + block;
    SigLinesNoBlank(c, s.ident, SigBytes(s));
    LastSigLine(msg, SigLines(s.ident, c.encode(SigBytes(s))));
    assert m[..|msg|] == msg && m[|msg|..] == block;
    ParseSigBlock(c, s);
  }

  /** In a message followed by a signature block, the last SIGNATURE line is the block's. */
  lemma LastSigLine(msg: bytes, mid: bytes)
    requires ' ' !in mid
    ensures Last(msg + (BeginSig + mid + EndSigned), BeginSig) == Some(|msg|)
  {
    var block := BeginSig + mid + EndSigned;
    var m := msg + block;
    OnlySigLine(mid);
    OccursShift(msg, block, BeginSig, 0);
    forall j | |msg| < j
      ensures !OccursAt(m, BeginSig, j)
    {
      OccursShift(msg, block, BeginSig, j - |msg|);
    }
    LastIs(m, BeginSig, |msg|);
  }

  /**
   * signfile -e then verifyembedded: the file is written, and read back it
   * gives reop_verify's verdict on the message and the signature, with the
   * public key found under the signer's ident; for the public half of the
   * signing key that verdict is "Signature Verified".
   */
  lemma SignVerifyEmbedded(c: Codec, p: Primitives, pk: PubKey, sk: SecKey, msg: bytes,
                           envA: Env, seckeyfile: Option<CString>, msgfile: CString, prompt: CString,
                           envB: Env, pubkeyfile: Option<CString>, sigfile: CString, quiet: bool)
    requires Lawful(c) && IdentOk(sk.ident) && '\0' !in msg
    requires ReadAll(envA, msgfile) == Some(msg)
    requires GetSecKey(c, p, envA, seckeyfile, None, prompt) == Ok(sk)
    requires GetPubKey(c, envB, pubkeyfile, Some(sk.ident)) == Ok(pk)
    ensures var r := SignFile(c, p, envA, seckeyfile, msgfile, prompt, true);
      r.Ok? && (ReadAll(envB, sigfile) == Some(r.value) ==>
        VerifyEmbedded(c, p, envB, pubkeyfile, sigfile, quiet) == VerifyOutcome(Verify(p, pk, msg, Sign(p, sk, msg)), quiet)
        && (Sound(p) && KeyPair(p, pk, sk) ==>
              VerifyEmbedded(c, p, envB, pubkeyfile, sigfile, quiet) == Ok(if quiet then [] else Verified)))
  {
    var sig := Sign(p, sk, msg);
    SplitSignedRoundTrip(c, sig, msg);
    if Sound(p) && KeyPair(p, pk, sk) {
      VerifySign(p, pk, sk, msg);
    }
  }

  /** signfile then verifysimple: the detached signature gives the same verdicts. */
  lemma SignVerifyDetached(c: Codec, p: Primitives, pk: PubKey, sk: SecKey, msg: bytes,
                           envA: Env, seckeyfile: Option<CString>, msgfile: CString, prompt: CString,
                           envB: Env, pubkeyfile: Option<CString>, msgfileB: CString, sigfile: CString,
                           quiet: bool)
    requires Lawful(c) && IdentOk(sk.ident)
    requires ReadAll(envA, msgfile) == Some(msg) && ReadAll(envB, msgfileB) == Some(msg)
    requires GetSecKey(c, p, envA, seckeyfile, None, prompt) == Ok(sk)
    requires GetPubKey(c, envB, pubkeyfile, Some(sk.ident)) == Ok(pk)
    ensures var r := SignFile(c, p, envA, seckeyfile, msgfile, prompt, false);
      r.Ok? && (ReadAll(envB, sigfile) == Some(r.value) ==>
        VerifySimple(c, p, envB, pubkeyfile, msgfileB, sigfile, quiet) == VerifyOutcome(Verify(p, pk, msg, Sign(p, sk, msg)), quiet)
        && (Sound(p) && KeyPair(p, pk, sk) ==>
              VerifySimple(c, p, envB, pubkeyfile, msgfileB, sigfile, quiet) == Ok(if quiet then [] else Verified)))
  {
    var sig := Sign(p, sk, msg);
    SigArmorRoundTrip(c, sig);
    var text := EncodeSig(c, sig).value;
    CStrOfCStr(text);
    assert ParseSig(c, CStr(text)) == ParseSig(c, text);
    if Sound(p) && KeyPair(p, pk, sk) {
      VerifySign(p, pk, sk, msg);
    }
  }
}
