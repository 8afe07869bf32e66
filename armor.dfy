/**
 * The text armor of reop keys and signatures (reop.c:399-444, 685-702): a
 * BEGIN line naming the kind, an `ident:` line, the record's bytes in wrapped
 * base64, and an END line.
 *
 *   -----BEGIN REOP PUBLIC KEY-----
 *   ident:alice
 *   RWRDU...
 *   -----END REOP PUBLIC KEY-----
 */
module Armor {
  import opened Common
  import opened Layout
  import opened Base64
  import opened Wrap

  const BeginKey: bytes := "-----BEGIN REOP "
  const EndKey: bytes := "-----END REOP "
  const IdentTag: bytes := "ident:"

  const PublicKeyInfo: bytes := "PUBLIC KEY"
  const SecretKeyInfo: bytes := "SECRET KEY"
  const SignatureInfo: bytes := "SIGNATURE"

  /** The size of the text buffers of encodekey (`char buf[1024]`, `char b64[1024]`). */
  const TextBuffer: nat := 1024

  // ------------------------------------------------------------ ident line

  /** What sscanf's %s skips: the leading white space. */
  function SkipSpace(s: CString): (r: CString)
    ensures |r| <= |s| && r == s[|s| - |r|..]
    ensures |r| > 0 ==> !IsSpace(r[0])
    ensures forall i :: 0 <= i < |s| - |r| ==> IsSpace(s[i])
  {
    if |s| > 0 && IsSpace(s[0]) then SkipSpace(s[1..]) else s
  }

  /** What sscanf's %s reads: the longest prefix without white space. */
  function Token(s: CString): (r: CString)
    ensures StartsWith(s, r) && NoSpace(r)
    ensures |r| < |s| ==> IsSpace(s[|r|])
  {
    if |s| == 0 || IsSpace(s[0]) then [] else [s[0]] + Token(s[1..])
  }

  lemma {:induction false} TokenOfWord(a: CString, b: CString)
    requires NoSpace(a) && |b| > 0 && IsSpace(b[0])
    ensures Token(a + b) == a
  {
    if |a| > 0 {
      assert (a + b)[1..] == a[1..] + b;
      TokenOfWord(a[1..], b);
    }
  }

  /** The ident of an `ident:` line: its first word, cut to 63 bytes. */
  function IdentWord(s: CString): (r: Ident)
    requires StartsWith(s, IdentTag)
    ensures NoSpace(r) && StartsWith(Token(SkipSpace(s[6..])), r)
    ensures |r| == if |Token(SkipSpace(s[6..]))| <= 63 then |Token(SkipSpace(s[6..]))| else 63
  {
    var t := Take(Token(SkipSpace(s[6..])), 63);
    assert forall i :: 0 <= i < |t| ==> t[i] == Token(SkipSpace(s[6..]))[i];
    t
  }

  /**
   * readident (reop.c:399-409): `sscanf(buf, "ident:%63s", ident)` followed by
   * the line after the first newline from buf + 1 on. The ident is the first
   * word after "ident:", cut to 63 bytes. The result holds the ident and the
   * text of the following lines.
   */
  function ReadIdent(buf: bytes): (r: Result<(Ident, bytes)>)
    ensures r.Err? ==> r.error == NoIdentFound || r.error == InvalidHeader
  {
    var s := CStr(buf);
    if !StartsWith(s, IdentTag) || |Token(SkipSpace(s[6..]))| == 0 then Err(NoIdentFound)
    else
      match FindFrom(s, "\n", 1)
      case None => Err(InvalidHeader)
      case Some(p) =>
        var res: (Ident, bytes) := (IdentWord(s), s[p + 1..]);
        Ok(res)
  }

  /**
   * What readident does with a line: no ident without "ident:" and a word
   * after it, a bad header without a newline after the first byte, and
   * otherwise the first word (at most 63 bytes, never empty, without
   * whitespace) and the text after that newline.
   */
  lemma ReadIdentSpec(buf: bytes)
    ensures var r := ReadIdent(buf);
      && (r.Err? && r.error == NoIdentFound <==>
            !StartsWith(CStr(buf), IdentTag) || |Token(SkipSpace(CStr(buf)[6..]))| == 0)
      && (r.Err? && r.error == InvalidHeader <==>
            StartsWith(CStr(buf), IdentTag) && |Token(SkipSpace(CStr(buf)[6..]))| > 0
            && FindFrom(CStr(buf), "\n", 1).None?)
      && (r.Ok? ==> r.value.0 == IdentWord(CStr(buf)) && |r.value.0| > 0 && NoSpace(r.value.0))
      && (r.Ok? ==> FindFrom(CStr(buf), "\n", 1).Some?
                    && r.value.1 == CStr(buf)[FindFrom(CStr(buf), "\n", 1).value + 1..])
  {
    var s := CStr(buf);
    if StartsWith(s, IdentTag) && |Token(SkipSpace(s[6..]))| > 0 {
      var p := FindFrom(s, "\n", 1);
      if p.Some? {
        IdentWordWord(s);
      }
    }
  }

  /** The ident sscanf reads after "ident:" is a non-empty word. */
  lemma IdentWordWord(s: CString)
    requires StartsWith(s, IdentTag) && |Token(SkipSpace(s[6..]))| > 0
    ensures |IdentWord(s)| > 0 && NoSpace(IdentWord(s))
  {
  }

  // ------------------------------------------------------------ parsekeydata

  /**
   * parsekeydata (reop.c:415-444): the armored text must start with
   * "-----BEGIN REOP " and the kind, and contain "-----END REOP ". The text
   * in front of the END marker is handed to `KeyBody`.
   */
  function ParseKeyData(c: Codec, keydata: bytes, keytype: bytes, keylen: nat): (r: Result<(bytes, Ident)>)
    ensures r.Ok? ==> |r.value.0| == keylen
    ensures !StartsWith(CStr(keydata), BeginKey + keytype) ==> r == Err(InvalidKeyData)
    ensures Find(CStr(keydata), EndKey).None? ==> r == Err(InvalidKeyData)
    ensures r.Err? ==> r.error in {InvalidKeyData, NoIdentFound, InvalidHeader, InvalidB64}
  {
    var kd := CStr(keydata);
    if !StartsWith(kd, BeginKey) || !StartsWith(kd[16..], keytype) then
      Err(InvalidKeyData)
    else
      assert StartsWith(kd, BeginKey + keytype) by {
        assert kd[..16 + |keytype|] == kd[..16] + kd[16..][..|keytype|];
      }
      match Find(kd, EndKey)
      case None => Err(InvalidKeyData)
      case Some(end) => KeyBody(c, kd[..end], keylen)
  }

  /**
   * The text in front of the END marker: the ident line follows the first
   * line, and the text from the line after it on must decode to exactly
   * `keylen` bytes.
   */
  function KeyBody(c: Codec, body: bytes, keylen: nat): (r: Result<(bytes, Ident)>)
    ensures r.Ok? ==> |r.value.0| == keylen
    ensures r.Err? ==> r.error in {InvalidKeyData, NoIdentFound, InvalidHeader, InvalidB64}
  {
    match Find(body, "\n")
    case None => Err(InvalidKeyData)
    case Some(nl) =>
      match ReadIdent(body[nl + 1..])
      case Err(e) => Err(e)
      case Ok((ident, rest)) =>
        match Pton(c, rest, keylen)
        case None => Err(InvalidB64)
        case Some(key) =>
          var res: (bytes, Ident) := (key, ident);
          if |key| != keylen then Err(InvalidB64) else Ok(res)
  }

  /** The key body is read when each of its steps succeeds. */
  lemma KeyBodySteps(c: Codec, body: bytes, keylen: nat, nl: nat, line: bytes,
                     ident: Ident, rest: bytes, key: bytes)
    requires Find(body, "\n") == Some(nl) && nl < |body| && body[nl + 1..] == line
    requires ReadIdent(line) == Ok((ident, rest))
    requires Pton(c, rest, keylen) == Some(key) && |key| == keylen
    ensures KeyBody(c, body, keylen) == Ok((key, ident))
  {
  }

  /** parsekeydata succeeds when the frame is there and the key body is read. */
  lemma ParseKeyDataSteps(c: Codec, keydata: bytes, keytype: bytes, keylen: nat,
                          kd: bytes, end: nat, res: (bytes, Ident))
    requires CStr(keydata) == kd && StartsWith(kd, BeginKey) && StartsWith(kd[16..], keytype)
    requires Find(kd, EndKey) == Some(end) && end <= |kd|
    requires KeyBody(c, kd[..end], keylen) == Ok(res)
    ensures ParseKeyData(c, keydata, keytype, keylen) == Ok(res)
  {
  }

  // ------------------------------------------------------------- encodekey

  /** The armored text, before snprintf cuts it to its buffer. */
  function ArmorText(info: bytes, ident: bytes, body: bytes): bytes {
    ArmorHead(info) + ArmorMiddle(ident, body) + EndKey + ArmorTail(info)
  }

  /** The rest of the END line. */
  function ArmorTail(info: bytes): bytes {
    info + "-----\n"
  }

  /** The BEGIN line and the tag of the ident line. */
  function ArmorHead(info: bytes): bytes {
    BeginKey + info + "-----\n" + IdentTag
  }

  /** The ident, the base64 lines, and the newline before the END line. */
  function ArmorMiddle(ident: bytes, body: bytes): bytes {
    ident + "\n" + body + "\n"
  }

  /**
   * encodekey (reop.c:685-702): base64 into a 1024-byte buffer (or "b64
   * encode failed"), the base64 wrapped into lines, and the four parts
   * formatted into a second 1024-byte buffer, which keeps at most 1023 bytes.
   * The wrapping is the corrected WrapText; for the three record sizes
   * encodekey is called with, the code as written wraps the same way
   * (EncodedLengthsWrapSafely with AsWrittenAgrees).
   */
  function EncodeKey(c: Codec, info: bytes, key: bytes, ident: Ident): (r: Result<bytes>)
    ensures r.Err? <==> |c.encode(key)| >= TextBuffer
    ensures r.Err? ==> r.error == B64EncodeFailed
    ensures r.Ok? ==> |r.value| < TextBuffer
                      && StartsWith(ArmorText(info, ident, WrapText(c.encode(key), TextBuffer)), r.value)
  {
    match Ntop(c, key, TextBuffer)
    case None => Err(B64EncodeFailed)
    case Some(b64) => Ok(Take(ArmorText(info, ident, WrapText(b64, TextBuffer)), TextBuffer - 1))
  }

  // ----------------------------------------------------------- round trip

  /** A kind name that can be armored: short, and free of '-', newline and NUL. */
  predicate InfoOk(info: bytes) {
    0 < |info| <= 10 && '-' !in info && '\n' !in info && '\0' !in info
  }

  /** An ident that readident reads back whole: one word. */
  predicate IdentOk(ident: Ident) {
    |ident| > 0 && NoSpace(ident)
  }

  /** Base64 text as encodekey lays it out: alphabet bytes and newlines. */
  predicate B64Text(w: bytes) {
    forall i :: 0 <= i < |w| ==> w[i] == '\n' || InAlphabet(w[i])
  }

  lemma WrapTextIsB64(c: Codec, key: bytes, space: nat)
    requires Lawful(c)
    ensures B64Text(WrapText(c.encode(key), space))
    ensures |WrapText(c.encode(key), space)| <= |c.encode(key)| + |c.encode(key)| / 76
  {
    var s := c.encode(key);
    if Fits(|s|, space) {
      forall i | 0 <= i < |Wrapped(s)|
        ensures Wrapped(s)[i] == '\n' || InAlphabet(Wrapped(s)[i])
      {
        WrappedAt(s, i);
      }
    }
  }

  /** The chunked base64 of any bytes: alphabet bytes and newlines, and no shorter than the encoding. */
  lemma ChunkedB64(c: Codec, b: bytes)
    requires Lawful(c)
    ensures B64Text(Chunked(c.encode(b))) && |Chunked(c.encode(b))| >= |c.encode(b)|
  {
    ChunkedText(c.encode(b));
  }

  lemma {:induction false} ChunkedText(s: bytes)
    requires B64Text(s)
    ensures B64Text(Chunked(s)) && |Chunked(s)| >= |s|
  {
    if |s| > 76 {
      ChunkedText(s[76..]);
    }
  }

  /** A marker that starts with '-' is found right after base64 text. */
  lemma FindAfterB64(a: bytes, mk: bytes, t: bytes)
    requires B64Text(a) && |mk| > 0 && mk[0] == '-'
    ensures Find(a + mk + t, mk) == Some(|a|)
  {
    var s := a + mk + t;
    assert s[|a|..|a| + |mk|] == mk;
    forall j | 0 <= j < |a|
      ensures !OccursAt(s, mk, j)
    {
      assert s[j] == a[j] && a[j] != '-';
    }
    FindFirst(s, mk, |a|);
  }

  lemma B64NoNul(w: bytes)
    requires B64Text(w)
    ensures '\0' !in w
  {
    forall i | 0 <= i < |w|
      ensures w[i] != '\0'
    {
    }
  }

  /** No "-E" pair: the one feature of the END marker that the head of the armor lacks. */
  predicate NoDashE(s: bytes) {
    forall i :: 0 <= i < |s| - 1 ==> !DashEAt(s, i)
  }

  predicate DashEAt(s: bytes, i: nat)
    requires i < |s| - 1
  {
    s[i] == '-' && s[i + 1] == 'E'
  }

  /**
   * strstr finds the END marker right after P + M when P has no "-E" pair
   * and does not end in '-', and M has no space and ends in a newline.
   */
  lemma FirstEndKey(p: bytes, m: bytes, t: bytes)
    requires NoDashE(p) && |p| > 0 && p[|p| - 1] != '-'
    requires |m| > 0 && m[|m| - 1] == '\n' && ' ' !in m
    ensures Find(p + m + EndKey + t, EndKey) == Some(|p| + |m|)
    ensures (p + m + EndKey + t)[..|p| + |m|] == p + m
  {
    var s := p + m + EndKey + t;
    assert s[|p| + |m|..][..|EndKey|] == EndKey;
    assert forall k :: 0 <= k < |p| ==> s[k] == p[k];
    assert forall k :: |p| <= k < |p| + |m| ==> s[k] == m[k - |p|];
    assert forall k :: 0 <= k < |EndKey| ==> EndKey[k] != '\n';
    forall j | 0 <= j < |p| + |m|
      ensures !OccursAt(s, EndKey, j)
    {
      if j + 14 <= |s| {
        if j + 5 < |p| {
          assert !DashEAt(p, j + 4);
        }
        // an index where s differs from the marker
        var k: nat :=
          if j + 5 < |p| then (if s[j + 4] != '-' then 4 else 5)
          else if j + 5 == |p| then 4
          else if |p| + |m| - 1 <= j + 13 then |p| + |m| - 1 - j
          else 8;
        assert s[j + k] != EndKey[k];
        assert s[j..j + 14][k] == s[j + k];
      }
    }
    FindFirst(s, EndKey, |p| + |m|);
  }

  lemma HeadNoDashE(info: bytes)
    requires InfoOk(info)
    ensures NoDashE(ArmorHead(info)) && ArmorHead(info)[|ArmorHead(info)| - 1] != '-'
  {
    var h := ArmorHead(info);
    forall i | 0 <= i < |h| - 1
      ensures !DashEAt(h, i)
    {
      if i < 16 {
        assert h[..16] == BeginKey;
      } else if i < 16 + |info| {
        assert h[i] == info[i - 16];
      } else {
        assert h[16 + |info|..] == "-----\n" + IdentTag;
      }
    }
  }

  lemma MiddleIsPlain(ident: Ident, w: bytes)
    requires NoSpace(ident) && B64Text(w)
    ensures ' ' !in ArmorMiddle(ident, w) && '\0' !in ArmorMiddle(ident, w)
  {
    var m := ArmorMiddle(ident, w);
    forall i | 0 <= i < |m|
      ensures m[i] != ' ' && m[i] != '\0'
    {
      if i < |ident| {
        assert m[i] == ident[i];
      } else if |ident| < i < |ident| + 1 + |w| {
        assert m[i] == w[i - |ident| - 1];
      }
    }
  }

  /** strchr finds the newline that ends the BEGIN line. */
  lemma BeginLineEnd(info: bytes, m: bytes)
    requires InfoOk(info)
    ensures Find(ArmorHead(info) + m, "\n") == Some(21 + |info|)
    ensures (ArmorHead(info) + m)[22 + |info|..] == IdentTag + m
    ensures StartsWith(ArmorHead(info) + m, BeginKey) && StartsWith((ArmorHead(info) + m)[16..], info)
  {
    var body := ArmorHead(info) + m;
    assert body[16..][..|info|] == info;
    var nl := 21 + |info|;
    forall j | 0 <= j < nl
      ensures !OccursAt(body, "\n", j)
    {
      OccursAtByte(body, '\n', j);
      if j < 16 {
        assert body[..16] == BeginKey;
      } else if j < 16 + |info| {
        assert body[j] == info[j - 16];
      }
    }
    OccursAtByte(body, '\n', nl);
    FindFirst(body, "\n", nl);
    assert body[nl + 1..] == IdentTag + m;
  }

  /** The first newline of an ident line written by reop is the one after the ident. */
  lemma IdentLineNewline(ident: Ident, rest: bytes)
    requires NoSpace(ident)
    ensures var l := IdentTag + ident + "\n" + rest;
      FindFrom(l, "\n", 1) == Some(6 + |ident|) && l[6 + |ident| + 1..] == rest
  {
    var l := IdentTag + ident + "\n" + rest;
    var q := 6 + |ident|;
    forall j | 1 <= j < q
      ensures !OccursAt(l, "\n", j)
    {
      OccursAtByte(l, '\n', j);
      if j >= 6 {
        assert l[j] == ident[j - 6];
      }
    }
    OccursAtByte(l, '\n', q);
    FindFromFirst(l, "\n", 1, q);
    assert l[q + 1..] == rest;
  }

  lemma IdentLineIsCString(ident: Ident, rest: bytes)
    requires '\0' !in rest
    ensures '\0' !in IdentTag + ident + "\n" + rest
  {
    var l := IdentTag + ident + "\n" + rest;
    forall j | 0 <= j < |l| ensures l[j] != '\0' {
      if 6 <= j < 6 + |ident| {
        assert l[j] == ident[j - 6];
      } else if j > 6 + |ident| {
        assert l[j] == rest[j - 7 - |ident|];
      }
    }
  }

  /** sscanf reads a one-word ident back from its line. */
  lemma IdentWordOfLine(ident: Ident, rest: bytes)
    requires IdentOk(ident) && '\0' !in rest
    ensures var l := IdentTag + ident + "\n" + rest;
      '\0' !in l && StartsWith(l, IdentTag) && IdentWord(l) == ident
  {
    IdentLineIsCString(ident, rest);
    var l := IdentTag + ident + "\n" + rest;
    var m := ident + ("\n" + rest);
    assert l[6..] == m;
    assert SkipSpace(m) == m by {
      assert m[0] == ident[0];
    }
    TokenOfWord(ident, "\n" + rest);
  }

  /** readident reads a one-word ident back, and what follows is the next line on. */
  lemma ReadIdentWord(ident: Ident, rest: bytes)
    requires IdentOk(ident) && '\0' !in rest
    ensures ReadIdent(IdentTag + ident + "\n" + rest) == Ok((ident, rest))
  {
    var l := IdentTag + ident + "\n" + rest;
    IdentLineIsCString(ident, rest);
    CStrOfCString(l);
    IdentWordOfLine(ident, rest);
    IdentLineNewline(ident, rest);
  }

  /** readident reads a one-word ident back, and the rest starts on the next line. */
  lemma ReadIdentLine(ident: Ident, w: bytes)
    requires IdentOk(ident) && B64Text(w)
    ensures ReadIdent(IdentTag + ArmorMiddle(ident, w)) == Ok((ident, w + "\n"))
  {
    MiddleIsPlain(ident, w);
    assert '\0' !in w + "\n" by {
      var m := ArmorMiddle(ident, w);
      forall j | 0 <= j < |w| ensures w[j] != '\0' {
        assert w[j] == m[|ident| + 1 + j];
      }
    }
    assert IdentTag + ArmorMiddle(ident, w) == IdentTag + ident + "\n" + (w + "\n");
    ReadIdentWord(ident, w + "\n");
  }

  /** pton reads the wrapped base64 lines back as the key. */
  lemma PtonOfWrapped(c: Codec, key: bytes)
    requires Lawful(c)
    ensures Pton(c, WrapText(c.encode(key), TextBuffer) + "\n", |key|) == Some(key)
  {
    var b64 := c.encode(key);
    var w := WrapText(b64, TextBuffer);
    WrapTextIsB64(c, key, TextBuffer);
    assert forall i :: 0 <= i < |w + "\n"| ==> (w + "\n")[i] != '\0' by {
      forall i | 0 <= i < |w + "\n"|
        ensures (w + "\n")[i] != '\0'
      {
        if i < |w| {
          assert (w + "\n")[i] == w[i];
        }
      }
    }
    EncodingIsPlain(c, key);
    DropSpaceOfNoSpace(b64);
    DropSpaceAppend(w, "\n");
    PtonOfSpaced(c, key, w + "\n", |key|);
  }

  /** The armored text fits its buffer and is a C string. */
  lemma EncodedText(c: Codec, info: bytes, key: bytes, ident: Ident)
    requires Lawful(c) && InfoOk(info) && IdentOk(ident) && |key| <= SecKeySize
    ensures var text := ArmorText(info, ident, WrapText(c.encode(key), TextBuffer));
      EncodeKey(c, info, key, ident) == Ok(text) && '\0' !in text
  {
    var w := WrapText(c.encode(key), TextBuffer);
    assert |c.encode(key)| <= 232;
    WrapTextIsB64(c, key, TextBuffer);
    MiddleIsPlain(ident, w);
    TextNoNul(info, ident, w);
    var text := ArmorText(info, ident, w);
    assert |text| < TextBuffer;
  }

  /** The armor around a NUL-free middle holds no NUL. */
  lemma TextNoNul(info: bytes, ident: Ident, w: bytes)
    requires InfoOk(info) && '\0' !in ArmorMiddle(ident, w)
    ensures '\0' !in ArmorText(info, ident, w)
  {
    var h := ArmorHead(info);
    assert '\0' !in h && '\0' !in ArmorTail(info);
    NotInJoin('\0', h, ArmorMiddle(ident, w));
    NotInJoin('\0', h + ArmorMiddle(ident, w), EndKey);
    NotInJoin('\0', h + ArmorMiddle(ident, w) + EndKey, ArmorTail(info));
  }

  lemma NotInJoin<T>(x: T, a: seq<T>, b: seq<T>)
    requires x !in a && x !in b
    ensures x !in a + b
  {
  }

  /**
   * The key armor round trip: what encodekey writes for a one-word ident,
   * parsekeydata reads back as the same key bytes and ident.
   */
  lemma ParseEncodeKey(c: Codec, info: bytes, key: bytes, ident: Ident)
    requires Lawful(c) && InfoOk(info) && IdentOk(ident) && |key| <= SecKeySize
    ensures EncodeKey(c, info, key, ident).Ok?
    ensures ParseKeyData(c, EncodeKey(c, info, key, ident).value, info, |key|) == Ok((key, ident))
  {
    EncodedText(c, info, key, ident);
    ParseFramed(c, info, key, ident, ArmorTail(info));
  }

  /**
   * parsekeydata reads the key and the ident from the head, the ident line
   * and the wrapped base64 of a key, followed by "-----END REOP " and any
   * text without a NUL. Besides encodekey's output, this is how the
   * signature at the end of an embedded-signature file is read.
   */
  lemma ParseFramed(c: Codec, info: bytes, key: bytes, ident: Ident, t: bytes)
    requires Lawful(c) && InfoOk(info) && IdentOk(ident) && '\0' !in t
    ensures ParseKeyData(c, ArmorHead(info) + ArmorMiddle(ident, WrapText(c.encode(key), TextBuffer))
                            + EndKey + t, info, |key|) == Ok((key, ident))
  {
    var w := WrapText(c.encode(key), TextBuffer);
    var p := ArmorHead(info);
    var m := ArmorMiddle(ident, w);
    var text := p + m + EndKey + t;
    WrapTextIsB64(c, key, TextBuffer);
    MiddleIsPlain(ident, w);
    assert '\0' !in p;
    NotInJoin('\0', p, m);
    NotInJoin('\0', p + m, EndKey);
    NotInJoin('\0', p + m + EndKey, t);
    CStrOfCString(text);
    EncodedFrame(info, ident, w, t);
    EncodedBody(c, info, key, ident);
    ParseKeyDataSteps(c, text, info, |key|, text, |p| + |m|, (key, ident));
  }

  /** The END marker that strstr finds is the one after the base64 lines. */
  lemma EncodedFrame(info: bytes, ident: Ident, w: bytes, t: bytes)
    requires InfoOk(info) && IdentOk(ident) && B64Text(w)
    ensures var p := ArmorHead(info);
      var m := ArmorMiddle(ident, w);
      var text := p + m + EndKey + t;
      Find(text, EndKey) == Some(|p| + |m|) && text[..|p| + |m|] == p + m
      && StartsWith(text, BeginKey) && StartsWith(text[16..], info)
  {
    var p := ArmorHead(info);
    var m := ArmorMiddle(ident, w);
    MiddleIsPlain(ident, w);
    HeadNoDashE(info);
    FirstEndKey(p, m, t);
    BeginLineEnd(info, m);
    var text := p + m + EndKey + t;
    assert text == (p + m) + (EndKey + t);
    assert text[..16] == (p + m)[..16];
    assert text[16..][..|info|] == (p + m)[16..][..|info|];
  }

  /** The text in front of the END marker reads back as the ident and the key. */
  lemma EncodedBody(c: Codec, info: bytes, key: bytes, ident: Ident)
    requires Lawful(c) && InfoOk(info) && IdentOk(ident)
    ensures var w := WrapText(c.encode(key), TextBuffer);
      KeyBody(c, ArmorHead(info) + ArmorMiddle(ident, w), |key|) == Ok((key, ident))
  {
    var w := WrapText(c.encode(key), TextBuffer);
    WrapTextIsB64(c, key, TextBuffer);
    var m := ArmorMiddle(ident, w);
    BeginLineEnd(info, m);
    ReadIdentLine(ident, w);
    PtonOfWrapped(c, key);
    KeyBodySteps(c, ArmorHead(info) + m, |key|, 21 + |info|, IdentTag + m, ident, w + "\n", key);
  }

  // ------------------------------------------------ public keys and signatures

  /** reop_parsepubkey (reop.c:743-748). */
  function ParsePubKey(c: Codec, data: bytes): (r: Result<PubKey>)
    ensures r.Ok? ==> ParseKeyData(c, data, PublicKeyInfo, PubKeySize)
                      == Ok((PubKeyBytes(r.value), r.value.ident))
  {
    match ParseKeyData(c, data, PublicKeyInfo, PubKeySize)
    case Err(e) => Err(e)
    case Ok((b, ident)) =>
      PubKeyBytesOf(b, ident);
      Ok(PubKeyOf(b, ident))
  }

  /** reop_encodepubkey (reop.c:754-757). */
  function EncodePubKey(c: Codec, k: PubKey): Result<bytes> {
    EncodeKey(c, PublicKeyInfo, PubKeyBytes(k), k.ident)
  }

  /** reop_parsesig (reop.c:819-824). */
  function ParseSig(c: Codec, data: bytes): (r: Result<Sig>)
    ensures r.Ok? ==> ParseKeyData(c, data, SignatureInfo, SigSize)
                      == Ok((SigBytes(r.value), r.value.ident))
  {
    match ParseKeyData(c, data, SignatureInfo, SigSize)
    case Err(e) => Err(e)
    case Ok((b, ident)) =>
      SigBytesOf(b, ident);
      Ok(SigOf(b, ident))
  }

  /** reop_encodesig (reop.c:830-833). */
  function EncodeSig(c: Codec, s: Sig): Result<bytes> {
    EncodeKey(c, SignatureInfo, SigBytes(s), s.ident)
  }

  lemma PubKeyArmorRoundTrip(c: Codec, k: PubKey)
    requires Lawful(c) && IdentOk(k.ident)
    ensures EncodePubKey(c, k).Ok? && ParsePubKey(c, EncodePubKey(c, k).value) == Ok(k)
  {
    ParseEncodeKey(c, PublicKeyInfo, PubKeyBytes(k), k.ident);
    PubKeyRoundTrip(k);
  }

  lemma SigArmorRoundTrip(c: Codec, s: Sig)
    requires Lawful(c) && IdentOk(s.ident)
    ensures EncodeSig(c, s).Ok? && ParseSig(c, EncodeSig(c, s).value) == Ok(s)
  {
    ParseEncodeKey(c, SignatureInfo, SigBytes(s), s.ident);
    SigRoundTrip(s);
  }

  /** The lengths encodekey wraps are clear of the flaw in wraplines. */
  lemma EncodedLengthsWrapSafely(c: Codec, key: bytes)
    requires Lawful(c) && |key| in {PubKeySize, SecKeySize, SigSize}
    ensures |c.encode(key)| % 76 != 0 || |c.encode(key)| < 152
  {
  }
}
