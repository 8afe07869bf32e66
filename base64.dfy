/**
 * The base64 codec behind reopb64_ntop/reopb64_pton. Its source is not part of
 * this model, so the codec is a pair of function values, and the properties
 * that reop.c relies on are collected in `Lawful`: decoding inverts encoding,
 * the encoding uses only the base64 alphabet, and it is 4 characters for every
 * 3 bytes or part thereof.
 */
module Base64 {
  import opened Common

  datatype Codec = Codec(encode: bytes -> bytes, decode: bytes -> Option<bytes>)

  predicate InAlphabet(c: byte) {
    ('A' <= c <= 'Z') || ('a' <= c <= 'z') || ('0' <= c <= '9') || c == '+' || c == '/' || c == '='
  }

  ghost predicate Lawful(c: Codec) {
    (forall b :: c.decode(c.encode(b)) == Some(b))
    && (forall b :: |c.encode(b)| == (|b| + 2) / 3 * 4)
    && (forall b, i :: 0 <= i < |c.encode(b)| ==> InAlphabet(c.encode(b)[i]))
  }

  /** No byte of the string is one that matters to the text framing of reop.c. */
  predicate Plain(s: bytes) {
    forall i :: 0 <= i < |s| ==> s[i] != '\0' && s[i] != ' ' && s[i] != '-' && !IsSpace(s[i])
  }

  lemma EncodingIsPlain(c: Codec, b: bytes)
    requires Lawful(c)
    ensures Plain(c.encode(b)) && NoSpace(c.encode(b))
  {
    var e := c.encode(b);
    forall i | 0 <= i < |e|
      ensures e[i] != '\0' && e[i] != ' ' && e[i] != '-' && !IsSpace(e[i])
    {
      assert InAlphabet(e[i]);
    }
  }

  /**
   * reopb64_ntop(src, srclen, target, targsize): the encoding when it fits in
   * the target together with its terminating NUL, and -1 otherwise.
   */
  function Ntop(c: Codec, b: bytes, targsize: nat): (r: Option<bytes>)
    ensures r.Some? <==> |c.encode(b)| < targsize
    ensures r.Some? ==> r.value == c.encode(b)
  {
    if |c.encode(b)| < targsize then Some(c.encode(b)) else None
  }

  /**
   * reopb64_pton(src, target, targsize) reads `src` as a C string, skips white
   * space, and fails (-1) on malformed input or when the result would not fit
   * in `targsize` bytes.
   */
  function Pton(c: Codec, src: bytes, targsize: nat): (r: Option<bytes>)
    ensures r.Some? ==> |r.value| <= targsize && c.decode(DropSpace(CStr(src))) == r
    ensures r.None? ==> c.decode(DropSpace(CStr(src))).None?
                        || |c.decode(DropSpace(CStr(src))).value| > targsize
  {
    match c.decode(DropSpace(CStr(src)))
    case None => None
    case Some(d) => if |d| <= targsize then Some(d) else None
  }

  /** Text made of an encoding and white space decodes back to the encoded bytes. */
  lemma PtonOfSpaced(c: Codec, b: bytes, text: bytes, targsize: nat)
    requires Lawful(c)
    requires '\0' !in text && DropSpace(text) == c.encode(b)
    requires |b| <= targsize
    ensures Pton(c, text, targsize) == Some(b)
  {
    CStrOfCString(text);
  }

  lemma NtopFits(c: Codec, b: bytes, targsize: nat)
    requires Lawful(c)
    requires (|b| + 2) / 3 * 4 < targsize
    ensures Ntop(c, b, targsize) == Some(c.encode(b))
  {
  }
}
