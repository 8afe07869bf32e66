/**
 * Byte strings as reop.c sees them. C makes no difference between `char` and
 * `uint8_t`, so both are modelled by `byte`, a character below 256; a key file,
 * an ident and a ciphertext are all `bytes`. Where the code hands a buffer to a
 * string routine (strlen, strstr, strchr, sscanf, strncmp) the model reads the
 * buffer through `CStr`, which stops at the first NUL as those routines do.
 */
module Common {

  type byte = c: char | c as int < 256
  type bytes = seq<byte>

  /** An argument that is a C string by construction (it cannot hold a NUL). */
  type CString = s: bytes | '\0' !in s

  datatype Option<T> = None | Some(value: T)

  /** The fatal outcomes of reop.c: each is one `errx`/`err` message (or a NULL
      return that the caller turns into one). */
  datatype Error =
    | InvalidKeyData          // parsekeydata: "invalid key data"
    | NoIdentFound            // readident: "no ident found"
    | InvalidHeader           // readident: "invalid header"
    | InvalidB64              // parsekeydata: "invalid b64 encoding"
    | B64EncodeFailed         // "b64 encode failed"
    | BcryptFailed            // kdf: "bcrypt pbkdf"
    | NoPubKey                // "no pubkey"
    | NoSecKey                // "no seckey"
    | InvalidSignature        // verifyembedded: "invalid signature"
    | WrongKey                // "verification failed: checked against wrong key"
    | SignatureFailed         // "signature verification failed"
    | InvalidEncryptedMessage // decrypt: "invalid encrypted message"
    | KeyMismatch             // decrypt: "key mismatch"
    | UnsupportedKeyFormat    // "unsupported key format"
    | SymDecryptionFailed     // "sym decryption failed"
    | PubDecryptionFailed     // "pub decryption failed"
    | SecKeyKdfAlg            // decryptseckey returns -2: the kdfalg is not "BK"
    | SecKeyOpenFailed        // decryptseckey returns -1: the key does not decrypt
    | CouldNotOpen            // readallorfail: "could not open"
    | CouldNotRead            // readsigfile: "could not read"
    | CantOpenForWriting      // xopenorfail: "can't open ... for writing"
    | NoSecKeyFile            // generate: "no seckeyfile"
    | NoPubKeyFile            // generate: "no pubkeyfile"
    | CantFindHome            // main: "can't find HOME"
    | PathTooLong             // main: "path too long"
    | Usage                   // usage(): the usage message and exit status 1
    | ArgumentError           // python/main.py's argument parser: usage message and exit status 2

  datatype Result<T> = Ok(value: T) | Err(error: Error)

  function Zeros(n: nat): (r: bytes)
    ensures |r| == n && forall i :: 0 <= i < n ==> r[i] == '\0'
  {
    seq(n, _ => '\0')
  }

  /** strlen: the index of the first NUL, or the whole length if there is none. */
  function CLen(s: bytes): (n: nat)
    ensures n <= |s|
    ensures forall i :: 0 <= i < n ==> s[i] != '\0'
    ensures n < |s| ==> s[n] == '\0'
  {
    if |s| == 0 || s[0] == '\0' then 0 else 1 + CLen(s[1..])
  }

  /** The C string that starts at the beginning of a buffer. */
  function CStr(s: bytes): (r: CString)
    ensures StartsWith(s, r) && '\0' !in r
    ensures |r| < |s| ==> s[|r|] == '\0'
  {
    s[..CLen(s)]
  }

  /** The string ends at the first NUL. */
  lemma CLenAt(s: bytes, n: nat)
    requires n < |s| && s[n] == '\0' && forall i :: 0 <= i < n ==> s[i] != '\0'
    ensures CLen(s) == n
  {
  }

  lemma CStrOfCString(s: bytes)
    requires '\0' !in s
    ensures CStr(s) == s
  {
    assert forall i :: 0 <= i < |s| ==> s[i] != '\0';
  }

  /** strlen of a C string taken from a buffer is its whole length. */
  lemma CStrOfCStr(s: bytes)
    ensures CStr(CStr(s)) == CStr(s)
  {
    CStrOfCString(CStr(s));
  }

  predicate StartsWith(s: bytes, p: bytes) {
    |p| <= |s| && s[..|p|] == p
  }

  /**
   * strncmp(s, p, strlen(p)) == 0 for a pattern without NUL: comparing up to
   * a NUL in s is the same as comparing the whole buffer, because the pattern
   * has no NUL to match it.
   */
  lemma StartsWithCStr(s: bytes, p: CString)
    ensures StartsWith(CStr(s), p) <==> StartsWith(s, p)
  {
    if StartsWith(s, p) {
      assert forall i :: 0 <= i < |p| ==> s[i] == p[i];
      assert CLen(s) >= |p|;
      assert CStr(s)[..|p|] == s[..|p|];
    }
  }

  predicate OccursAt(s: bytes, p: bytes, i: nat) {
    i + |p| <= |s| && s[i..i + |p|] == p
  }

  /** strstr started at index i: the first position at or after i where p occurs. */
  function FindFrom(s: bytes, p: bytes, i: nat): (r: Option<nat>)
    requires i <= |s|
    decreases |s| - i
    ensures r.Some? ==> i <= r.value && OccursAt(s, p, r.value)
    ensures r.Some? ==> forall j :: i <= j < r.value ==> !OccursAt(s, p, j)
    ensures r.None? ==> forall j :: i <= j <= |s| ==> !OccursAt(s, p, j)
  {
    if OccursAt(s, p, i) then Some(i)
    else if i == |s| then None
    else FindFrom(s, p, i + 1)
  }

  /** strstr (and strchr, for a one-byte pattern). */
  function Find(s: bytes, p: bytes): Option<nat> {
    FindFrom(s, p, 0)
  }

  /** A first occurrence is what `Find` returns. */
  lemma FindFirst(s: bytes, p: bytes, q: nat)
    requires OccursAt(s, p, q)
    requires forall j :: 0 <= j < q ==> !OccursAt(s, p, j)
    ensures Find(s, p) == Some(q)
  {
  }

  /** A first occurrence at or after i is what `FindFrom` returns. */
  lemma FindFromFirst(s: bytes, p: bytes, i: nat, q: nat)
    requires i <= q && OccursAt(s, p, q)
    requires forall j :: i <= j < q ==> !OccursAt(s, p, j)
    ensures FindFrom(s, p, i) == Some(q)
  {
  }

  /** A one-byte pattern occurs exactly where that byte is. */
  lemma OccursAtByte(s: bytes, c: byte, j: nat)
    ensures OccursAt(s, [c], j) <==> j < |s| && s[j] == c
  {
    if j < |s| && s[j] == c {
      assert s[j..j + 1] == [c];
    }
  }

  /** isspace() in the C locale. */
  predicate IsSpace(c: byte) {
    c == ' ' || c == '\t' || c == '\n' || c as int == 0x0b || c as int == 0x0c || c == '\r'
  }

  predicate NoSpace(s: bytes) {
    forall i :: 0 <= i < |s| ==> !IsSpace(s[i])
  }

  /** The bytes of s with every whitespace byte removed. */
  function DropSpace(s: bytes): (r: bytes)
    ensures NoSpace(r) && |r| <= |s|
  {
    if |s| == 0 then []
    else if IsSpace(s[0]) then DropSpace(s[1..])
    else [s[0]] + DropSpace(s[1..])
  }

  lemma {:induction false} DropSpaceAppend(a: bytes, b: bytes)
    ensures DropSpace(a + b) == DropSpace(a) + DropSpace(b)
  {
    if |a| == 0 {
      assert a + b == b;
    } else {
      assert (a + b)[1..] == a[1..] + b;
      DropSpaceAppend(a[1..], b);
    }
  }

  lemma {:induction false} DropSpaceOfNoSpace(s: bytes)
    requires NoSpace(s)
    ensures DropSpace(s) == s
  {
    if |s| > 0 {
      DropSpaceOfNoSpace(s[1..]);
    }
  }

  /** strlcpy/snprintf into a buffer of `size` bytes keeps at most size - 1 bytes. */
  function Take(s: bytes, n: nat): (r: bytes)
    ensures |r| <= n && StartsWith(s, r)
    ensures |s| <= n ==> r == s
    ensures |s| > n ==> |r| == n
  {
    if |s| <= n then s else s[..n]
  }

  const Two32: nat := 0x1_0000_0000

  /** htonl: a 32-bit value as four big-endian bytes. */
  function BE32(n: nat): (r: bytes)
    requires n < Two32
    ensures |r| == 4
  {
    [(n / 0x100_0000) as char, ((n / 0x1_0000) % 0x100) as char,
     ((n / 0x100) % 0x100) as char, (n % 0x100) as char]
  }

  /** ntohl on four stored bytes. */
  function ReadBE32(b: bytes): (n: nat)
    requires |b| == 4
    ensures n < Two32
  {
    (b[0] as int) * 0x100_0000 + (b[1] as int) * 0x1_0000 + (b[2] as int) * 0x100 + (b[3] as int)
  }

  lemma BE32RoundTrip(n: nat)
    requires n < Two32
    ensures ReadBE32(BE32(n)) == n
  {
    var b := BE32(n);
    var q1, q2, q3 := n / 0x100, n / 0x1_0000, n / 0x100_0000;
    assert q2 == q1 / 0x100 && q3 == q2 / 0x100;
    assert b[0] as int == q3 && b[1] as int == q2 % 0x100;
    assert b[2] as int == q1 % 0x100 && b[3] as int == n % 0x100;
    assert n == q1 * 0x100 + n % 0x100;
    assert q1 == q2 * 0x100 + q1 % 0x100;
    assert q2 == q3 * 0x100 + q2 % 0x100;
  }
}
