/**
 * Finding keys (reop.c:541-670): `findpubkey` scans the user's public key
 * ring for a key by ident, `reop_getpubkey` picks where a public key comes
 * from, and `reop_getseckey` loads and unlocks a secret key.
 *
 * The file system is an `Env`: the files by name, whether $HOME is set, and
 * whether ~/.reop is a directory. The key ring is given as the lines fgets
 * returns for ~/.reop/pubkeyring (None when that file cannot be opened); it
 * is consulted only when that name can be formed, that is, when $HOME is set
 * and ~/.reop is a directory.
 */
module Keyring {
  import opened Common
  import opened Layout
  import opened Sodium
  import opened Base64
  import opened Armor
  import opened Keys

  datatype Env = Env(files: map<bytes, bytes>, home: Option<CString>, reopDir: bool,
                     keyring: Option<seq<bytes>>)

  /** The size of the path buffers (`char namebuf[1024]`). */
  const PathBuffer: nat := 1024

  /** The default key files in ~/.reop. */
  const PubKeyName: CString := "pubkey"
  const SecKeyName: CString := "seckey"
  const RingName: CString := "pubkeyring"

  /**
   * gethomefile (reop.c:380-392): $HOME/.reop/name, cut to the buffer,
   * provided $HOME is set and ~/.reop is a directory.
   */
  function HomeFile(env: Env, name: bytes): (r: Option<bytes>)
    ensures r.Some? <==> env.home.Some? && env.reopDir
    ensures r.Some? ==> StartsWith(env.home.value + "/.reop/" + name, r.value)
  {
    if env.home.Some? && env.reopDir then Some(Take(env.home.value + "/.reop/" + name, PathBuffer - 1))
    else None
  }

  /** readall: the file's bytes, or nothing when it cannot be opened. */
  function ReadAll(env: Env, name: bytes): (r: Option<bytes>)
    ensures r.Some? <==> name in env.files
  {
    if name in env.files then Some(env.files[name]) else None
  }

  // ---------------------------------------------------------------- findpubkey

  const BeginPubLine: CString := "-----BEGIN REOP PUBLIC KEY-----\n"
  const EndPubLine: CString := "-----END REOP PUBLIC KEY-----\n"

  /** A line the scan skips between keys: it starts with NUL or a newline (an empty buffer holds a NUL). */
  predicate Blank(line: bytes) {
    |line| == 0 || line[0] == '\0' || line[0] == '\n'
  }

  /**
   * `strncmp(line, key, strlen(key)) == 0`: since the marker holds no NUL,
   * the line must start with all of it (see `StartsWithCStr`).
   */
  predicate Marker(line: bytes, key: CString) {
    StartsWith(line, key)
  }

  /** strlcat into `char buf[1024]`. */
  function Append(buf: bytes, line: bytes): (r: bytes)
    ensures |r| <= PathBuffer - 1
  {
    Take(buf + CStr(line), PathBuffer - 1)
  }

  /** The end of a block whose ident is `id`: the key when the idents match, else the next block. */
  function Finish(c: Codec, lines: seq<bytes>, ident: CString, i: nat, id: Ident, buf: bytes): (r: Result<PubKey>)
    requires i <= |lines|
    decreases |lines| - i, 2
  {
    if ident == id then
      match Pton(c, buf, PubKeySize)
      case Some(b) => if |b| == PubKeySize then Ok(PubKeyOf(b, id)) else Err(NoPubKey)
      case None => Err(NoPubKey)
    else Lookup(c, lines, ident, i)
  }

  /** The scan from line i on, between blocks. */
  function Lookup(c: Codec, lines: seq<bytes>, ident: CString, i: nat): (r: Result<PubKey>)
    requires i <= |lines|
    decreases |lines| - i, 1
  {
    if i == |lines| then Err(NoPubKey)
    else if Blank(lines[i]) then Lookup(c, lines, ident, i + 1)
    else if !Marker(lines[i], BeginPubLine) then Err(NoPubKey)
    else IdentLine(c, lines, ident, i + 1)
  }

  /** The scan at the line after a BEGIN line: the ident line. */
  function IdentLine(c: Codec, lines: seq<bytes>, ident: CString, i: nat): (r: Result<PubKey>)
    requires i <= |lines|
    decreases |lines| - i, 0
  {
    if i == |lines| then Err(NoPubKey)
    else
      match ReadIdent(CStr(lines[i]))
      case Err(e) => Err(e)
      case Ok((id, _)) => Body(c, lines, ident, i + 1, id, [])
  }

  /** The scan inside a block, collecting the base64 lines up to the END line. */
  function Body(c: Codec, lines: seq<bytes>, ident: CString, i: nat, id: Ident, buf: bytes): (r: Result<PubKey>)
    requires i <= |lines|
    decreases |lines| - i, 0
  {
    if i == |lines| then Err(NoPubKey)
    else if Marker(lines[i], EndPubLine) then Finish(c, lines, ident, i + 1, id, buf)
    else Body(c, lines, ident, i + 1, id, Append(buf, lines[i]))
  }

  /**
   * findpubkey (reop.c:541-586) over the lines of the key ring: -1 (here
   * NoPubKey) for a line between blocks that is neither blank nor the BEGIN
   * line, for the end of the ring inside a block, for a matching block that
   * does not decode to exactly a public key, and when no block matches. A
   * bad ident line is fatal, as readident is.
   */
  method FindPubKey(c: Codec, lines: seq<bytes>, ident: CString) returns (r: Result<PubKey>)
    ensures r == Lookup(c, lines, ident, 0)
  {
    ghost var target := Lookup(c, lines, ident, 0);
    var i := 0;
    while i < |lines|
      invariant 0 <= i <= |lines|
      invariant target == Lookup(c, lines, ident, i)
      decreases |lines| - i
    {
      var line := lines[i];
      i := i + 1;
      if |line| == 0 || line[0] == '\0' || line[0] == '\n' {
        continue;
      }
      if !Marker(line, BeginPubLine) {
        return Err(NoPubKey);
      }
      var identbuf: Ident, buf: bytes, found: bool;
      r, identbuf, buf, found, i := ReadBlock(c, lines, ident, i);
      if !found {
        return r;
      }
      if ident == identbuf {
        var key := Pton(c, buf, PubKeySize);
        if key.None? || |key.value| != PubKeySize {
          return Err(NoPubKey);
        }
        return Ok(PubKeyOf(key.value, identbuf));
      }
    }
    return Err(NoPubKey);
  }

  /**
   * The inner loop of findpubkey: the ident line, then the lines up to the
   * END line collected with strlcat. `found` is false when the scan stops
   * inside the block, with its result in r. The source's `identline` flag is
   * true only on the loop's first turn, so that turn is written out before the
   * loop over the remaining lines (ReadBody).
   */
  method ReadBlock(c: Codec, lines: seq<bytes>, ident: CString, start: nat)
    returns (r: Result<PubKey>, identbuf: Ident, buf: bytes, found: bool, i: nat)
    requires start <= |lines|
    ensures found ==> (start < i <= |lines|
      && IdentLine(c, lines, ident, start) == Finish(c, lines, ident, i, identbuf, buf))
    ensures !found ==> r == IdentLine(c, lines, ident, start)
  {
    identbuf := [];
    buf := [];
    i := start;
    if i == |lines| {
      ScanEnds(c, lines, ident, identbuf, buf);
      return Err(NoPubKey), identbuf, buf, false, i;
    }
    IdentLineStep(c, lines, ident, i);
    var read := ReadIdent(CStr(lines[i]));
    i := i + 1;
    if read.Err? {
      return Err(read.error), identbuf, buf, false, i;
    }
    identbuf := read.value.0;
    r, buf, found, i := ReadBody(c, lines, ident, i, identbuf);
  }

  /** The lines of a block after its ident line, up to and including the END line. */
  method ReadBody(c: Codec, lines: seq<bytes>, ident: CString, start: nat, identbuf: Ident)
    returns (r: Result<PubKey>, buf: bytes, found: bool, i: nat)
    requires start <= |lines|
    ensures found ==> (start < i <= |lines|
      && Body(c, lines, ident, start, identbuf, []) == Finish(c, lines, ident, i, identbuf, buf))
    ensures !found ==> r == Body(c, lines, ident, start, identbuf, [])
  {
    i := start;
    buf := [];
    while i < |lines|
      invariant start <= i <= |lines|
      invariant Body(c, lines, ident, start, identbuf, []) == Body(c, lines, ident, i, identbuf, buf)
      decreases |lines| - i
    {
      BodyStep(c, lines, ident, i, identbuf, buf);
      var line := lines[i];
      i := i + 1;
      if Marker(line, EndPubLine) {
        return Err(NoPubKey), buf, true, i;
      }
      buf := Append(buf, line);
    }
    ScanEnds(c, lines, ident, identbuf, buf);
    return Err(NoPubKey), buf, false, i;
  }

  /** The end of the lines inside a block: the key is not found. */
  lemma ScanEnds(c: Codec, lines: seq<bytes>, ident: CString, id: Ident, buf: bytes)
    ensures IdentLine(c, lines, ident, |lines|) == Err(NoPubKey)
    ensures Body(c, lines, ident, |lines|, id, buf) == Err(NoPubKey)
  {
  }

  /** One line of the scan at an ident line. */
  lemma IdentLineStep(c: Codec, lines: seq<bytes>, ident: CString, i: nat)
    requires i < |lines|
    ensures ReadIdent(CStr(lines[i])).Err? ==> IdentLine(c, lines, ident, i) == Err(ReadIdent(CStr(lines[i])).error)
    ensures ReadIdent(CStr(lines[i])).Ok? ==>
      IdentLine(c, lines, ident, i) == Body(c, lines, ident, i + 1, ReadIdent(CStr(lines[i])).value.0, [])
  {
  }

  /** One line of the scan inside a block. */
  lemma BodyStep(c: Codec, lines: seq<bytes>, ident: CString, i: nat, id: Ident, buf: bytes)
    requires i < |lines|
    ensures Marker(lines[i], EndPubLine) ==> Body(c, lines, ident, i, id, buf) == Finish(c, lines, ident, i + 1, id, buf)
    ensures !Marker(lines[i], EndPubLine) ==>
      Body(c, lines, ident, i, id, buf) == Body(c, lines, ident, i + 1, id, Append(buf, lines[i]))
  {
  }

  // ------------------------------------------------------ key ring contents

  /** One block of a key ring: blank lines before it, the ident, the lines between. */
  datatype Entry = Entry(blanks: nat, ident: Ident, body: seq<bytes>)

  function BlankLines(n: nat): (r: seq<bytes>)
    ensures |r| == n && forall j :: 0 <= j < n ==> r[j] == "\n"
  {
    seq(n, _ => "\n")
  }

  function EntryLines(e: Entry): (r: seq<bytes>)
    ensures |r| == e.blanks + |e.body| + 3
  {
    BlankLines(e.blanks) + [BeginPubLine, IdentTag + e.ident + "\n"] + e.body + [EndPubLine]
  }

  function Render(es: seq<Entry>): seq<bytes> {
    if |es| == 0 then [] else EntryLines(es[0]) + Render(es[1..])
  }

  /** A body line that is not mistaken for the END line, and a one-word ident. */
  predicate EntryOk(e: Entry) {
    IdentOk(e.ident) && NoEnd(e.body)
  }

  predicate NoEnd(body: seq<bytes>) {
    forall j :: 0 <= j < |body| ==> !Marker(body[j], EndPubLine)
  }

  /** The text strlcat collects from the body lines. */
  function Collect(body: seq<bytes>, buf: bytes): bytes
    decreases |body|
  {
    if |body| == 0 then buf else Collect(body[1..], Append(buf, body[0]))
  }

  /** What a key ring of blocks yields for `ident`: the first block with that ident, decoded. */
  function Expected(c: Codec, es: seq<Entry>, ident: CString): Result<PubKey> {
    if |es| == 0 then Err(NoPubKey)
    else if es[0].ident == ident then
      match Pton(c, Collect(es[0].body, []), PubKeySize)
      case Some(b) => if |b| == PubKeySize then Ok(PubKeyOf(b, es[0].ident)) else Err(NoPubKey)
      case None => Err(NoPubKey)
    else Expected(c, es[1..], ident)
  }

  /** n lone newlines from line i on. */
  predicate Blanks(lines: seq<bytes>, i: nat, n: nat) {
    i + n <= |lines| && forall j :: i <= j < i + n ==> lines[j] == "\n"
  }

  /**
   * What the scan sees of a block from its BEGIN line b on: a BEGIN line,
   * an ident line that reads as the block's ident, the body lines and an
   * END line.
   */
  predicate BlockAt(lines: seq<bytes>, b: nat, e: Entry) {
    && b + |e.body| + 3 <= |lines|
    && !Blank(lines[b]) && Marker(lines[b], BeginPubLine)
    && IdentIs(lines[b + 1], e.ident)
    && BodyAt(lines, b + 2, e.body)
  }

  /** An ident line that readident reads as `id`, with nothing after its newline. */
  predicate IdentIs(line: bytes, id: Ident) {
    ReadIdent(CStr(line)) == Ok((id, []))
  }

  /** The body lines from line i on, then an END line. */
  predicate BodyAt(lines: seq<bytes>, i: nat, body: seq<bytes>) {
    i + |body| < |lines| && lines[i..i + |body|] == body && Marker(lines[i + |body|], EndPubLine)
  }

  /** A block with its blank lines in front, from line i on. */
  predicate EntryAt(lines: seq<bytes>, i: nat, e: Entry) {
    Blanks(lines, i, e.blanks) && BlockAt(lines, i + e.blanks, e)
  }

  /** The scan passes over blank lines (`end` is the line after them). */
  lemma {:induction false} SkipBlanks(c: Codec, lines: seq<bytes>, ident: CString, i: nat, n: nat, end: nat)
    requires Blanks(lines, i, n) && end == i + n
    ensures Lookup(c, lines, ident, i) == Lookup(c, lines, ident, end)
    decreases n
  {
    if n > 0 {
      BlankStep(c, lines, ident, i);
      SkipBlanks(c, lines, ident, i + 1, n - 1, end);
    }
  }

  /** One blank line between blocks. */
  lemma BlankStep(c: Codec, lines: seq<bytes>, ident: CString, i: nat)
    requires i < |lines| && lines[i] == "\n"
    ensures Lookup(c, lines, ident, i) == Lookup(c, lines, ident, i + 1)
  {
    assert lines[i][0] == '\n';
  }

  /** The scan collects the body lines up to the END line (`end` is the line after it). */
  lemma {:induction false} CollectBody(c: Codec, lines: seq<bytes>, ident: CString, i: nat, id: Ident,
                                    buf: bytes, body: seq<bytes>, end: nat)
    requires BodyAt(lines, i, body) && NoEnd(body) && end == i + |body| + 1
    ensures Body(c, lines, ident, i, id, buf) == Finish(c, lines, ident, end, id, Collect(body, buf))
    decreases |body|
  {
    if |body| > 0 {
      assert lines[i] == body[0];
      assert lines[i + 1..i + 1 + |body[1..]|] == body[1..];
      CollectBody(c, lines, ident, i + 1, id, Append(buf, body[0]), body[1..], end);
    }
  }

  /** The BEGIN and ident lines of a block: the scan goes on in its body. */
  lemma HeadStep(c: Codec, lines: seq<bytes>, ident: CString, b: nat, e: Entry)
    requires BlockAt(lines, b, e)
    ensures Lookup(c, lines, ident, b) == Body(c, lines, ident, b + 2, e.ident, [])
  {
  }

  /** The lines of a block, scanned from its BEGIN line. */
  lemma ScanBlock(c: Codec, lines: seq<bytes>, ident: CString, b: nat, e: Entry, end: nat)
    requires EntryOk(e) && BlockAt(lines, b, e) && end == b + |e.body| + 3
    ensures Lookup(c, lines, ident, b) == Finish(c, lines, ident, end, e.ident, Collect(e.body, []))
  {
    HeadStep(c, lines, ident, b, e);
    CollectBody(c, lines, ident, b + 2, e.ident, [], e.body, end);
  }

  /** The lines of one block, scanned from its first blank line. */
  lemma ScanEntry(c: Codec, lines: seq<bytes>, ident: CString, i: nat, e: Entry, end: nat)
    requires EntryOk(e) && EntryAt(lines, i, e) && end == i + e.blanks + |e.body| + 3
    ensures Lookup(c, lines, ident, i) == Finish(c, lines, ident, end, e.ident, Collect(e.body, []))
  {
    var b := i + e.blanks;
    assert Blanks(lines, i, e.blanks) && BlockAt(lines, b, e);
    SkipBlanks(c, lines, ident, i, e.blanks, b);
    ScanBlock(c, lines, ident, b, e, end);
  }

  /** The ident line reop writes for a block reads back as its ident. */
  lemma IdentLineOf(id: Ident)
    requires IdentOk(id)
    ensures ReadIdent(CStr(IdentTag + id + "\n")) == Ok((id, []))
  {
    ReadIdentWord(id, []);
    var l := IdentTag + id + "\n";
    assert l + [] == l;
    IdentLineIsCString(id, []);
    CStrOfCString(l);
  }

  /** The lines of a block as reop writes them are seen as that block. */
  lemma BlockLaidOut(lines: seq<bytes>, b: nat, e: Entry)
    requires IdentOk(e.ident) && b + |e.body| + 3 <= |lines|
    requires lines[b] == BeginPubLine && lines[b + 1] == IdentTag + e.ident + "\n"
    requires lines[b + 2..b + 2 + |e.body|] == e.body && lines[b + 2 + |e.body|] == EndPubLine
    ensures BlockAt(lines, b, e)
  {
    assert lines[b][0] == '-';
    IdentLineOf(e.ident);
  }

  /** The lines EntryLines lays out, one by one. */
  lemma EntryLayout(lines: seq<bytes>, i: nat, e: Entry, next: nat)
    requires IdentOk(e.ident) && next == i + e.blanks + |e.body| + 3
    requires next <= |lines| && lines[i..next] == EntryLines(e)
    ensures EntryAt(lines, i, e)
  {
    var el := EntryLines(e);
    var b := i + e.blanks;
    forall j | i <= j < b ensures lines[j] == "\n" {
      assert lines[j] == el[j - i];
    }
    assert lines[b] == el[e.blanks];
    assert lines[b + 1] == el[e.blanks + 1];
    assert lines[b + 2..b + 2 + |e.body|] == e.body by {
      forall j | 0 <= j < |e.body| ensures lines[b + 2 + j] == e.body[j] {
        assert lines[b + 2 + j] == el[e.blanks + 2 + j];
      }
    }
    assert lines[b + 2 + |e.body|] == el[|el| - 1];
    BlockLaidOut(lines, b, e);
  }

  /** The lines of a rendered ring: the first block's, then the rest. */
  lemma RenderHead(lines: seq<bytes>, i: nat, es: seq<Entry>, next: nat)
    requires |es| > 0 && i <= |lines| && lines[i..] == Render(es)
    requires next == i + es[0].blanks + |es[0].body| + 3
    ensures next <= |lines| && lines[i..next] == EntryLines(es[0]) && lines[next..] == Render(es[1..])
  {
    assert Render(es) == EntryLines(es[0]) + Render(es[1..]);
    SplitAt(lines, i, next, EntryLines(es[0]), Render(es[1..]));
  }

  /** A suffix that is a concatenation splits where its first part ends. */
  lemma SplitAt<T>(s: seq<T>, i: nat, next: nat, a: seq<T>, b: seq<T>)
    requires i <= |s| && s[i..] == a + b && next == i + |a|
    ensures next <= |s| && s[i..next] == a && s[next..] == b
  {
    assert s[i..next] == s[i..][..|a|];
    assert s[next..] == s[i..][|a|..];
  }

  /** Every block of a ring is well formed. */
  predicate RingOk(es: seq<Entry>) {
    forall k :: 0 <= k < |es| ==> EntryOk(es[k])
  }

  lemma RingOkTail(es: seq<Entry>)
    requires |es| > 0 && RingOk(es)
    ensures EntryOk(es[0]) && RingOk(es[1..])
  {
    forall k | 0 <= k < |es[1..]| ensures EntryOk(es[1..][k]) {
      assert es[1..][k] == es[k + 1];
    }
  }

  /** The scan over the first block of a rendered ring, and the ring after it. */
  lemma FirstBlock(c: Codec, lines: seq<bytes>, ident: CString, i: nat, es: seq<Entry>, next: nat)
    requires |es| > 0 && RingOk(es) && i <= |lines| && lines[i..] == Render(es)
    requires next == i + es[0].blanks + |es[0].body| + 3
    ensures next <= |lines| && lines[next..] == Render(es[1..]) && RingOk(es[1..])
    ensures Lookup(c, lines, ident, i) == Finish(c, lines, ident, next, es[0].ident, Collect(es[0].body, []))
  {
    RenderHead(lines, i, es, next);
    RingOkTail(es);
    EntryLayout(lines, i, es[0], next);
    ScanEntry(c, lines, ident, i, es[0], next);
  }

  /** The end of the first block gives what the whole ring is expected to give. */
  lemma FinishExpected(c: Codec, lines: seq<bytes>, ident: CString, n: nat, es: seq<Entry>)
    requires |es| > 0 && n <= |lines|
    requires Lookup(c, lines, ident, n) == Expected(c, es[1..], ident)
    ensures Finish(c, lines, ident, n, es[0].ident, Collect(es[0].body, [])) == Expected(c, es, ident)
  {
  }

  /**
   * findpubkey on a key ring of well-formed blocks returns the first block
   * whose ident is the one asked for, skipping the blank lines between
   * blocks; it fails when that block does not decode to a public key or
   * when no block has the ident.
   */
  lemma {:induction false} LookupRing(c: Codec, lines: seq<bytes>, ident: CString, i: nat, es: seq<Entry>)
    requires RingOk(es) && i <= |lines| && lines[i..] == Render(es)
    ensures Lookup(c, lines, ident, i) == Expected(c, es, ident)
    decreases |es|
  {
    if |es| > 0 {
      var next := i + es[0].blanks + |es[0].body| + 3;
      FirstBlock(c, lines, ident, i, es, next);
      LookupRing(c, lines, ident, next, es[1..]);
      FinishExpected(c, lines, ident, next, es);
    } else {
      assert i == |lines|;
    }
  }

  /** The same, for a key ring file that holds exactly the blocks. */
  lemma FindInRing(c: Codec, es: seq<Entry>, ident: CString)
    requires RingOk(es)
    ensures Lookup(c, Render(es), ident, 0) == Expected(c, es, ident)
  {
    var lines := Render(es);
    assert lines[0..] == lines;
    LookupRing(c, lines, ident, 0, es);
  }

  /** The key ring ends inside a block: no END line follows the BEGIN line. */
  lemma {:induction false} EndOfRingInBlock(c: Codec, lines: seq<bytes>, ident: CString, i: nat, id: Ident, buf: bytes)
    requires i <= |lines|
    requires forall j :: i <= j < |lines| ==> !Marker(lines[j], EndPubLine)
    ensures Body(c, lines, ident, i, id, buf) == Err(NoPubKey)
    decreases |lines| - i
  {
    if i < |lines| {
      EndOfRingInBlock(c, lines, ident, i + 1, id, Append(buf, lines[i]));
    }
  }

  /** A stray line between blocks ends the scan with -1, whatever follows. */
  lemma StrayLine(c: Codec, lines: seq<bytes>, ident: CString, i: nat)
    requires i < |lines| && !Blank(lines[i]) && !Marker(lines[i], BeginPubLine)
    ensures Lookup(c, lines, ident, i) == Err(NoPubKey)
  {
  }

  // ------------------------------------------------------------ getting keys

  /**
   * reop_getpubkey (reop.c:594-625): an explicit file first; with no file
   * but an ident, only the key ring is searched, and findpubkey gives up
   * when gethomefile cannot name the ring (reop.c:549-550); otherwise the
   * default ~/.reop/pubkey. A key that cannot be found is NULL (here
   * NoPubKey); malformed key data is fatal inside parsekeydata.
   */
  function GetPubKey(c: Codec, env: Env, pubkeyfile: Option<CString>, ident: Option<CString>): (r: Result<PubKey>)
    ensures pubkeyfile.None? && ident.Some? && (HomeFile(env, RingName).None? || env.keyring.None?) ==>
              r == Err(NoPubKey)
    ensures pubkeyfile.None? && ident.Some? && HomeFile(env, RingName).Some? && env.keyring.Some? ==>
              r == Lookup(c, env.keyring.value, ident.value, 0)
    ensures pubkeyfile.None? && ident.None? && HomeFile(env, PubKeyName).None? ==> r == Err(NoPubKey)
  {
    if pubkeyfile.None? && ident.Some? then
      if HomeFile(env, RingName).None? then Err(NoPubKey)
      else
        match env.keyring
        case None => Err(NoPubKey)
        case Some(lines) => Lookup(c, lines, ident.value, 0)
    else
      var file := if pubkeyfile.Some? then pubkeyfile else HomeFile(env, PubKeyName);
      match file
      case None => Err(NoPubKey)
      case Some(name) =>
        match ReadAll(env, name)
        case None => Err(NoPubKey)
        case Some(data) => ParsePubKey(c, data)
  }

  /**
   * The order of the sources: an explicit file decides alone (the ident and
   * the key ring do not matter); an ident without a file consults only the
   * key ring (the key files do not matter), and finds nothing without $HOME
   * or ~/.reop; with neither, the default file.
   */
  lemma GetPubKeyPrecedence(c: Codec, env: Env, env2: Env, file: CString, ident: CString, ident2: Option<CString>)
    requires env2.files == env.files
    ensures GetPubKey(c, env, Some(file), Some(ident)) == GetPubKey(c, env2.(keyring := None), Some(file), ident2)
    ensures GetPubKey(c, env, None, Some(ident)) == GetPubKey(c, env.(files := map[]), None, Some(ident))
    ensures env.home.None? || !env.reopDir ==> GetPubKey(c, env, None, Some(ident)) == Err(NoPubKey)
    ensures env.home.Some? && env.reopDir ==>
      GetPubKey(c, env, None, None) == GetPubKey(c, env.(keyring := None), Some(HomeFile(env, PubKeyName).value), None)
  {
  }

  /**
   * reop_getseckey (reop.c:641-670): the file given or ~/.reop/seckey,
   * parsed and decrypted; a missing file or a key that does not decrypt is
   * NULL (here NoSecKey), while malformed key data and a failing kdf are
   * fatal.
   */
  function GetSecKey(c: Codec, p: Primitives, env: Env, seckeyfile: Option<CString>,
                     password: Option<CString>, prompt: CString): (r: Result<SecKey>)
    ensures r.Err? ==> r.error in {NoSecKey, BcryptFailed, InvalidKeyData, NoIdentFound, InvalidHeader, InvalidB64}
    ensures seckeyfile.None? && HomeFile(env, SecKeyName).None? ==> r == Err(NoSecKey)
  {
    var file := if seckeyfile.Some? then seckeyfile else HomeFile(env, SecKeyName);
    match file
    case None => Err(NoSecKey)
    case Some(name) =>
      match ReadAll(env, name)
      case None => Err(NoSecKey)
      case Some(data) =>
        match ParseKeyData(c, data, SecretKeyInfo, SecKeySize)
        case Err(e) => Err(e)
        case Ok((b, ident)) =>
          match DecryptSecKey(p, SecKeyOf(b, ident), password, prompt)
          case Err(BcryptFailed) => Err(BcryptFailed)
          case Err(_) => Err(NoSecKey)
          case Ok(k) => Ok(k)
  }
}
