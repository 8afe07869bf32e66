/**
 * The two ways reop.c breaks base64 text into 76-character lines:
 * `wraplines` (reop.c:360-373) inserts newlines into a NUL-terminated buffer in
 * place, and `writeb64data` (reop.c:1042-1053) writes a string as 76-character
 * chunks, each followed by a newline.
 */
module Wrap {
  import opened Common

  const Width: nat := 76

  /** size_t arithmetic: values below 2^64. */
  const SizeMax: nat := 0x1_0000_0000_0000_0000

  /** The largest buffer a process can hold (48-bit user address space). */
  const MaxBuffer: nat := 0x1_0000_0000_0000

  // ------------------------------------------------------------ the wrapped text

  /** s with a newline after every 76 characters that are followed by more. */
  function Wrapped(s: bytes): (r: bytes)
    ensures |s| > 0 ==> |r| == |s| + (|s| - 1) / 76
    ensures |s| <= 76 ==> r == s
  {
    if |s| <= 76 then s else s[..76] + "\n" + Wrapped(s[76..])
  }

  lemma DivMod77(j: nat, k: nat)
    requires 77 * k <= j < 77 * k + 77
    ensures j / 77 == k && j % 77 == j - 77 * k
  {
  }

  /**
   * Position j of the wrapped text: a newline at every 77th position, and
   * otherwise the original character, shifted by the newlines before it. So
   * every line but the last holds exactly 76 characters.
   */
  lemma {:induction false} WrappedAt(s: bytes, j: nat)
    requires j < |Wrapped(s)|
    ensures j % 77 == 76 ==> Wrapped(s)[j] == '\n'
    ensures j % 77 != 76 ==> j - j / 77 < |s| && Wrapped(s)[j] == s[j - j / 77]
  {
    if |s| > 76 && j >= 77 {
      var t := s[76..];
      WrappedAt(t, j - 77);
      assert (j - 77) / 77 == j / 77 - 1 && (j - 77) % 77 == j % 77;
    }
  }

  /** Removing the white space of the wrapped text removes exactly what was inserted. */
  lemma {:induction false} DropSpaceWrapped(s: bytes)
    ensures DropSpace(Wrapped(s)) == DropSpace(s)
  {
    if |s| > 76 {
      DropSpaceWrapped(s[76..]);
      DropSpaceAppend(s[..76] + "\n", Wrapped(s[76..]));
      DropSpaceAppend(s[..76], "\n");
      DropSpaceAppend(s[..76], s[76..]);
      assert s[..76] + s[76..] == s;
    }
  }

  function CountNewlines(s: bytes): (n: nat)
    ensures n <= |s|
  {
    if |s| == 0 then 0 else (if s[0] == '\n' then 1 else 0) + CountNewlines(s[1..])
  }

  lemma {:induction false} CountNewlinesAppend(a: bytes, b: bytes)
    ensures CountNewlines(a + b) == CountNewlines(a) + CountNewlines(b)
  {
    if |a| == 0 {
      assert a + b == b;
    } else {
      assert (a + b)[1..] == a[1..] + b;
      CountNewlinesAppend(a[1..], b);
    }
  }

  /** Wrapping a non-empty string inserts exactly (|s| - 1) / 76 newlines. */
  lemma {:induction false} WrappedNewlines(s: bytes)
    requires |s| > 0
    ensures CountNewlines(Wrapped(s)) == CountNewlines(s) + (|s| - 1) / 76
  {
    if |s| > 76 {
      WrappedNewlines(s[76..]);
      CountNewlinesAppend(s[..76] + "\n", Wrapped(s[76..]));
      CountNewlinesAppend(s[..76], "\n");
      CountNewlinesAppend(s[..76], s[76..]);
      assert s[..76] + s[76..] == s;
    }
  }

  // ---------------------------------------------------------------- wraplines

  /** `num` in wraplines: (len - 1) / 76 computed in size_t, so 0 wraps around. */
  function Breaks(len: nat): nat {
    if len == 0 then (SizeMax - 1) / 76 else (len - 1) / 76
  }

  /** The capacity test of wraplines: the wrapped string and its NUL fit in `space`. */
  predicate Fits(len: nat, space: nat) {
    len + Breaks(len) + 1 <= space
  }

  /** What the wrapped buffer holds after the call, as the function is evidently meant to work. */
  function WrapOutcome(buf: bytes, space: nat): (r: bytes)
    requires CLen(buf) < |buf| && space <= |buf| <= MaxBuffer
    ensures |r| == |buf|
    ensures !Fits(CLen(buf), space) ==> r == buf
    ensures Fits(CLen(buf), space) ==>
      var e := CLen(buf) + Breaks(CLen(buf));
      r[..e] == Wrapped(CStr(buf)) && r[e] == '\0' && r[e + 1..] == buf[e + 1..]
  {
    var s := CStr(buf);
    if !Fits(|s|, space) then buf
    else Wrapped(s) + ['\0'] + buf[|s| + Breaks(|s|) + 1..]
  }

  /**
   * What the buffer holds after wraplines as written: when the length is a
   * multiple of 76 (and there is a newline to insert) the final move stops one
   * byte short and the terminating NUL is not carried along.
   */
  function WrapOutcomeAsWritten(buf: bytes, space: nat): (r: bytes)
    requires CLen(buf) < |buf| && space <= |buf| <= MaxBuffer
    ensures |r| == |buf|
    ensures !Fits(CLen(buf), space) ==> r == buf
    ensures Fits(CLen(buf), space) ==>
      var e := CLen(buf) + Breaks(CLen(buf));
      r[..e] == Wrapped(CStr(buf)) && r[e + 1..] == buf[e + 1..]
  {
    var s := CStr(buf);
    var n := Breaks(|s|);
    if !Fits(|s|, space) then buf
    else if |s| % 76 == 0 && |s| >= 152 then Wrapped(s) + buf[|s| + n..]
    else Wrapped(s) + ['\0'] + buf[|s| + n + 1..]
  }

  /** memmove(a + dst, a + src, n). */
  method MemMove(a: array<byte>, dst: nat, src: nat, n: nat)
    requires dst + n <= a.Length && src + n <= a.Length
    modifies a
    ensures forall j :: 0 <= j < a.Length ==>
      a[j] == (if dst <= j < dst + n then old(a[j - dst + src]) else old(a[j]))
  {
    forall j | dst <= j < dst + n {
      a[j] := a[j - dst + src];
    }
  }

  /**
   * The loop invariant shared by both versions of wraplines, for the state
   * at the top of the loop with `num == k`: the bytes in front of the part
   * moved so far are untouched, the part from 77k + 76 up to the new
   * terminator position e is already the wrapped text, and the bytes after e
   * are untouched. `term` is what position e holds once it has been written.
   */
  ghost predicate WrapInv(a: seq<byte>, o: seq<byte>, w: bytes, e: nat, n: nat, k: nat, term: byte)
    requires |a| == |o| && e < |a| && |w| == e
  {
    && (forall j :: 0 <= j < 77 * k + 76 && j < |a| ==> a[j] == o[j])
    && (forall j :: 77 * k + 76 <= j < e ==> a[j] == w[j])
    && (k < n ==> a[e] == term)
    && (forall j :: e < j < |a| ==> a[j] == o[j])
  }

  /** num = (len - 1) / 76 as two linear bounds, and what they say about the moves. */
  lemma MoveSizes(len: nat, n: nat)
    requires len > 0 && n == (len - 1) / 76
    ensures 76 * n < len <= 76 * n + 76
    ensures len == 76 * n + 76 <==> len % 76 == 0
  {
  }

  /** wraplines with the final move carried up to and including the NUL. */
  method WrapLines(a: array<byte>, space: nat)
    requires CLen(a[..]) < a.Length && space <= a.Length <= MaxBuffer
    modifies a
    ensures a[..] == WrapOutcome(old(a[..]), space)
  {
    var len := CLen(a[..]);
    var num := if len == 0 then (SizeMax - 1) / 76 else (len - 1) / 76;
    if len + num + 1 > space {
      return;
    }
    ghost var o := a[..];
    ghost var s := CStr(o);
    ghost var w := Wrapped(s);
    ghost var n := num;
    MoveSizes(len, n);
    while num > 0
      invariant 0 <= num <= n
      invariant WrapInv(a[..], o, w, len + n, n, num, '\0')
      invariant num == n ==> a[..] == o
      decreases num
    {
      var pos := 76 * num - 1;
      var amt := if len - pos <= 77 then len - pos else 76;
      WrapStep(a, o, s, w, n, num, pos, amt + 1, '\0');
      num := num - 1;
    }
    WrapDone(a[..], o, s, w, n, '\0');
  }

  /** wraplines as written (reop.c:366-372): the move is capped at 76 + 1 bytes. */
  method WrapLinesAsWritten(a: array<byte>, space: nat)
    requires CLen(a[..]) < a.Length && space <= a.Length <= MaxBuffer
    modifies a
    ensures a[..] == WrapOutcomeAsWritten(old(a[..]), space)
  {
    var len := CLen(a[..]);
    var num := if len == 0 then (SizeMax - 1) / 76 else (len - 1) / 76;
    if len + num + 1 > space {
      return;
    }
    ghost var o := a[..];
    ghost var s := CStr(o);
    ghost var w := Wrapped(s);
    ghost var n := num;
    MoveSizes(len, n);
    ghost var bug := len % 76 == 0 && len >= 152;
    ghost var term: byte := if bug then o[len + n] else '\0';
    while num > 0
      invariant 0 <= num <= n
      invariant WrapInv(a[..], o, w, len + n, n, num, term)
      invariant num == n ==> a[..] == o
      decreases num
    {
      var pos := 76 * num - 1;
      var amt := if len - pos < 76 then len - pos else 76;
      WrapStep(a, o, s, w, n, num, pos, amt + 1, term);
      num := num - 1;
    }
    WrapDone(a[..], o, s, w, n, term);
    AsWrittenFinal(a[..], o, space, s, n, term);
  }

  /** The buffer after the loop of wraplines as written is the as-written outcome. */
  lemma AsWrittenFinal(a: seq<byte>, o: seq<byte>, space: nat, s: bytes, n: nat, term: byte)
    requires CLen(o) < |o| && space <= |o| <= MaxBuffer && s == CStr(o)
    requires |s| > 0 && n == (|s| - 1) / 76 && |s| + n + 1 <= space
    requires term == if |s| % 76 == 0 && |s| >= 152 then o[|s| + n] else '\0'
    requires a == Wrapped(s) + [term] + o[|s| + n + 1..]
    ensures a == WrapOutcomeAsWritten(o, space)
  {
    assert Breaks(|s|) == n;
    if |s| % 76 == 0 && |s| >= 152 {
      Joined(Wrapped(s), o, |s| + n);
    }
  }

  /** A prefix, then the element at e, then the rest, is the prefix and the suffix from e. */
  lemma Joined<T>(w: seq<T>, o: seq<T>, e: nat)
    requires e < |o|
    ensures w + [o[e]] + o[e + 1..] == w + o[e..]
  {
    assert o[e..] == [o[e]] + o[e + 1..];
  }

  /**
   * One iteration of the wraplines loop: move m bytes from pos up by num and
   * put a newline in the gap. Interior moves carry 77 bytes; the last one
   * carries the rest of the string with its NUL, or (as written, for a
   * length that is a multiple of 76) one byte less, and `term` says what it
   * leaves at the terminator position.
   */
  method WrapStep(a: array<byte>, ghost o: seq<byte>, ghost s: bytes, ghost w: bytes,
                  ghost n: nat, num: nat, pos: nat, m: nat, ghost term: byte)
    requires |o| == a.Length && CLen(o) < |o| && s == CStr(o) && w == Wrapped(s)
    requires 76 * n < |s| <= 76 * n + 76 && |w| == |s| + n && |s| + n < |o|
    requires 0 < num <= n && pos == 76 * num - 1
    requires num < n ==> m == 77 && |s| - pos >= 78
    requires num == n ==> (m == |s| - pos + 1 && term == '\0')
                          || (m == 77 && |s| - pos == 77 && term == o[|s| + n])
    requires WrapInv(a[..], o, w, |s| + n, n, num, term)
    requires num == n ==> a[..] == o
    modifies a
    ensures WrapInv(a[..], o, w, |s| + n, n, num - 1, term)
  {
    ghost var before := a[..];
    MemMove(a, pos + num, pos, m);
    a[pos + num] := '\n';
    WrappedChars(s);
    StepInv(before, a[..], o, s, w, n, num, m, term);
  }

  /** The character at position j of a wrapping w of s, as `WrappedAt` describes it. */
  predicate WrapCharAt(w: bytes, s: bytes, j: nat)
    requires j < |w|
  {
    (j % 77 == 76 ==> w[j] == '\n') && (j % 77 != 76 ==> j - j / 77 < |s| && w[j] == s[j - j / 77])
  }

  lemma WrappedChars(s: bytes)
    ensures forall j :: 0 <= j < |Wrapped(s)| ==> WrapCharAt(Wrapped(s), s, j)
  {
    forall j | 0 <= j < |Wrapped(s)|
      ensures WrapCharAt(Wrapped(s), s, j)
    {
      WrappedAt(s, j);
    }
  }

  lemma StepInv(before: seq<byte>, after: seq<byte>, o: seq<byte>, s: bytes, w: bytes,
                n: nat, num: nat, m: nat, term: byte)
    requires |o| == |before| == |after| && |s| < |o| && s == o[..|s|] && o[|s|] == '\0'
    requires forall j :: 0 <= j < |w| ==> WrapCharAt(w, s, j)
    requires 76 * n < |s| <= 76 * n + 76 && |w| == |s| + n && |s| + n < |o|
    requires 0 < num <= n && 2 <= m
    requires num < n ==> m == 77 && |s| - (76 * num - 1) >= 78
    requires num == n ==> (m == |s| - (76 * num - 1) + 1 && term == '\0')
                          || (m == 77 && |s| - (76 * num - 1) == 77 && term == o[|s| + n])
    requires WrapInv(before, o, w, |s| + n, n, num, term)
    requires num == n ==> before == o
    requires forall j {:trigger after[j]} :: 0 <= j < |after| ==>
      after[j] == (if j == 77 * num - 1 then '\n'
                   else if 77 * num - 1 <= j < 77 * num - 1 + m then before[j - num]
                   else before[j])
    ensures WrapInv(after, o, w, |s| + n, n, num - 1, term)
  {
    var e := |s| + n;
    var d := 77 * num - 1;
    assert |w| == e;
    forall j | 77 * (num - 1) + 76 <= j < e
      ensures after[j] == w[j]
    {
      if j == d {
        DivMod77(j, num - 1);
        assert WrapCharAt(w, s, j);
      } else if j < d + m {
        assert 77 * num <= j < 77 * num + 77;
        DivMod77(j, num);
        assert WrapCharAt(w, s, j);
        assert w[j] == s[j - num];
        assert after[j] == before[j - num] == o[j - num];
      } else {
        assert j >= 77 * num + 76;
        assert after[j] == before[j];
      }
    }
    if num == n && m == |s| - (76 * num - 1) + 1 {
      assert after[e] == before[|s|] == o[|s|];
    }
  }

  lemma WrapDone(a: seq<byte>, o: seq<byte>, s: bytes, w: bytes, n: nat, term: byte)
    requires |a| == |o| && CLen(o) < |o| && s == CStr(o) && w == Wrapped(s)
    requires 76 * n < |s| <= 76 * n + 76 && |w| == |s| + n && |s| + n < |o|
    requires WrapInv(a, o, w, |s| + n, n, 0, term)
    requires n == 0 ==> a == o && term == '\0'
    ensures a == w + [term] + o[|s| + n + 1..]
  {
    WrappedPrefix(s);
    assert |s| == CLen(o) && o[|s|] == '\0';
    DoneParts(a, o, s, w, n, term);
  }

  /** The three parts of the buffer after the loop. */
  lemma DoneParts(a: seq<byte>, o: seq<byte>, s: bytes, w: bytes, n: nat, term: byte)
    requires |a| == |o| && |s| < |o| && s == o[..|s|] && o[|s|] == '\0'
    requires 76 * n < |s| <= 76 * n + 76 && |w| == |s| + n && |s| + n < |o|
    requires forall j :: 0 <= j < 76 && j < |s| ==> w[j] == s[j]
    requires WrapInv(a, o, w, |s| + n, n, 0, term)
    requires n == 0 ==> a == o && term == '\0'
    ensures a == w + [term] + o[|s| + n + 1..]
  {
    var e := |s| + n;
    DonePrefix(a, o, s, w, n, term);
    assert a[e] == term;
    assert a[e + 1..] == o[e + 1..];
    Around(a, e);
  }

  /** After the loop the buffer holds the wrapped text up to the terminator position. */
  lemma DonePrefix(a: seq<byte>, o: seq<byte>, s: bytes, w: bytes, n: nat, term: byte)
    requires |a| == |o| && |s| < |o| && s == o[..|s|]
    requires 76 * n < |s| <= 76 * n + 76 && |w| == |s| + n && |s| + n < |o|
    requires forall j :: 0 <= j < 76 && j < |s| ==> w[j] == s[j]
    requires WrapInv(a, o, w, |s| + n, n, 0, term)
    ensures a[..|s| + n] == w
  {
    forall j | 0 <= j < |s| + n ensures a[j] == w[j] {
      if j < 76 {
        assert a[j] == o[j] == s[j];
      }
    }
  }

  /** A sequence is what comes before position e, the element at e, and what follows. */
  lemma Around<T>(a: seq<T>, e: nat)
    requires e < |a|
    ensures a == a[..e] + [a[e]] + a[e + 1..]
  {
  }

  /** The first line of the wrapped text is the start of the string. */
  lemma WrappedPrefix(s: bytes)
    ensures forall j :: 0 <= j < 76 && j < |s| ==> Wrapped(s)[j] == s[j]
  {
    if |s| > 76 {
      assert Wrapped(s) == s[..76] + ("\n" + Wrapped(s[76..]));
    }
  }

  /** The text of a C string after wraplines: wrapped when it fits in `space`, else as it was. */
  function WrapText(s: bytes, space: nat): (r: bytes)
    ensures DropSpace(r) == DropSpace(s)
    ensures Fits(|s|, space) ==> r == Wrapped(s)
    ensures !Fits(|s|, space) ==> r == s
  {
    DropSpaceWrapped(s);
    if Fits(|s|, space) then Wrapped(s) else s
  }

  /** The C string wraplines leaves behind: the wrapped text when it fits. */
  lemma WrapOutcomeString(buf: bytes, space: nat)
    requires CLen(buf) < |buf| && space <= |buf| <= MaxBuffer
    ensures CStr(WrapOutcome(buf, space)) == WrapText(CStr(buf), space)
  {
    var s := CStr(buf);
    if Fits(|s|, space) {
      var r := WrapOutcome(buf, space);
      var w := Wrapped(s);
      forall j | 0 <= j < |w|
        ensures w[j] != '\0'
      {
        WrappedAt(s, j);
      }
      assert r[..|w|] == w && r[|w|] == '\0';
      assert forall i :: 0 <= i < |w| ==> r[i] == w[i];
      CLenAt(r, |w|);
    }
  }

  /** The flaw: a fitting length that is a multiple of 76, from 152 on, leaves position e as it was. */
  lemma AsWrittenKeepsOldTerminator(buf: bytes, space: nat)
    requires CLen(buf) < |buf| && space <= |buf| <= MaxBuffer
    requires Fits(CLen(buf), space) && CLen(buf) % 76 == 0 && CLen(buf) >= 152
    ensures var e := CLen(buf) + Breaks(CLen(buf));
      WrapOutcomeAsWritten(buf, space)[e] == buf[e]
      && WrapOutcome(buf, space)[e] == '\0'
  {
  }

  /**
   * A concrete input: 152 base64 characters in a 160-byte buffer whose byte
   * after the NUL is 'x'. The corrected wrap terminates the string at index
   * 153; as written, index 153 still holds 'x' and the string runs on.
   */
  lemma AsWrittenCounterexample()
    ensures var buf := seq(152, _ => 'A') + ['\0', 'x'] + Zeros(6);
      CLen(buf) == 152
      && WrapOutcomeAsWritten(buf, 160)[153] == 'x'
      && WrapOutcome(buf, 160)[153] == '\0'
      && CStr(WrapOutcome(buf, 160)) == Wrapped(seq(152, _ => 'A'))
  {
    var s := seq(152, _ => 'A');
    var buf := s + ['\0', 'x'] + Zeros(6);
    assert buf[152] == '\0';
    assert CLen(buf) == 152;
    assert s == CStr(buf);
    AsWrittenKeepsOldTerminator(buf, 160);
    WrapOutcomeString(buf, 160);
  }

  /** Away from the flaw both versions agree: these are the lengths reop.c wraps. */
  lemma AsWrittenAgrees(buf: bytes, space: nat)
    requires CLen(buf) < |buf| && space <= |buf| <= MaxBuffer
    requires CLen(buf) % 76 != 0 || CLen(buf) < 152
    ensures WrapOutcomeAsWritten(buf, space) == WrapOutcome(buf, space)
  {
  }

  // ------------------------------------------------------------- writeb64data

  /** The text writeb64data emits for s: 76-character chunks, each with a newline. */
  function Chunked(s: bytes): (r: bytes)
    ensures |s| > 0 ==> |r| > 0 && r[|r| - 1] == '\n'
    ensures |s| == 0 ==> r == []
  {
    if |s| == 0 then []
    else if |s| <= 76 then s + "\n"
    else s[..76] + "\n" + Chunked(s[76..])
  }

  /** The chunks are the wrapped text plus a final newline. */
  lemma {:induction false} ChunkedIsWrapped(s: bytes)
    requires |s| > 0
    ensures Chunked(s) == Wrapped(s) + "\n"
  {
    if |s| > 76 {
      ChunkedIsWrapped(s[76..]);
    }
  }

  lemma DropSpaceChunked(s: bytes)
    ensures DropSpace(Chunked(s)) == DropSpace(s)
  {
    if |s| > 0 {
      ChunkedIsWrapped(s);
      DropSpaceAppend(Wrapped(s), "\n");
      DropSpaceWrapped(s);
    }
  }

  /** writeb64data: the bytes written for the C string in `b64`. */
  method WriteB64Data(b64: bytes) returns (out: bytes)
    ensures out == Chunked(CStr(b64))
  {
    var s := CStr(b64);
    var rem := |s|;
    var pos := 0;
    out := [];
    while rem > 0
      invariant 0 <= pos <= |s| && pos + rem == |s|
      invariant out + Chunked(s[pos..]) == Chunked(s)
      decreases rem
    {
      var amt := if rem > 76 then 76 else rem;
      ChunkStep(s, pos, amt, out);
      out := WithLine(out, s[pos..pos + amt]);
      pos := pos + amt;
      rem := rem - amt;
    }
    assert s[pos..] == [];
  }

  /** The output with one more line written. */
  function WithLine(out: bytes, line: bytes): bytes {
    out + line + "\n"
  }

  /** One chunk of writeb64data: at most 76 characters and a newline. */
  lemma ChunkStep(s: bytes, pos: nat, amt: nat, out: bytes)
    requires pos < |s| && amt == (if |s| - pos > 76 then 76 else |s| - pos)
    ensures out + Chunked(s[pos..]) == WithLine(out, s[pos..pos + amt]) + Chunked(s[pos + amt..])
  {
    var t := s[pos..];
    assert t[..amt] == s[pos..pos + amt];
    assert t[amt..] == s[pos + amt..];
    assert Chunked(t) == t[..amt] + "\n" + Chunked(t[amt..]);
  }
}
