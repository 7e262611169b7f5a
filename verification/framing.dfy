/**
  Line framing of the decoded text that arrives from the gateway: complete
  lines end in CR LF, and the text after the last CR LF waits in the buffer
  for the next chunk.
 */
module Framing {
  import opened Wrappers

  /** A CR LF pair starts at position `i` of `s`. */
  predicate CrlfAt(s: string, i: int) {
    0 <= i && i + 1 < |s| && s[i] == '\r' && s[i + 1] == '\n'
  }

  /** Python's `"\r\n" in s`. */
  predicate HasCrlf(s: string) {
    exists i | 0 <= i < |s| :: CrlfAt(s, i)
  }

  /** Where `s.split("\r\n", 1)` splits: the first CR LF. */
  function FindCrlf(s: string): (r: Option<nat>)
    ensures r.Some? ==> CrlfAt(s, r.value) && forall j :: 0 <= j < r.value ==> !CrlfAt(s, j)
    ensures r.None? <==> !HasCrlf(s)
  {
    if |s| < 2 then None
    else if s[0] == '\r' && s[1] == '\n' then
      assert CrlfAt(s, 0);
      Some(0)
    else
      assert forall i :: CrlfAt(s, i) && i != 0 ==> CrlfAt(s[1..], i - 1);
      assert forall i :: CrlfAt(s[1..], i) ==> CrlfAt(s, i + 1);
      match FindCrlf(s[1..])
      case None => None
      case Some(k) => Some(k + 1)
  }

  /** The complete lines split off a buffer, in order, and what stays buffered. */
  datatype Framed = Framed(lines: seq<string>, rest: string)

  /** Repeats `line, buffer = buffer.split("\r\n", 1)` while the buffer holds a CR LF. */
  function Frame(buffer: string): (f: Framed)
    ensures |f.rest| <= |buffer| && FindCrlf(f.rest).None?
    decreases |buffer|
  {
    match FindCrlf(buffer)
    case None => Framed([], buffer)
    case Some(k) =>
      var f := Frame(buffer[k + 2..]);
      Framed([buffer[..k]] + f.lines, f.rest)
  }

  /** The lines, each followed by its CR LF terminator. */
  function JoinCrlf(lines: seq<string>): string
  {
    if lines == [] then "" else lines[0] + "\r\n" + JoinCrlf(lines[1..])
  }

  predicate NoCrlfIn(lines: seq<string>) {
    forall k :: 0 <= k < |lines| ==> !HasCrlf(lines[k])
  }

  lemma {:induction false} JoinCrlfAppend(a: seq<string>, b: seq<string>)
    ensures JoinCrlf(a + b) == JoinCrlf(a) + JoinCrlf(b)
  {
    if a != [] {
      assert (a + b)[1..] == a[1..] + b;
      JoinCrlfAppend(a[1..], b);
    } else {
      assert a + b == b;
    }
  }

  /** The text before the first CR LF holds none. */
  lemma LineBeforeFirstCrlf(buffer: string, k: nat)
    requires FindCrlf(buffer) == Some(k)
    ensures !HasCrlf(buffer[..k])
    ensures buffer == buffer[..k] + "\r\n" + buffer[k + 2..]
  {
    var line := buffer[..k];
    forall i | 0 <= i < |line| && CrlfAt(line, i) ensures false {
      assert CrlfAt(buffer, i);
    }
  }

  /**
    Framing loses and invents nothing: the buffer is the extracted lines, each
    with its CR LF, followed by what stays buffered; no extracted line and not
    the remainder contains a CR LF.
   */
  lemma {:induction false} FrameDecomposes(buffer: string)
    ensures JoinCrlf(Frame(buffer).lines) + Frame(buffer).rest == buffer
    ensures NoCrlfIn(Frame(buffer).lines) && !HasCrlf(Frame(buffer).rest)
    decreases |buffer|
  {
    match FindCrlf(buffer)
    case None =>
      assert Frame(buffer) == Framed([], buffer);
    case Some(k) =>
      var tail := buffer[k + 2..];
      FrameDecomposes(tail);
      LineBeforeFirstCrlf(buffer, k);
      var f := Frame(tail);
      assert Frame(buffer) == Framed([buffer[..k]] + f.lines, f.rest);
      ConsDecomposition(buffer[..k], tail, f.lines, f.rest);
  }

  /** One more terminated line in front of a decomposition. */
  lemma ConsDecomposition(line: string, tail: string, lines: seq<string>, rest: string)
    requires tail == JoinCrlf(lines) + rest
    requires !HasCrlf(line) && NoCrlfIn(lines)
    ensures line + "\r\n" + tail == JoinCrlf([line] + lines) + rest
    ensures NoCrlfIn([line] + lines)
  {
    var all := [line] + lines;
    assert all[1..] == lines;
    assert forall j :: 1 <= j < |all| ==> all[j] == lines[j - 1];
  }

  /** In `line + CRLF + t` with no CR LF inside `line`, the first CR LF is the terminator. */
  lemma FindCrlfAfterLine(line: string, t: string)
    requires !HasCrlf(line)
    ensures FindCrlf(line + "\r\n" + t) == Some(|line|)
  {
    var s := line + "\r\n" + t;
    assert CrlfAt(s, |line|);
    forall j | 0 <= j < |line| ensures !CrlfAt(s, j) {
      if j < |line| - 1 {
        assert !CrlfAt(line, j);
      }
    }
    var r := FindCrlf(s);
    assert r.Some?;
    assert !(r.value < |line|);
  }

  /**
    The decomposition is unique: any lines free of CR LF, each terminated by
    CR LF, followed by a remainder free of CR LF, is exactly what `Frame` yields.
   */
  lemma {:induction false} FrameUnique(lines: seq<string>, rest: string)
    requires NoCrlfIn(lines) && !HasCrlf(rest)
    ensures Frame(JoinCrlf(lines) + rest) == Framed(lines, rest)
  {
    if lines == [] {
      assert JoinCrlf(lines) + rest == rest;
    } else {
      var t := JoinCrlf(lines[1..]) + rest;
      var s := JoinCrlf(lines) + rest;
      assert s == lines[0] + "\r\n" + t;
      FindCrlfAfterLine(lines[0], t);
      assert s[..|lines[0]|] == lines[0];
      assert s[|lines[0]| + 2..] == t;
      FrameUnique(lines[1..], rest);
      assert [lines[0]] + lines[1..] == lines;
    }
  }

  lemma NoCrlfInAppend(a: seq<string>, b: seq<string>)
    requires NoCrlfIn(a) && NoCrlfIn(b)
    ensures NoCrlfIn(a + b)
  {
    forall k | 0 <= k < |a + b| ensures !HasCrlf((a + b)[k]) {
      if k < |a| {
        assert (a + b)[k] == a[k];
      } else {
        assert (a + b)[k] == b[k - |a|];
      }
    }
  }

  /** Two decompositions chained through the left-over text. */
  lemma ChainDecompositions(a: string, b: string, l1: seq<string>, r1: string, l2: seq<string>, r2: string)
    requires a == JoinCrlf(l1) + r1 && r1 + b == JoinCrlf(l2) + r2
    ensures a + b == JoinCrlf(l1 + l2) + r2
  {
    JoinCrlfAppend(l1, l2);
    assert a + b == JoinCrlf(l1) + (r1 + b);
  }

  /**
    Chunking invariance: framing a buffer, then framing the left-over text
    followed by a new chunk, yields the same lines and the same remainder as
    framing everything at once.
   */
  lemma FrameChunked(a: string, b: string)
    ensures Frame(a + b).lines == Frame(a).lines + Frame(Frame(a).rest + b).lines
    ensures Frame(a + b).rest == Frame(Frame(a).rest + b).rest
  {
    var f1 := Frame(a);
    var f2 := Frame(f1.rest + b);
    FrameDecomposes(a);
    FrameDecomposes(f1.rest + b);
    ChainDecompositions(a, b, f1.lines, f1.rest, f2.lines, f2.rest);
    NoCrlfInAppend(f1.lines, f2.lines);
    FrameUnique(f1.lines + f2.lines, f2.rest);
  }
}
