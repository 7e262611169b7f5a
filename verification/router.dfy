/**
  Where each framed line goes. `data_received` strips every complete line and
  routes it by the first test that matches: `ready`, an `RF receive ` prefix,
  a `KP ` prefix, the empty line, and otherwise the response queue.
 */
module Router {
  import opened Wrappers
  import opened Text
  import opened Framing
  import opened RfReceive

  datatype LineKind = ReadyLine | RfReceiveLine | KeyPressLine | EmptyLine | ResponseLine

  /** The routing test of `data_received`, on a stripped line, first match wins. */
  function Classify(line: string): (k: LineKind)
    ensures k == EmptyLine <==> line == ""
  {
    if line == "ready" then ReadyLine
    else if StartsWith(line, "RF receive ") then RfReceiveLine
    else if StartsWith(line, "KP ") then KeyPressLine
    else if line != "" then ResponseLine
    else EmptyLine
  }

  /** What may sit in the response queue: a stripped line that is routed to it. */
  predicate Queueable(line: string) {
    Strip(line) == line && Classify(line) == ResponseLine
  }

  /** What one framed line appends to the response queue: itself, stripped, or nothing. */
  function LineResponse(raw: string): seq<string>
  {
    if Classify(Strip(raw)) == ResponseLine then [Strip(raw)] else []
  }

  /** The lines a run of framed lines appends to the response queue, in framing order. */
  function Responses(lines: seq<string>): (r: seq<string>)
    ensures |r| <= |lines|
  {
    if lines == [] then [] else Responses(lines[..|lines| - 1]) + LineResponse(lines[|lines| - 1])
  }

  /**
    At most one queued line per framed line, and every queued line is
    stripped and is none of `ready`, an event or the empty line.
   */
  lemma {:induction false} ResponsesQueueable(lines: seq<string>)
    ensures |Responses(lines)| <= |lines|
    ensures forall k :: 0 <= k < |Responses(lines)| ==> Queueable(Responses(lines)[k])
  {
    if lines != [] {
      var raw := lines[|lines| - 1];
      ResponsesQueueable(lines[..|lines| - 1]);
      StripIdempotent(raw);
      QueueableAppend(Responses(lines[..|lines| - 1]), LineResponse(raw));
    }
  }

  lemma QueueableAppend(a: seq<string>, b: seq<string>)
    requires forall k :: 0 <= k < |a| ==> Queueable(a[k])
    requires forall k :: 0 <= k < |b| ==> Queueable(b[k])
    ensures forall k :: 0 <= k < |a + b| ==> Queueable((a + b)[k])
  {
    forall k | 0 <= k < |a + b| ensures Queueable((a + b)[k]) {
      if k < |a| {
        assert (a + b)[k] == a[k];
      } else {
        assert (a + b)[k] == b[k - |a|];
      }
    }
  }

  /** Whether some line of the run is, once stripped, exactly `ready`. */
  function ReadySeen(lines: seq<string>): (r: bool)
    ensures r ==> exists i :: 0 <= i < |lines| && Strip(lines[i]) == "ready"
  {
    if lines == [] then false else ReadySeen(lines[..|lines| - 1]) || Strip(lines[|lines| - 1]) == "ready"
  }

  /** `ready` is set exactly when some line of the run reads `ready` once stripped. */
  lemma {:induction false} ReadySeenExists(lines: seq<string>)
    ensures ReadySeen(lines) <==> exists k :: 0 <= k < |lines| && Strip(lines[k]) == "ready"
  {
    if lines != [] {
      var init := lines[..|lines| - 1];
      ReadySeenExists(init);
      assert forall k :: 0 <= k < |init| ==> init[k] == lines[k];
    }
  }

  /** The receive-callback calls one stripped line causes. */
  function LineDispatch(line: string, decodePulses: (seq<int>, string) -> seq<Signal>,
                        callbacks: seq<CallbackId>): seq<Invocation>
  {
    if Classify(line) != RfReceiveLine then []
    else
      match ParseRfReceive(line)
      case Err(_) => []
      case Ok(f) => FanOut(decodePulses(f.pulseLengths, f.pulseSequence), callbacks)
  }

  /** The receive-callback calls a run of framed lines causes, in framing order. */
  function Dispatches(lines: seq<string>, decodePulses: (seq<int>, string) -> seq<Signal>,
                      callbacks: seq<CallbackId>): (r: seq<Invocation>)
    ensures callbacks == [] ==> r == []
  {
    if lines == [] then []
    else
      Dispatches(lines[..|lines| - 1], decodePulses, callbacks)
      + LineDispatch(Strip(lines[|lines| - 1]), decodePulses, callbacks)
  }

  /** A stripped line on which `handle_rf_receive` raises. */
  predicate RaisesOn(line: string) {
    Classify(line) == RfReceiveLine && ParseRfReceive(line).Err?
  }

  /**
    Each line goes to one place only: it sets `ready`, or is queued (stripped),
    or reaches the receive callbacks, or is dropped.
   */
  lemma RoutedToOnePlace(line: string, decodePulses: (seq<int>, string) -> seq<Signal>,
                         callbacks: seq<CallbackId>)
    ensures var s := Strip(line);
      && (ReadySeen([line]) <==> Classify(s) == ReadyLine)
      && (Responses([line]) == if Classify(s) == ResponseLine then [s] else [])
      && (Dispatches([line], decodePulses, callbacks) != [] ==> Classify(s) == RfReceiveLine)
      && (Classify(s) == KeyPressLine || Classify(s) == EmptyLine ==>
            !ReadySeen([line]) && Responses([line]) == [] && Dispatches([line], decodePulses, callbacks) == [])
  {
    assert [line][..0] == [];
    assert Responses([line]) == Responses([]) + LineResponse(line);
    assert Dispatches([line], decodePulses, callbacks)
        == Dispatches([], decodePulses, callbacks) + LineDispatch(Strip(line), decodePulses, callbacks);
  }

  lemma {:induction false} ResponsesAppend(a: seq<string>, b: seq<string>)
    ensures Responses(a + b) == Responses(a) + Responses(b)
  {
    if b == [] {
      assert a + b == a;
    } else {
      var b', x := b[..|b| - 1], b[|b| - 1];
      assert b == b' + [x];
      assert a + b == (a + b') + [x];
      ResponsesAppend(a, b');
      ResponsesSnoc(a + b', x);
      ResponsesSnoc(b', x);
      AppendAssoc(Responses(a), Responses(b'), LineResponse(x));
    }
  }

  lemma {:induction false} DispatchesAppend(a: seq<string>, b: seq<string>,
                                            decodePulses: (seq<int>, string) -> seq<Signal>,
                                            callbacks: seq<CallbackId>)
    ensures Dispatches(a + b, decodePulses, callbacks)
         == Dispatches(a, decodePulses, callbacks) + Dispatches(b, decodePulses, callbacks)
  {
    if b == [] {
      assert a + b == a;
    } else {
      var b', x := b[..|b| - 1], b[|b| - 1];
      assert b == b' + [x];
      assert a + b == (a + b') + [x];
      DispatchesAppend(a, b', decodePulses, callbacks);
      DispatchesSnoc(a + b', x, decodePulses, callbacks);
      DispatchesSnoc(b', x, decodePulses, callbacks);
      AppendAssoc(Dispatches(a, decodePulses, callbacks), Dispatches(b', decodePulses, callbacks),
                  LineDispatch(Strip(x), decodePulses, callbacks));
    }
  }

  lemma {:induction false} ReadySeenAppend(a: seq<string>, b: seq<string>)
    ensures ReadySeen(a + b) == (ReadySeen(a) || ReadySeen(b))
  {
    if b == [] {
      assert a + b == a;
    } else {
      var b', x := b[..|b| - 1], b[|b| - 1];
      assert b == b' + [x];
      assert a + b == (a + b') + [x];
      ReadySeenAppend(a, b');
      ReadySeenSnoc(a + b', x);
      ReadySeenSnoc(b', x);
    }
  }

  lemma FramedChunked(buffer: string, t1: string, t2: string)
    ensures var f1 := Frame(buffer + t1);
      && Frame(buffer + (t1 + t2)).lines == f1.lines + Frame(f1.rest + t2).lines
      && Frame(buffer + (t1 + t2)).rest == Frame(f1.rest + t2).rest
  {
    AppendAssoc(buffer, t1, t2);
    FrameChunked(buffer + t1, t2);
  }

  /** One more framed line: what it queues follows what the lines before it queued. */
  lemma ResponsesSnoc(lines: seq<string>, raw: string)
    ensures Responses(lines + [raw]) == Responses(lines) + LineResponse(raw)
  {
    assert (lines + [raw])[..|lines|] == lines;
  }

  lemma ReadySeenSnoc(lines: seq<string>, raw: string)
    ensures ReadySeen(lines + [raw]) == (ReadySeen(lines) || Strip(raw) == "ready")
  {
    assert (lines + [raw])[..|lines|] == lines;
  }

  lemma DispatchesSnoc(lines: seq<string>, raw: string,
                       decodePulses: (seq<int>, string) -> seq<Signal>, callbacks: seq<CallbackId>)
    ensures Dispatches(lines + [raw], decodePulses, callbacks)
         == Dispatches(lines, decodePulses, callbacks) + LineDispatch(Strip(raw), decodePulses, callbacks)
  {
    assert (lines + [raw])[..|lines|] == lines;
  }

  /** The position of the first framed line on which `handle_rf_receive` raises. */
  function FirstRaise(lines: seq<string>): (r: Option<nat>)
    ensures r.Some? ==> r.value < |lines| && RaisesOn(Strip(lines[r.value]))
  {
    if lines == [] then None
    else
      match FirstRaise(lines[..|lines| - 1])
      case Some(j) => Some(j)
      case None => if RaisesOn(Strip(lines[|lines| - 1])) then Some(|lines| - 1) else None
  }

  /** No line before the one `FirstRaise` finds raises, and `None` means no line raises. */
  lemma {:induction false} FirstRaiseSpec(lines: seq<string>)
    ensures var r := FirstRaise(lines);
      forall k :: 0 <= k < |lines| && (r.None? || k < r.value) ==> !RaisesOn(Strip(lines[k]))
  {
    if lines != [] {
      var init := lines[..|lines| - 1];
      FirstRaiseSpec(init);
      assert forall k :: 0 <= k < |init| ==> init[k] == lines[k];
    }
  }

  /** One more line after a run in which nothing raised. */
  lemma FirstRaiseSnoc(lines: seq<string>, raw: string)
    requires FirstRaise(lines).None?
    ensures FirstRaise(lines + [raw]) == if RaisesOn(Strip(raw)) then Some(|lines|) else None
  {
    assert (lines + [raw])[..|lines|] == lines;
  }

  /** Once a prefix raises, the whole run raises at the same line. */
  lemma {:induction false} FirstRaisePrefix(lines: seq<string>, m: nat)
    requires m <= |lines| && FirstRaise(lines[..m]).Some?
    ensures FirstRaise(lines) == FirstRaise(lines[..m])
  {
    if m < |lines| {
      var init := lines[..|lines| - 1];
      assert init[..m] == lines[..m];
      FirstRaisePrefix(init, m);
    } else {
      assert lines[..m] == lines;
    }
  }

  /** How many framed lines `data_received` takes out of the buffer: all, or up to the one that raises. */
  function Handled(lines: seq<string>): (n: nat)
    ensures n <= |lines|
  {
    match FirstRaise(lines)
    case None => |lines|
    case Some(j) => j + 1
  }

  /** How a call of `data_received` ends. */
  datatype Received = Processed | Undecodable | Raised(error: RfParseError)

  /** The end of a call that decoded its chunk and framed these lines. */
  function Outcome(lines: seq<string>): Received
  {
    match FirstRaise(lines)
    case None => Processed
    case Some(j) => Raised(ParseRfReceive(Strip(lines[j])).error)
  }

  /** A raising line has no effect before it raises. */
  lemma RaisingLineIsInert(raw: string, decodePulses: (seq<int>, string) -> seq<Signal>, callbacks: seq<CallbackId>)
    requires RaisesOn(Strip(raw))
    ensures LineResponse(raw) == [] && Strip(raw) != "ready"
    ensures LineDispatch(Strip(raw), decodePulses, callbacks) == []
  {
  }

  /**
    What `data_received` keeps from one call to the next: the text not yet
    split into lines, the response queue, the `ready` flag, and the receive
    callback calls made so far.
   */
  datatype Receiver = Receiver(buffer: string, responses: seq<string>, ready: bool, invocations: seq<Invocation>)

  /**
    One call of `data_received` on a chunk that decoded to `text`: the framed
    lines are handled up to and including the first that raises, and the
    lines after it stay in the buffer with the remainder.
   */
  function ReceiveText(s: Receiver, text: string, decodePulses: (seq<int>, string) -> seq<Signal>,
                       callbacks: seq<CallbackId>): (r: Receiver)
    ensures s.responses <= r.responses && s.invocations <= r.invocations && (s.ready ==> r.ready)
  {
    ReceiveFramed(s, Frame(s.buffer + text), decodePulses, callbacks)
  }

  /** The same, given how the buffered text frames. */
  function ReceiveFramed(s: Receiver, f: Framed, decodePulses: (seq<int>, string) -> seq<Signal>,
                         callbacks: seq<CallbackId>): Receiver
  {
    var n := Handled(f.lines);
    Receiver(JoinCrlf(f.lines[n..]) + f.rest,
             s.responses + Responses(f.lines[..n]),
             s.ready || ReadySeen(f.lines[..n]),
             s.invocations + Dispatches(f.lines[..n], decodePulses, callbacks))
  }

  /**
    Chunk boundaries matter only after a raising line. When no line framed
    by the first chunk raises, two calls have the effect of one call on both
    chunks. When one does, a single call on both chunks does what the call on
    the first chunk does and leaves the second chunk in the buffer; the lines
    after the raise wait for the next call.
   */
  lemma RoutingChunked(s: Receiver, t1: string, t2: string,
                       decodePulses: (seq<int>, string) -> seq<Signal>, callbacks: seq<CallbackId>)
    ensures var f1 := Frame(s.buffer + t1).lines;
      FirstRaise(f1).None? ==>
        ReceiveText(ReceiveText(s, t1, decodePulses, callbacks), t2, decodePulses, callbacks)
        == ReceiveText(s, t1 + t2, decodePulses, callbacks)
    ensures var f1 := Frame(s.buffer + t1).lines;
      var one := ReceiveText(s, t1, decodePulses, callbacks);
      FirstRaise(f1).Some? ==>
        ReceiveText(s, t1 + t2, decodePulses, callbacks) == one.(buffer := one.buffer + t2)
  {
    if FirstRaise(Frame(s.buffer + t1).lines).None? {
      ChunkedClean(s, t1, t2, decodePulses, callbacks);
    } else {
      ChunkedAfterRaise(s, t1, t2, decodePulses, callbacks);
    }
  }

  lemma ChunkedClean(s: Receiver, t1: string, t2: string,
                     decodePulses: (seq<int>, string) -> seq<Signal>, callbacks: seq<CallbackId>)
    requires FirstRaise(Frame(s.buffer + t1).lines).None?
    ensures ReceiveText(ReceiveText(s, t1, decodePulses, callbacks), t2, decodePulses, callbacks)
         == ReceiveText(s, t1 + t2, decodePulses, callbacks)
  {
    var f1 := Frame(s.buffer + t1);
    var f2 := Frame(f1.rest + t2);
    FramedChunked(s.buffer, t1, t2);
    assert Frame(s.buffer + (t1 + t2)) == Framed(f1.lines + f2.lines, f2.rest);
    CleanRunEffects(s, f1.lines, f1.rest, decodePulses, callbacks);
    FramedClean(s, f1.lines, f1.rest, f2.lines, f2.rest, decodePulses, callbacks);
  }

  /** The framed form of the first half of `RoutingChunked`. */
  lemma FramedClean(s: Receiver, a: seq<string>, r1: string, b: seq<string>, r2: string,
                    decodePulses: (seq<int>, string) -> seq<Signal>, callbacks: seq<CallbackId>)
    requires FirstRaise(a).None?
    ensures ReceiveFramed(ReceiveFramed(s, Framed(a, r1), decodePulses, callbacks), Framed(b, r2), decodePulses, callbacks)
         == ReceiveFramed(s, Framed(a + b, r2), decodePulses, callbacks)
  {
    CleanRunEffects(s, a, r1, decodePulses, callbacks);
    CleanPrefixWhole(s, a, b, r2, decodePulses, callbacks);
  }

  /** A run `a + b` whose prefix `a` raises nowhere: all of `a` and the handled part of `b` take effect. */
  lemma CleanPrefixWhole(s: Receiver, a: seq<string>, b: seq<string>, r2: string,
                         decodePulses: (seq<int>, string) -> seq<Signal>, callbacks: seq<CallbackId>)
    requires FirstRaise(a).None?
    ensures var h := Handled(b);
      ReceiveFramed(s, Framed(a + b, r2), decodePulses, callbacks)
      == Receiver(JoinCrlf(b[h..]) + r2,
                  (s.responses + Responses(a)) + Responses(b[..h]),
                  (s.ready || ReadySeen(a)) || ReadySeen(b[..h]),
                  (s.invocations + Dispatches(a, decodePulses, callbacks)) + Dispatches(b[..h], decodePulses, callbacks))
  {
    var h := Handled(b);
    HandledShift(a, b);
    SplitAfter(a, b, h);
    var n := Handled(a + b);
    assert n == |a| + h;
    assert (a + b)[n..] == b[h..];
    EffectsAppend(s, a, b[..h], (a + b)[..n], decodePulses, callbacks);
  }

  /** When no line raises, every line is handled and only the remainder stays buffered. */
  lemma CleanRunEffects(s: Receiver, a: seq<string>, r1: string,
                        decodePulses: (seq<int>, string) -> seq<Signal>, callbacks: seq<CallbackId>)
    requires FirstRaise(a).None?
    ensures ReceiveFramed(s, Framed(a, r1), decodePulses, callbacks)
         == Receiver(r1, s.responses + Responses(a), s.ready || ReadySeen(a),
                     s.invocations + Dispatches(a, decodePulses, callbacks))
  {
    assert Handled(a) == |a|;
    assert a[|a|..] == [] && a[..|a|] == a;
  }

  /** The effects of a run of lines that is `a` followed by `b`, on top of `s`. */
  lemma EffectsAppend(s: Receiver, a: seq<string>, b: seq<string>, whole: seq<string>,
                      decodePulses: (seq<int>, string) -> seq<Signal>, callbacks: seq<CallbackId>)
    requires whole == a + b
    ensures s.responses + Responses(whole) == (s.responses + Responses(a)) + Responses(b)
    ensures (s.ready || ReadySeen(whole)) == ((s.ready || ReadySeen(a)) || ReadySeen(b))
    ensures s.invocations + Dispatches(whole, decodePulses, callbacks)
         == (s.invocations + Dispatches(a, decodePulses, callbacks)) + Dispatches(b, decodePulses, callbacks)
  {
    ResponsesAppend(a, b);
    ReadySeenAppend(a, b);
    DispatchesAppend(a, b, decodePulses, callbacks);
    AppendAssoc(s.responses, Responses(a), Responses(b));
    AppendAssoc(s.invocations, Dispatches(a, decodePulses, callbacks), Dispatches(b, decodePulses, callbacks));
  }

  lemma ChunkedAfterRaise(s: Receiver, t1: string, t2: string,
                          decodePulses: (seq<int>, string) -> seq<Signal>, callbacks: seq<CallbackId>)
    requires FirstRaise(Frame(s.buffer + t1).lines).Some?
    ensures var one := ReceiveText(s, t1, decodePulses, callbacks);
      ReceiveText(s, t1 + t2, decodePulses, callbacks) == one.(buffer := one.buffer + t2)
  {
    var f1 := Frame(s.buffer + t1);
    var f2 := Frame(f1.rest + t2);
    var a, b := f1.lines, f2.lines;
    FramedChunked(s.buffer, t1, t2);
    var n := Handled(a);
    HandledAfterRaise(a, b);
    SplitBefore(a, b, n);
    JoinCrlfAppend(a[n..], b);
    FrameDecomposes(f1.rest + t2);
    AppendAssoc(JoinCrlf(a[n..]), JoinCrlf(b), f2.rest);
    AppendAssoc(JoinCrlf(a[n..]), f1.rest, t2);
  }

  /** Nothing in `a` raises, so the first raise of `a + b` is that of `b`, shifted by `|a|`. */
  lemma {:induction false} FirstRaiseAfterClean(a: seq<string>, b: seq<string>)
    requires FirstRaise(a).None?
    ensures FirstRaise(a + b) == Shifted(FirstRaise(b), |a|)
  {
    if b == [] {
      assert a + b == a;
    } else {
      var b', x := b[..|b| - 1], b[|b| - 1];
      assert b == b' + [x];
      assert a + b == (a + b') + [x];
      FirstRaiseAfterClean(a, b');
      ShiftedSnoc(a + b', b', x, |a|);
    }
  }

  /** One more line keeps the first raise of `ab` that of `b` shifted by `k`. */
  lemma ShiftedSnoc(ab: seq<string>, b: seq<string>, x: string, k: nat)
    requires |ab| == k + |b|
    requires FirstRaise(ab) == Shifted(FirstRaise(b), k)
    ensures FirstRaise(ab + [x]) == Shifted(FirstRaise(b + [x]), k)
  {
    if FirstRaise(b).None? {
      FirstRaiseSnoc(ab, x);
      FirstRaiseSnoc(b, x);
    } else {
      assert (ab + [x])[..|ab|] == ab;
      assert (b + [x])[..|b|] == b;
      FirstRaisePrefix(ab + [x], |ab|);
      FirstRaisePrefix(b + [x], |b|);
    }
  }

  function Shifted(r: Option<nat>, k: nat): Option<nat> {
    match r
    case None => None
    case Some(j) => Some(k + j)
  }

  lemma HandledShift(a: seq<string>, b: seq<string>)
    requires FirstRaise(a).None?
    ensures Handled(a + b) == |a| + Handled(b)
  {
    FirstRaiseAfterClean(a, b);
  }

  lemma HandledAfterRaise(a: seq<string>, b: seq<string>)
    requires FirstRaise(a).Some?
    ensures Handled(a + b) == Handled(a)
  {
    assert (a + b)[..|a|] == a;
    FirstRaisePrefix(a + b, |a|);
  }

  lemma SplitBefore<T>(a: seq<T>, b: seq<T>, n: nat)
    requires n <= |a|
    ensures (a + b)[..n] == a[..n]
    ensures (a + b)[n..] == a[n..] + b
  {
  }

  lemma SplitAfter<T>(a: seq<T>, b: seq<T>, h: nat)
    requires h <= |b|
    ensures (a + b)[..|a| + h] == a + b[..h]
    ensures (a + b)[|a| + h..] == b[h..]
  {
  }
}
