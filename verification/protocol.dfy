/**
  `HomeduinoProtocol`, the asyncio protocol object attached to the serial
  port: it frames and routes what the gateway sends, fans received RF
  signals out to the registered callbacks, and correlates each command
  with a line from the response queue.

  The transport is reduced to whether it is attached; what is written to it
  is kept in the ghost log `written`, and every callback call in the ghost
  log `invocations`. The RF codec's `decode_pulses` is the parameter
  `decodePulses`.
 */
module Protocol {
  import opened Wrappers
  import opened Text
  import opened Utf8
  import opened Framing
  import opened RfReceive
  import opened Router

  class HomeduinoProtocol {
    /** `transport is not None`. */
    var transport: bool
    var ready: bool
    var txBusy: bool
    /** `_str_buffer`: decoded text not yet split into lines. */
    var strBuffer: string
    /** The `str_buffer` deque: response lines, oldest first. */
    var responses: seq<string>
    var rfReceiveCallbacks: seq<CallbackId>
    /** Everything written to the transport, one entry per `write`. */
    ghost var written: seq<string>
    /** Every `callback(protocol)` call, in call order. */
    ghost var invocations: seq<Invocation>

    /**
      Between calls no command is in flight, and every queued line is a
      stripped line that the router sends to the queue.
     */
    ghost predicate Valid()
      reads this
    {
      && !txBusy
      && forall k :: 0 <= k < |responses| ==> Queueable(responses[k])
    }

    constructor ()
      ensures Valid()
      ensures !transport && !ready && strBuffer == "" && responses == []
      ensures rfReceiveCallbacks == [] && written == [] && invocations == []
    {
      transport := false;
      ready := false;
      txBusy := false;
      strBuffer := "";
      responses := [];
      rfReceiveCallbacks := [];
      written := [];
      invocations := [];
    }

    /** `connection_made`: the transport is attached. */
    method ConnectionMade()
      modifies this
      ensures transport
      ensures ready == old(ready) && txBusy == old(txBusy) && strBuffer == old(strBuffer)
      ensures responses == old(responses) && rfReceiveCallbacks == old(rfReceiveCallbacks)
      ensures written == old(written) && invocations == old(invocations)
    {
      transport := true;
    }

    /** `add_rf_receive_callback`: a callback other than `None` is appended to the list. */
    method AddRfReceiveCallback(callback: Option<CallbackId>)
      modifies this
      ensures rfReceiveCallbacks == old(rfReceiveCallbacks) + (if callback.Some? then [callback.value] else [])
      ensures transport == old(transport) && ready == old(ready) && txBusy == old(txBusy)
      ensures strBuffer == old(strBuffer) && responses == old(responses)
      ensures written == old(written) && invocations == old(invocations)
    {
      if callback.Some? {
        rfReceiveCallbacks := rfReceiveCallbacks + [callback.value];
      }
    }

    /** `handle_ready`. */
    method HandleReady()
      modifies this
      ensures ready
      ensures transport == old(transport) && txBusy == old(txBusy) && strBuffer == old(strBuffer)
      ensures responses == old(responses) && rfReceiveCallbacks == old(rfReceiveCallbacks)
      ensures written == old(written) && invocations == old(invocations)
    {
      ready := true;
    }

    /**
      `handle_rf_receive`: parse the line, hand the pulses to the codec, and
      call every registered callback with every protocol it matched. An
      `Err` result is the exception the parse raises; no callback is called then.
     */
    method HandleRfReceive(line: string, decodePulses: (seq<int>, string) -> seq<Signal>)
      returns (parsed: Result<RfFields, RfParseError>)
      modifies this
      ensures parsed == ParseRfReceive(line)
      ensures invocations == old(invocations) +
        (if parsed.Ok? then FanOut(decodePulses(parsed.value.pulseLengths, parsed.value.pulseSequence), rfReceiveCallbacks)
         else [])
      ensures transport == old(transport) && ready == old(ready) && txBusy == old(txBusy)
      ensures strBuffer == old(strBuffer) && responses == old(responses)
      ensures rfReceiveCallbacks == old(rfReceiveCallbacks) && written == old(written)
    {
      parsed := ParseRfReceive(line);
      if parsed.Err? {
        return;
      }
      var decoded := decodePulses(parsed.value.pulseLengths, parsed.value.pulseSequence);
      if |decoded| == 0 {
        FanOutEmpty(decoded, rfReceiveCallbacks);
      } else if |rfReceiveCallbacks| == 0 {
        FanOutEmpty(decoded, rfReceiveCallbacks);
      } else {
        var callbacks := rfReceiveCallbacks;
        for i := 0 to |decoded|
          invariant rfReceiveCallbacks == callbacks
          invariant invocations == old(invocations) + FanOut(decoded[..i], callbacks)
          invariant transport == old(transport) && ready == old(ready) && txBusy == old(txBusy)
          invariant strBuffer == old(strBuffer) && responses == old(responses) && written == old(written)
        {
          ghost var before := FanOut(decoded[..i], callbacks);
          for j := 0 to |callbacks|
            invariant rfReceiveCallbacks == callbacks
            invariant invocations == old(invocations) + (before + Row(decoded[i], callbacks[..j]))
            invariant transport == old(transport) && ready == old(ready) && txBusy == old(txBusy)
            invariant strBuffer == old(strBuffer) && responses == old(responses) && written == old(written)
          {
            ghost var row := Row(decoded[i], callbacks[..j]);
            var call := Invocation(callbacks[j], decoded[i]);
            invocations := invocations + [call];
            RowSnoc(decoded[i], callbacks, j);
            AppendAssoc(old(invocations), before + row, [call]);
            AppendAssoc(before, row, [call]);
          }
          assert callbacks[..|callbacks|] == callbacks;
          FanOutSnoc(decoded, callbacks, i);
        }
        assert decoded[..|decoded|] == decoded;
      }
    }

    /**
      One pass of the loop in `data_received`: the line is stripped and routed
      by the first test that matches. `Some(e)` is the exception
      `handle_rf_receive` raised.
     */
    method ProcessLine(raw: string, decodePulses: (seq<int>, string) -> seq<Signal>)
      returns (raised: Option<RfParseError>)
      requires Valid()
      modifies this
      ensures Valid()
      ensures raised == if RaisesOn(Strip(raw)) then Some(ParseRfReceive(Strip(raw)).error) else None
      ensures responses == old(responses) + LineResponse(raw)
      ensures ready == (old(ready) || Strip(raw) == "ready")
      ensures invocations == old(invocations) + LineDispatch(Strip(raw), decodePulses, rfReceiveCallbacks)
      ensures transport == old(transport) && strBuffer == old(strBuffer)
      ensures rfReceiveCallbacks == old(rfReceiveCallbacks) && written == old(written)
    {
      raised := None;
      var line := Strip(raw);
      StripIdempotent(raw);
      if line == "ready" {
        HandleReady();
      } else if StartsWith(line, "RF receive ") {
        var parsed := HandleRfReceive(line, decodePulses);
        if parsed.Err? {
          raised := Some(parsed.error);
        }
      } else if StartsWith(line, "KP ") {
        // `handle_key_press` only logs the line.
      } else if line != "" {
        responses := responses + [line];
      }
    }

    /**
      `data_received`: decode the chunk, append it to the buffer, and process
      every complete line. A chunk that does not decode changes nothing. When
      `handle_rf_receive` raises, the exception leaves the loop: the lines
      after the failing one stay in the buffer.
     */
    method DataReceived(data: seq<byte>, decodePulses: (seq<int>, string) -> seq<Signal>)
      returns (outcome: Received)
      requires Valid()
      modifies this
      ensures Valid()
      ensures Decode(data).None? ==>
        && outcome == Undecodable
        && strBuffer == old(strBuffer) && ready == old(ready) && responses == old(responses)
        && invocations == old(invocations)
      ensures Decode(data).Some? ==>
        var total := old(strBuffer) + Decode(data).value;
        var lines := Frame(total).lines;
        var n := Handled(lines);
        && outcome == Outcome(lines)
        && total == JoinCrlf(lines[..n]) + strBuffer
        && strBuffer == JoinCrlf(lines[n..]) + Frame(total).rest
        && responses == old(responses) + Responses(lines[..n])
        && ready == (old(ready) || ReadySeen(lines[..n]))
        && invocations == old(invocations) + Dispatches(lines[..n], decodePulses, rfReceiveCallbacks)
      ensures Decode(data).Some? ==>
        Receiver(strBuffer, responses, ready, invocations)
        == ReceiveText(Receiver(old(strBuffer), old(responses), old(ready), old(invocations)),
                       Decode(data).value, decodePulses, rfReceiveCallbacks)
      ensures transport == old(transport) && rfReceiveCallbacks == old(rfReceiveCallbacks)
      ensures written == old(written)
    {
      var decoded := Decode(data);
      if decoded.None? {
        return Undecodable;
      }
      strBuffer := strBuffer + decoded.value;
      outcome := ProcessBuffer(decodePulses);
    }

    /**
      The loop of `data_received`: while the buffer holds a CR LF, split off
      the first line and route it; stop early when `handle_rf_receive` raises.
     */
    method ProcessBuffer(decodePulses: (seq<int>, string) -> seq<Signal>) returns (outcome: Received)
      requires Valid()
      modifies this
      ensures Valid()
      ensures var lines := Frame(old(strBuffer)).lines;
        var n := Handled(lines);
        && outcome == Outcome(lines)
        && old(strBuffer) == JoinCrlf(lines[..n]) + strBuffer
        && strBuffer == JoinCrlf(lines[n..]) + Frame(old(strBuffer)).rest
        && responses == old(responses) + Responses(lines[..n])
        && ready == (old(ready) || ReadySeen(lines[..n]))
        && invocations == old(invocations) + Dispatches(lines[..n], decodePulses, rfReceiveCallbacks)
      ensures transport == old(transport) && rfReceiveCallbacks == old(rfReceiveCallbacks)
      ensures written == old(written)
    {
      ghost var total := strBuffer;
      ghost var lines := Frame(total).lines;
      ghost var rest := Frame(total).rest;
      ghost var i := 0;
      assert lines[0..] == lines;
      outcome := Processed;
      while HasCrlf(strBuffer)
        invariant Valid()
        invariant 0 <= i <= |lines| && outcome == Processed
        invariant Frame(strBuffer) == Framed(lines[i..], rest)
        invariant FirstRaise(lines[..i]).None?
        invariant responses == old(responses) + Responses(lines[..i])
        invariant ready == (old(ready) || ReadySeen(lines[..i]))
        invariant invocations == old(invocations) + Dispatches(lines[..i], decodePulses, rfReceiveCallbacks)
        invariant transport == old(transport) && rfReceiveCallbacks == old(rfReceiveCallbacks)
        invariant written == old(written)
        decreases |strBuffer|
      {
        ghost var queued, wasReady, called := responses, ready, invocations;
        var raised := TakeLine(decodePulses, lines, i, rest);
        QueueStep(old(responses), queued, responses, lines, i);
        ReadyStep(old(ready), wasReady, ready, lines, i);
        CallStep(old(invocations), called, invocations, lines, i, decodePulses, rfReceiveCallbacks);
        if raised.Some? {
          FirstRaiseAt(lines, i);
          i := i + 1;
          outcome := Raised(raised.value);
          break;
        }
        FirstRaiseStep(lines, i);
        i := i + 1;
      }
      if outcome == Processed {
        FrameDecomposes(strBuffer);
        assert i == |lines|;
        assert lines[..i] == lines;
        FirstRaiseNone(lines);
      }
      DataReceivedEnd(total, lines, rest, i, strBuffer);
      assert lines[..Handled(lines)] == lines[..i];
    }

    /** One pass of that loop: split the first line off the buffer, then route it. */
    method TakeLine(decodePulses: (seq<int>, string) -> seq<Signal>, ghost lines: seq<string>, ghost i: nat,
                    ghost rest: string)
      returns (raised: Option<RfParseError>)
      requires Valid() && HasCrlf(strBuffer) && i <= |lines| && Frame(strBuffer) == Framed(lines[i..], rest)
      modifies this
      ensures Valid() && i < |lines| && Frame(strBuffer) == Framed(lines[i + 1..], rest)
      ensures |strBuffer| < |old(strBuffer)|
      ensures raised == if RaisesOn(Strip(lines[i])) then Some(ParseRfReceive(Strip(lines[i])).error) else None
      ensures responses == old(responses) + LineResponse(lines[i])
      ensures ready == (old(ready) || Strip(lines[i]) == "ready")
      ensures invocations == old(invocations) + LineDispatch(Strip(lines[i]), decodePulses, rfReceiveCallbacks)
      ensures transport == old(transport) && rfReceiveCallbacks == old(rfReceiveCallbacks)
      ensures written == old(written)
    {
      var k := FindCrlf(strBuffer).value;
      FrameStepAt(strBuffer, k, lines, i, rest);
      var raw := strBuffer[..k];
      strBuffer := strBuffer[k + 2..];
      raised := ProcessLine(raw, decodePulses);
    }

    /**
      `send`: write the packet and its newline terminator, then take the most
      recently queued line, if any, as the response. Without a transport, or
      before the gateway is ready, nothing is written and there is no response.
     */
    method Send(packet: string) returns (response: Option<string>)
      requires Valid()
      modifies this
      ensures Valid()
      ensures !old(transport) || !old(ready) ==>
        response == None && written == old(written) && responses == old(responses)
      ensures old(transport) && old(ready) ==>
        && written == old(written) + [packet + "\n"]
        && (old(responses) == [] ==> response == None && responses == [])
        && (old(responses) != [] ==>
              && response == Some(old(responses)[|old(responses)| - 1])
              && responses == DropNewest(old(responses)))
      ensures response.Some? ==> Queueable(response.value)
      ensures !txBusy
      ensures transport == old(transport) && ready == old(ready) && strBuffer == old(strBuffer)
      ensures rfReceiveCallbacks == old(rfReceiveCallbacks) && invocations == old(invocations)
    {
      if !transport {
        return None;
      }
      if !ready {
        return None;
      }
      txBusy := true;
      written := written + [packet + "\n"];
      response := None;
      if |responses| > 0 {
        var line := responses[|responses| - 1];
        responses := responses[..|responses| - 1];
        response := Some(Strip(line));
      }
      txBusy := false;
    }

    /**
      `set_receive_interrupt`: ask the gateway to listen on the interrupt and
      report whether it answered `ACK`.
     */
    method SetReceiveInterrupt(receiveInterrupt: Option<int>) returns (acknowledged: bool)
      requires Valid()
      modifies this
      ensures Valid()
      ensures acknowledged <==>
        && receiveInterrupt.Some? && old(transport) && old(ready) && old(responses) != []
        && old(responses)[|old(responses)| - 1] == "ACK"
      ensures written == old(written) +
        (if receiveInterrupt.Some? && old(transport) && old(ready)
         then ["RF receive " + IntToString(receiveInterrupt.value) + "\n"] else [])
      ensures responses ==
        if receiveInterrupt.Some? && old(transport) && old(ready) then DropNewest(old(responses)) else old(responses)
      ensures transport == old(transport) && ready == old(ready) && strBuffer == old(strBuffer)
      ensures rfReceiveCallbacks == old(rfReceiveCallbacks) && invocations == old(invocations)
    {
      if receiveInterrupt.None? {
        return false;
      }
      var response := Send("RF receive " + IntToString(receiveInterrupt.value));
      acknowledged := response == Some("ACK");
    }

    /** `connection_lost`: the transport is gone and the gateway no longer counts as ready. */
    method ConnectionLost()
      modifies this
      ensures !transport && !ready
      ensures txBusy == old(txBusy) && strBuffer == old(strBuffer) && responses == old(responses)
      ensures rfReceiveCallbacks == old(rfReceiveCallbacks)
      ensures written == old(written) && invocations == old(invocations)
    {
      transport := false;
      ready := false;
    }
  }

  /** The response queue once `send` has taken its newest line, if there is one. */
  function DropNewest(queue: seq<string>): (rest: seq<string>)
    ensures queue != [] ==> queue == rest + [queue[|queue| - 1]]
    ensures queue == [] ==> rest == []
  {
    if queue == [] then [] else queue[..|queue| - 1]
  }

  /** A line that raises after lines that did not: the call takes it off and stops there. */
  lemma FirstRaiseAt(lines: seq<string>, i: nat)
    requires i < |lines| && FirstRaise(lines[..i]).None? && RaisesOn(Strip(lines[i]))
    ensures Handled(lines) == i + 1
    ensures Outcome(lines) == Raised(ParseRfReceive(Strip(lines[i])).error)
  {
    FirstRaiseStep(lines, i);
    FirstRaisePrefix(lines, i + 1);
  }

  /** A line that does not raise after lines that did not. */
  lemma FirstRaiseStep(lines: seq<string>, i: nat)
    requires i < |lines| && FirstRaise(lines[..i]).None?
    ensures FirstRaise(lines[..i + 1]) == if RaisesOn(Strip(lines[i])) then Some(i) else None
  {
    assert lines[..i + 1] == lines[..i] + [lines[i]];
    FirstRaiseSnoc(lines[..i], lines[i]);
  }

  lemma FirstRaiseNone(lines: seq<string>)
    requires FirstRaise(lines).None?
    ensures Handled(lines) == |lines| && Outcome(lines) == Processed
  {
  }

  /** The queue after one more line, as the run of lines so far prescribes. */
  lemma QueueStep(start: seq<string>, before: seq<string>, after: seq<string>, lines: seq<string>, i: nat)
    requires i < |lines| && before == start + Responses(lines[..i])
    requires after == before + LineResponse(lines[i])
    ensures after == start + Responses(lines[..i + 1])
  {
    assert lines[..i + 1] == lines[..i] + [lines[i]];
    ResponsesSnoc(lines[..i], lines[i]);
    AppendAssoc(start, Responses(lines[..i]), LineResponse(lines[i]));
  }

  /** The call log after one more line, as the run of lines so far prescribes. */
  lemma CallStep(start: seq<Invocation>, before: seq<Invocation>, after: seq<Invocation>, lines: seq<string>, i: nat,
                 decodePulses: (seq<int>, string) -> seq<Signal>, callbacks: seq<CallbackId>)
    requires i < |lines| && before == start + Dispatches(lines[..i], decodePulses, callbacks)
    requires after == before + LineDispatch(Strip(lines[i]), decodePulses, callbacks)
    ensures after == start + Dispatches(lines[..i + 1], decodePulses, callbacks)
  {
    var prefix, line := lines[..i], lines[i];
    var done, next := Dispatches(prefix, decodePulses, callbacks), LineDispatch(Strip(line), decodePulses, callbacks);
    assert Dispatches(lines[..i + 1], decodePulses, callbacks) == done + next by {
      assert lines[..i + 1] == prefix + [line];
      DispatchesSnoc(prefix, line, decodePulses, callbacks);
    }
    AppendAssoc(start, done, next);
  }

  /** `ready` after one more line, as the run of lines so far prescribes. */
  lemma ReadyStep(start: bool, before: bool, after: bool, lines: seq<string>, i: nat)
    requires i < |lines| && before == (start || ReadySeen(lines[..i]))
    requires after == (before || Strip(lines[i]) == "ready")
    ensures after == (start || ReadySeen(lines[..i + 1]))
  {
    assert lines[..i + 1] == lines[..i] + [lines[i]];
    ReadySeenSnoc(lines[..i], lines[i]);
  }

  /** Splitting the first line off a buffer that frames as `lines[i..]` leaves one that frames as `lines[i + 1..]`. */
  lemma FrameStepAt(buffer: string, k: nat, lines: seq<string>, i: nat, rest: string)
    requires FindCrlf(buffer) == Some(k) && i <= |lines|
    requires Frame(buffer) == Framed(lines[i..], rest)
    ensures i < |lines| && lines[i] == buffer[..k]
    ensures Frame(buffer[k + 2..]) == Framed(lines[i + 1..], rest)
  {
    var f := Frame(buffer[k + 2..]);
    assert lines[i..] == [buffer[..k]] + f.lines;
    assert lines[i..][0] == lines[i];
    assert lines[i..][1..] == lines[i + 1..];
  }

  /** The buffer left after `n` lines were taken off decomposes as the whole did. */
  lemma DataReceivedEnd(total: string, lines: seq<string>, rest: string, n: nat, buffer: string)
    requires Frame(total) == Framed(lines, rest) && n <= |lines|
    requires Frame(buffer) == Framed(lines[n..], rest)
    ensures total == JoinCrlf(lines[..n]) + buffer
    ensures buffer == JoinCrlf(lines[n..]) + rest
  {
    FrameDecomposes(total);
    FrameDecomposes(buffer);
    JoinAfterPrefix(total, lines, rest, n, buffer);
  }

  lemma JoinAfterPrefix(total: string, lines: seq<string>, rest: string, n: nat, buffer: string)
    requires n <= |lines|
    requires total == JoinCrlf(lines) + rest && buffer == JoinCrlf(lines[n..]) + rest
    ensures total == JoinCrlf(lines[..n]) + buffer
  {
    var a, b := JoinCrlf(lines[..n]), JoinCrlf(lines[n..]);
    assert JoinCrlf(lines) == a + b by {
      assert lines == lines[..n] + lines[n..];
      JoinCrlfAppend(lines[..n], lines[n..]);
    }
    AppendAssoc(a, b, rest);
  }
}
