/**
  The `RF receive` event line: its fixed-position fields, and the fan-out of
  every protocol the codec matched to every registered receive callback.
 */
module RfReceive {
  import opened Wrappers
  import opened Text

  /** One protocol match returned by the RF codec's `decode_pulses`; the engine only passes it on. */
  type Signal(==, 00)

  /** A registered receive callback, identified by its registration. */
  type CallbackId = nat

  /** One call `callback(signal)`. */
  datatype Invocation = Invocation(callback: CallbackId, signal: Signal)

  /** The fields `handle_rf_receive` hands to the codec. */
  datatype RfFields = RfFields(pulseLengths: seq<int>, pulseSequence: string)

  /** `int()` raising `ValueError` on a pulse length, or `parts[10]` raising `IndexError`. */
  datatype RfParseError = InvalidPulseLength | MissingPulseSequence

  /** `[int(i) for i in tokens]`, `None` when some `int()` raises. */
  function ParseInts(tokens: seq<string>): Option<seq<int>>
  {
    if forall k | 0 <= k < |tokens| :: ParseInt(tokens[k]).Some? then
      Some(seq(|tokens|, k requires 0 <= k < |tokens| => ParseInt(tokens[k]).value))
    else None
  }

  function Min(a: int, b: int): int {
    if a < b then a else b
  }

  /**
    `handle_rf_receive`'s parsing: the line is split at every single space;
    the pulse lengths are `parts[2:9]`, seven tokens, and the pulse sequence is
    `parts[10]`, so the token at position 9 is never read.
   */
  function ParseRfReceive(line: string): (r: Result<RfFields, RfParseError>)
    ensures r.Ok? ==> |r.value.pulseLengths| == 7
  {
    var parts := SplitOn(line, ' ');
    match ParseInts(parts[Min(2, |parts|)..Min(9, |parts|)])
    case None => Err(InvalidPulseLength)
    case Some(pulseLengths) =>
      if |parts| < 11 then Err(MissingPulseSequence)
      else Ok(RfFields(pulseLengths, parts[10]))
  }

  /**
    The parse succeeds exactly when there are at least eleven tokens and tokens
    2 to 8 are integers; it fails on the pulse lengths exactly when one of the
    tokens 2 to 8 that exist is not an integer; a success carries those seven
    integers and token 10.
   */
  lemma ParseRfReceiveSpec(line: string)
    ensures var r := ParseRfReceive(line); var parts := SplitOn(line, ' ');
      && (r.Ok? <==> |parts| >= 11 && forall k :: 2 <= k < 9 ==> ParseInt(parts[k]).Some?)
      && (r == Err(InvalidPulseLength) <==> exists k :: 2 <= k < Min(9, |parts|) && ParseInt(parts[k]).None?)
      && (r.Ok? ==>
            && |r.value.pulseLengths| == 7
            && (forall k :: 0 <= k < 7 ==> ParseInt(parts[k + 2]) == Some(r.value.pulseLengths[k]))
            && r.value.pulseSequence == parts[10])
  {
    var parts := SplitOn(line, ' ');
    var lengths := parts[Min(2, |parts|)..Min(9, |parts|)];
    assert forall k :: 2 <= k < Min(9, |parts|) ==> parts[k] == lengths[k - 2];
  }

  /** The tokens `str(x)` of a sequence of integers. */
  function IntTokens(xs: seq<int>): (ts: seq<string>)
    ensures |ts| == |xs|
    ensures forall k :: 0 <= k < |xs| ==> ts[k] == IntToString(xs[k])
  {
    seq(|xs|, k requires 0 <= k < |xs| => IntToString(xs[k]))
  }

  lemma NoSpaceInIntToString(x: int)
    ensures ' ' !in IntToString(x)
  {
    IntToStringShape(x);
  }

  /** The formatted integers parse back to themselves. */
  lemma ParseIntTokens(xs: seq<int>)
    ensures ParseInts(IntTokens(xs)) == Some(xs)
  {
    var tokens := IntTokens(xs);
    forall k | 0 <= k < |xs| ensures ParseInt(tokens[k]) == Some(xs[k]) {
      ParseIntToString(xs[k]);
    }
    assert ParseInts(tokens).Some?;
    assert ParseInts(tokens).value == xs;
  }

  /**
    A line as the gateway sends it, eight pulse lengths and a pulse sequence,
    reaches the codec with the first seven pulse lengths only.
   */
  lemma ParseGatewayLine(lengths: seq<int>, pulseSequence: string)
    requires |lengths| == 8 && ' ' !in pulseSequence
    ensures ParseRfReceive(Join(["RF", "receive"] + IntTokens(lengths) + [pulseSequence], ' '))
            == Ok(RfFields(lengths[..7], pulseSequence))
  {
    var tokens := ["RF", "receive"] + IntTokens(lengths) + [pulseSequence];
    GatewayTokensSpaceFree(lengths, pulseSequence);
    SplitJoin(tokens, ' ');
    assert tokens[2..9] == IntTokens(lengths[..7]);
    ParseIntTokens(lengths[..7]);
    assert tokens[10] == pulseSequence;
    assert Min(2, |tokens|) == 2 && Min(9, |tokens|) == 9;
  }

  lemma GatewayTokensSpaceFree(lengths: seq<int>, pulseSequence: string)
    requires ' ' !in pulseSequence
    ensures forall t <- ["RF", "receive"] + IntTokens(lengths) + [pulseSequence] :: ' ' !in t
  {
    var ints := IntTokens(lengths);
    var tokens := ["RF", "receive"] + ints + [pulseSequence];
    forall k | 0 <= k < |tokens| ensures ' ' !in tokens[k] {
      if k < 2 {
        assert tokens[k] == ["RF", "receive"][k];
      } else if k < 2 + |ints| {
        assert tokens[k] == ints[k - 2];
        NoSpaceInIntToString(lengths[k - 2]);
      } else {
        assert tokens[k] == pulseSequence;
      }
    }
  }

  /** The calls made for one decoded protocol: each callback, in registration order. */
  function Row(signal: Signal, callbacks: seq<CallbackId>): (r: seq<Invocation>)
    ensures |r| == |callbacks|
    ensures forall j :: 0 <= j < |callbacks| ==> r[j] == Invocation(callbacks[j], signal)
  {
    if callbacks == [] then []
    else Row(signal, callbacks[..|callbacks| - 1]) + [Invocation(callbacks[|callbacks| - 1], signal)]
  }

  /** The nested loop of `handle_rf_receive`: protocols outside, callbacks inside. */
  function FanOut(decoded: seq<Signal>, callbacks: seq<CallbackId>): (r: seq<Invocation>)
    ensures callbacks == [] ==> r == []
  {
    if decoded == [] then []
    else FanOut(decoded[..|decoded| - 1], callbacks) + Row(decoded[|decoded| - 1], callbacks)
  }

  lemma RowSnoc(signal: Signal, callbacks: seq<CallbackId>, j: nat)
    requires j < |callbacks|
    ensures Row(signal, callbacks[..j + 1]) == Row(signal, callbacks[..j]) + [Invocation(callbacks[j], signal)]
  {
    assert callbacks[..j + 1][..j] == callbacks[..j];
  }

  lemma FanOutSnoc(decoded: seq<Signal>, callbacks: seq<CallbackId>, i: nat)
    requires i < |decoded|
    ensures FanOut(decoded[..i + 1], callbacks) == FanOut(decoded[..i], callbacks) + Row(decoded[i], callbacks)
  {
    assert decoded[..i + 1][..i] == decoded[..i];
  }

  lemma {:induction false} FanOutLength(decoded: seq<Signal>, callbacks: seq<CallbackId>)
    ensures |FanOut(decoded, callbacks)| == |decoded| * |callbacks|
  {
    if decoded != [] {
      FanOutLength(decoded[..|decoded| - 1], callbacks);
      assert (|decoded| - 1) * |callbacks| + |callbacks| == |decoded| * |callbacks|;
    }
  }

  /**
    Exactly |decoded| * |callbacks| calls; call number i * |callbacks| + j
    passes protocol i to callback j.
   */
  lemma {:induction false} FanOutAt(decoded: seq<Signal>, callbacks: seq<CallbackId>, i: nat, j: nat)
    requires i < |decoded| && j < |callbacks|
    ensures |FanOut(decoded, callbacks)| == |decoded| * |callbacks|
    ensures i * |callbacks| + j < |FanOut(decoded, callbacks)|
    ensures FanOut(decoded, callbacks)[i * |callbacks| + j] == Invocation(callbacks[j], decoded[i])
  {
    var n, m := |decoded|, |callbacks|;
    var init := decoded[..n - 1];
    FanOutLength(decoded, callbacks);
    FanOutLength(init, callbacks);
    assert (n - 1) * m + m == n * m;
    if i < n - 1 {
      FanOutAt(init, callbacks, i, j);
      assert (i + 1) * m <= (n - 1) * m by {
        MultiplyMonotone(i + 1, n - 1, m);
      }
    } else {
      assert i * m == (n - 1) * m;
    }
  }

  lemma MultiplyMonotone(a: nat, b: nat, m: nat)
    requires a <= b
    ensures a * m <= b * m
  {
  }

  /** No callback is called when the codec matched nothing or none is registered. */
  lemma FanOutEmpty(decoded: seq<Signal>, callbacks: seq<CallbackId>)
    ensures FanOut(decoded, callbacks) == [] <==> decoded == [] || callbacks == []
  {
    FanOutLength(decoded, callbacks);
    if decoded != [] && callbacks != [] {
      MultiplyMonotone(1, |decoded|, |callbacks|);
    }
  }
}
