/**
  `Homeduino`, the client object: it opens the connection, waits for the
  gateway to report `ready`, sets the receive interrupt, re-attaches the
  callbacks registered before the connection existed, and builds the
  commands `PING …` and `RF send …`.

  Opening the serial port is the parameter `portOpens`, the text the gateway
  sends while `connect` waits is the parameter `boot`, the RF codec's
  protocol lookup and `encode` are the parameter `codec`, and the ping
  token is a parameter in place of the clock.
 */
module Client {
  import opened Wrappers
  import opened Text
  import opened Utf8
  import opened Framing
  import opened RfReceive
  import opened Router
  import opened Protocol

  /** What the codec gives `rf_send` for a protocol: its pulse lengths and the encoded values. */
  datatype RfCodec = RfCodec(pulseLengths: seq<int>, encoded: string)

  /** `getattr` on the codec module raises when the protocol name is unknown. */
  datatype RfSendError = UnknownProtocol

  /** How a call of `connect` ends. */
  datatype ConnectOutcome =
    | Returned(connected: bool)
    /** Opening the serial port raised. */
    | OpenFailed
    /** The gateway never said `ready`: `connect` is still waiting. */
    | AwaitingReady

  /** Every token followed by one space. */
  function Spaced(tokens: seq<string>): string
  {
    if tokens == [] then "" else Spaced(tokens[..|tokens| - 1]) + tokens[|tokens| - 1] + " "
  }

  /** `n` tokens `0`. */
  function Zeros(n: nat): (zs: seq<string>)
    ensures |zs| == n && forall k :: 0 <= k < n ==> zs[k] == "0"
  {
    seq(n, _ => "0")
  }

  /** How many `0` tokens `while i < 8` adds after `n` pulse lengths. */
  function Padding(n: nat): nat
  {
    if n < 8 then 8 - n else 0
  }

  /** The start of every `RF send` command: the send pin and the repeat count 3. */
  function RfSendPrefix(sendPin: int): string
  {
    "RF send " + IntToString(sendPin) + " 3 "
  }

  /** Each pulse length in decimal, followed by a space, as the `for` loop of `rf_send` appends them. */
  function PulseField(pulseLengths: seq<int>): string
  {
    if pulseLengths == [] then ""
    else PulseField(pulseLengths[..|pulseLengths| - 1]) + (IntToString(pulseLengths[|pulseLengths| - 1]) + " ")
  }

  /** `n` times `0 `, as the `while i < 8` loop of `rf_send` appends them. */
  function ZeroField(n: nat): string
  {
    if n == 0 then "" else ZeroField(n - 1) + "0 "
  }

  /** The command `rf_send` writes: pin, repeat count 3, pulse lengths padded to eight, encoded values. */
  function RfSendPacket(sendPin: int, pulseLengths: seq<int>, encoded: string): (r: string)
    ensures StartsWith(r, RfSendPrefix(sendPin))
    ensures |encoded| <= |r| && r[|r| - |encoded|..] == encoded
  {
    RfSendPrefix(sendPin) + PulseField(pulseLengths) + ZeroField(Padding(|pulseLengths|)) + encoded
  }

  /** `rf_send`'s packet: the prefix, the pulse lengths, the padding, the encoded values. */
  method BuildRfSendPacket(sendPin: int, codec: RfCodec) returns (packet: string)
    ensures packet == RfSendPacket(sendPin, codec.pulseLengths, codec.encoded)
  {
    packet := AppendPulseLengths(RfSendPrefix(sendPin), codec.pulseLengths);
    packet := AppendPadding(packet, |codec.pulseLengths|);
    packet := packet + codec.encoded;
  }

  /** The `for` loop of `rf_send`: every pulse length and a space. */
  method AppendPulseLengths(start: string, pulseLengths: seq<int>) returns (packet: string)
    ensures packet == start + PulseField(pulseLengths)
  {
    packet := start;
    for k := 0 to |pulseLengths|
      invariant packet == start + PulseField(pulseLengths[..k])
    {
      assert pulseLengths[..k + 1][..k] == pulseLengths[..k];
      AppendAssoc(start, PulseField(pulseLengths[..k]), IntToString(pulseLengths[k]) + " ");
      packet := packet + (IntToString(pulseLengths[k]) + " ");
    }
    assert pulseLengths[..|pulseLengths|] == pulseLengths;
  }

  /** The `while i < 8` loop of `rf_send`, `i` starting at the number of pulse lengths. */
  method AppendPadding(start: string, count: nat) returns (packet: string)
    ensures packet == start + ZeroField(Padding(count))
  {
    packet := start;
    var i := count;
    ghost var added: nat := 0;
    while i < 8
      invariant i == count + added && added <= Padding(count)
      invariant packet == start + ZeroField(added)
    {
      AppendAssoc(start, ZeroField(added), "0 ");
      packet := packet + "0 ";
      i := i + 1;
      added := added + 1;
    }
  }

  lemma SpacedSnoc(tokens: seq<string>, t: string)
    ensures Spaced(tokens + [t]) == Spaced(tokens) + (t + " ")
  {
    assert (tokens + [t])[..|tokens|] == tokens;
  }

  lemma {:induction false} SpacedAppend(a: seq<string>, b: seq<string>)
    ensures Spaced(a + b) == Spaced(a) + Spaced(b)
  {
    if b == [] {
      assert a + b == a;
    } else {
      var b', t := b[..|b| - 1], b[|b| - 1];
      assert b == b' + [t];
      assert a + b == (a + b') + [t];
      SpacedAppend(a, b');
      SpacedSnoc(a + b', t);
      SpacedSnoc(b', t);
      AppendAssoc(Spaced(a), Spaced(b'), t + " ");
    }
  }

  /** The pulse field is the pulse lengths' decimal tokens, each followed by a space. */
  lemma {:induction false} PulseFieldSpaced(pulseLengths: seq<int>)
    ensures PulseField(pulseLengths) == Spaced(IntTokens(pulseLengths))
  {
    if pulseLengths != [] {
      var init := pulseLengths[..|pulseLengths| - 1];
      var x := pulseLengths[|pulseLengths| - 1];
      var t := IntToString(x);
      PulseFieldSpaced(init);
      IntTokensSnoc(pulseLengths);
      assert PulseField(pulseLengths) == PulseField(init) + (t + " ");
      SpacedSnoc(IntTokens(init), t);
    }
  }

  lemma IntTokensSnoc(xs: seq<int>)
    requires xs != []
    ensures IntTokens(xs) == IntTokens(xs[..|xs| - 1]) + [IntToString(xs[|xs| - 1])]
  {
    var l, r := IntTokens(xs), IntTokens(xs[..|xs| - 1]) + [IntToString(xs[|xs| - 1])];
    assert |l| == |r|;
    forall k | 0 <= k < |l| ensures l[k] == r[k] {
      if k < |xs| - 1 {
        assert xs[..|xs| - 1][k] == xs[k];
      }
    }
  }

  /** The padding is `n` tokens `0`, each followed by a space. */
  lemma {:induction false} ZeroFieldSpaced(n: nat)
    ensures ZeroField(n) == Spaced(Zeros(n))
  {
    if n > 0 {
      ZeroFieldSpaced(n - 1);
      assert Zeros(n) == Zeros(n - 1) + ["0"];
      SpacedSnoc(Zeros(n - 1), "0");
    }
  }

  /** Tokens each followed by a space, then a last token, are the tokens joined by spaces. */
  lemma {:induction false} JoinSpaced(tokens: seq<string>, last: string)
    ensures Join(tokens + [last], ' ') == Spaced(tokens) + last
  {
    if tokens == [] {
      assert tokens + [last] == [last];
    } else {
      var t, rest := tokens[0], tokens[1..];
      assert tokens == [t] + rest;
      assert (tokens + [last])[1..] == rest + [last];
      JoinSpaced(rest, last);
      SpacedAppend([t], rest);
      assert Spaced([t]) == t + " " by {
        assert [t][..0] == [];
      }
      AppendAssoc(t + " ", Spaced(rest), last);
    }
  }

  /**
    The packet splits at single spaces into `RF`, `send`, the pin, `3`, the
    pulse lengths, as many `0` tokens as bring them up to eight, and the
    encoded values, provided the encoded values hold no space.
   */
  lemma RfSendPacketTokens(sendPin: int, pulseLengths: seq<int>, encoded: string)
    requires ' ' !in encoded
    ensures SplitOn(RfSendPacket(sendPin, pulseLengths, encoded), ' ')
         == ["RF", "send", IntToString(sendPin), "3"] + IntTokens(pulseLengths)
            + Zeros(Padding(|pulseLengths|)) + [encoded]
  {
    var head := ["RF", "send", IntToString(sendPin), "3"];
    var ints := IntTokens(pulseLengths);
    var zeros := Zeros(Padding(|pulseLengths|));
    var all := head + ints + zeros;
    assert RfSendPacket(sendPin, pulseLengths, encoded) == Spaced(all) + encoded by {
      PrefixSpaced(sendPin);
      PulseFieldSpaced(pulseLengths);
      ZeroFieldSpaced(Padding(|pulseLengths|));
      SpacedAppend(head, ints);
      SpacedAppend(head + ints, zeros);
    }
    JoinSpaced(all, encoded);
    PacketTokensSpaceFree(sendPin, pulseLengths, encoded, head, ints + zeros);
    assert all == head + (ints + zeros);
    SplitJoin(all + [encoded], ' ');
  }

  lemma PrefixSpaced(sendPin: int)
    ensures RfSendPrefix(sendPin) == Spaced(["RF", "send", IntToString(sendPin), "3"])
  {
    var pin := IntToString(sendPin);
    SpacedSnoc([], "RF");
    assert [] + ["RF"] == ["RF"];
    SpacedSnoc(["RF"], "send");
    assert ["RF"] + ["send"] == ["RF", "send"];
    SpacedSnoc(["RF", "send"], pin);
    assert ["RF", "send"] + [pin] == ["RF", "send", pin];
    SpacedSnoc(["RF", "send", pin], "3");
    assert ["RF", "send", pin] + ["3"] == ["RF", "send", pin, "3"];
  }

  lemma PacketTokensSpaceFree(sendPin: int, pulseLengths: seq<int>, encoded: string,
                              head: seq<string>, body: seq<string>)
    requires ' ' !in encoded
    requires head == ["RF", "send", IntToString(sendPin), "3"]
    requires body == IntTokens(pulseLengths) + Zeros(Padding(|pulseLengths|))
    ensures forall t <- head + body + [encoded] :: ' ' !in t
  {
    var tokens := head + body + [encoded];
    var ints := IntTokens(pulseLengths);
    forall k | 0 <= k < |tokens| ensures ' ' !in tokens[k] {
      if k < 4 {
        assert tokens[k] == head[k];
        if k == 2 {
          NoSpaceInIntToString(sendPin);
        }
      } else if k < 4 + |ints| {
        assert tokens[k] == ints[k - 4];
        NoSpaceInIntToString(pulseLengths[k - 4]);
      } else if k < 4 + |body| {
        assert tokens[k] == body[k - 4] == "0";
      } else {
        assert tokens[k] == encoded;
      }
    }
  }

  /** The pulse-length field of the packet has eight tokens, or all of them when there are more. */
  lemma PulseFieldWidth(pulseLengths: seq<int>)
    ensures |IntTokens(pulseLengths) + Zeros(Padding(|pulseLengths|))|
         == if |pulseLengths| < 8 then 8 else |pulseLengths|
  {
  }

  /** The callbacks that are not `None`, in order. */
  function Registered(callbacks: seq<Option<CallbackId>>): seq<CallbackId>
  {
    if callbacks == [] then []
    else
      var last := callbacks[|callbacks| - 1];
      Registered(callbacks[..|callbacks| - 1]) + (if last.Some? then [last.value] else [])
  }

  /** A callback is re-attached exactly when it was registered as something other than `None`. */
  lemma {:induction false} RegisteredMembers(callbacks: seq<Option<CallbackId>>, c: CallbackId)
    ensures c in Registered(callbacks) <==> Some(c) in callbacks
  {
    if callbacks != [] {
      var init := callbacks[..|callbacks| - 1];
      RegisteredMembers(init, c);
      assert callbacks == init + [callbacks[|callbacks| - 1]];
    }
  }

  /**
    One chunk through `data_received` while no receive callback is
    registered; a chunk that does not decode changes nothing.
   */
  function Feed(s: Receiver, chunk: seq<byte>, decodePulses: (seq<int>, string) -> seq<Signal>): Receiver
  {
    match Decode(chunk)
    case None => s
    case Some(text) => ReceiveText(s, text, decodePulses, [])
  }

  /**
    The new protocol while `connect` waits for `ready`: the gateway's chunks
    go through `data_received` in order until `ready` is set, and the chunks
    after that are not read yet.
   */
  function Boot(chunks: seq<seq<byte>>, decodePulses: (seq<int>, string) -> seq<Signal>): Receiver
  {
    if chunks == [] then Receiver("", [], false, [])
    else
      var s := Boot(chunks[..|chunks| - 1], decodePulses);
      if s.ready then s else Feed(s, chunks[|chunks| - 1], decodePulses)
  }

  /** Before `ready`, one more chunk is one more `data_received`. */
  lemma BootStep(chunks: seq<seq<byte>>, j: nat, decodePulses: (seq<int>, string) -> seq<Signal>)
    requires j < |chunks| && !Boot(chunks[..j], decodePulses).ready
    ensures Boot(chunks[..j + 1], decodePulses) == Feed(Boot(chunks[..j], decodePulses), chunks[j], decodePulses)
  {
    assert chunks[..j + 1][..j] == chunks[..j];
  }

  /** Once `ready` is set, later chunks change nothing. */
  lemma {:induction false} BootStopsAtReady(chunks: seq<seq<byte>>, j: nat,
                                            decodePulses: (seq<int>, string) -> seq<Signal>)
    requires j <= |chunks| && Boot(chunks[..j], decodePulses).ready
    ensures Boot(chunks, decodePulses) == Boot(chunks[..j], decodePulses)
  {
    if j < |chunks| {
      var init := chunks[..|chunks| - 1];
      assert init[..j] == chunks[..j];
      BootStopsAtReady(init, j, decodePulses);
    } else {
      assert chunks[..j] == chunks;
    }
  }

  /** No receive callback is called while `connect` waits: none is registered yet. */
  lemma {:induction false} BootCallsNothing(chunks: seq<seq<byte>>, decodePulses: (seq<int>, string) -> seq<Signal>)
    ensures Boot(chunks, decodePulses).invocations == []
  {
    if chunks != [] {
      var init := chunks[..|chunks| - 1];
      BootCallsNothing(init, decodePulses);
      var s := Boot(init, decodePulses);
      match Decode(chunks[|chunks| - 1])
      case None =>
      case Some(text) =>
    }
  }

  /** The bytes of `ready` and its CR LF terminator. */
  const ReadyChunk: seq<byte> := [0x72, 0x65, 0x61, 0x64, 0x79, 0x0D, 0x0A]

  /** A gateway that sends `ready` lets `connect` through, with nothing buffered, queued or called. */
  lemma ReadyChunkConnects(decodePulses: (seq<int>, string) -> seq<Signal>)
    ensures Boot([ReadyChunk], decodePulses) == Receiver("", [], true, [])
  {
    var start := Receiver("", [], false, []);
    assert [ReadyChunk][..0] == [];
    assert Boot([ReadyChunk], decodePulses) == Feed(start, ReadyChunk, decodePulses);
    ReadyChunkDecodes();
    ReadyTextReceived(decodePulses);
  }

  lemma ReadyTextReceived(decodePulses: (seq<int>, string) -> seq<Signal>)
    ensures ReceiveText(Receiver("", [], false, []), "ready\r\n", decodePulses, []) == Receiver("", [], true, [])
  {
    var start := Receiver("", [], false, []);
    assert start.buffer + "ready\r\n" == "ready\r\n";
    ReadyTextFrames();
    ReadyLineEffects(decodePulses);
    assert ReceiveText(start, "ready\r\n", decodePulses, [])
        == ReceiveFramed(start, Framed(["ready"], ""), decodePulses, []);
  }

  lemma ReadyChunkDecodes()
    ensures Decode(ReadyChunk) == Some("ready\r\n")
  {
    DecodeAscii(ReadyChunk);
    var t := Decode(ReadyChunk).value;
    assert t[0] == 'r' && t[1] == 'e' && t[2] == 'a' && t[3] == 'd' && t[4] == 'y';
    assert t[5] == '\r' && t[6] == '\n';
    assert t == "ready\r\n";
  }

  lemma ReadyTextFrames()
    ensures Frame("ready\r\n") == Framed(["ready"], "")
  {
    assert !HasCrlf("ready") by {
      forall i | 0 <= i < 5 ensures !CrlfAt("ready", i) {
      }
    }
    var lines := ["ready"];
    assert NoCrlfIn(lines);
    assert JoinCrlf(lines) + "" == "ready\r\n" by {
      assert lines[1..] == [];
    }
    FrameUnique(lines, "");
  }

  lemma ReadyLineEffects(decodePulses: (seq<int>, string) -> seq<Signal>)
    ensures var lines := ["ready"];
      && Handled(lines) == 1 && lines[..1] == lines && lines[1..] == []
      && Responses(lines) == [] && ReadySeen(lines) && Dispatches(lines, decodePulses, []) == []
  {
    var lines := ["ready"];
    assert Strip("ready") == "ready" by {
      var r := "ready";
      assert r[0] == 'r' && r[|r| - 1] == 'y';
      assert !IsSpace('r') && !IsSpace('y');
      StripUnchanged(r);
    }
    assert lines[..0] == [];
    assert FirstRaise(lines).None?;
    assert lines[..1] == lines && lines[1..] == [];
  }

  /**
    The `while not self.protocol.ready` wait of `connect`: the gateway's
    chunks go through `data_received` until `ready` is set.
   */
  method AwaitReady(p: HomeduinoProtocol, boot: seq<seq<byte>>, decodePulses: (seq<int>, string) -> seq<Signal>)
    requires p.Valid() && p.rfReceiveCallbacks == []
    requires Receiver(p.strBuffer, p.responses, p.ready, p.invocations) == Receiver("", [], false, [])
    modifies p
    ensures p.Valid()
    ensures Receiver(p.strBuffer, p.responses, p.ready, p.invocations) == Boot(boot, decodePulses)
    ensures p.transport == old(p.transport) && p.rfReceiveCallbacks == [] && p.written == old(p.written)
  {
    var j := 0;
    while j < |boot| && !p.ready
      invariant 0 <= j <= |boot|
      invariant p.Valid() && p.rfReceiveCallbacks == []
      invariant Receiver(p.strBuffer, p.responses, p.ready, p.invocations) == Boot(boot[..j], decodePulses)
      invariant p.transport == old(p.transport) && p.written == old(p.written)
    {
      ghost var before := Receiver(p.strBuffer, p.responses, p.ready, p.invocations);
      BootStep(boot, j, decodePulses);
      var _ := p.DataReceived(boot[j], decodePulses);
      assert Receiver(p.strBuffer, p.responses, p.ready, p.invocations) == Feed(before, boot[j], decodePulses);
      j := j + 1;
    }
    if j == |boot| {
      assert boot[..j] == boot;
    } else {
      BootStopsAtReady(boot, j, decodePulses);
    }
  }

  /**
    What `connect` does once `ready` is in: ask for the receive interrupt,
    then attach the deferred callbacks in registration order.
   */
  method Handshake(p: HomeduinoProtocol, receiveInterrupt: int, callbacks: seq<Option<CallbackId>>)
    requires p.Valid() && p.transport && p.ready && p.written == [] && p.rfReceiveCallbacks == []
    modifies p
    ensures p.Valid() && p.transport && p.ready
    ensures p.written == ["RF receive " + IntToString(receiveInterrupt) + "\n"]
    ensures p.responses == DropNewest(old(p.responses))
    ensures p.strBuffer == old(p.strBuffer) && p.invocations == old(p.invocations)
    ensures p.rfReceiveCallbacks == Registered(callbacks)
  {
    var _ := p.SetReceiveInterrupt(Some(receiveInterrupt));
    ghost var queue := p.responses;
    for k := 0 to |callbacks|
      invariant p.Valid() && p.transport && p.ready
      invariant p.written == ["RF receive " + IntToString(receiveInterrupt) + "\n"]
      invariant p.responses == queue && p.strBuffer == old(p.strBuffer) && p.invocations == old(p.invocations)
      invariant p.rfReceiveCallbacks == Registered(callbacks[..k])
    {
      assert callbacks[..k + 1][..k] == callbacks[..k];
      p.AddRfReceiveCallback(callbacks[k]);
    }
    assert callbacks[..|callbacks|] == callbacks;
  }

  class Homeduino {
    const serialPort: string
    /** The receive pin less two: the interrupt number the gateway expects. */
    const receiveInterrupt: int
    const sendPin: Option<int>
    const dhtPin: Option<int>
    /** `transport is not None`. */
    var transport: bool
    var protocol: HomeduinoProtocol?
    /** Callbacks registered while there was no protocol, `None` included. */
    var rfReceiveCallbacks: seq<Option<CallbackId>>

    /** The transport and the protocol are set together, and the protocol is consistent. */
    ghost predicate Valid()
      reads this, protocol
    {
      && (transport <==> protocol != null)
      && (protocol != null ==> protocol.Valid())
    }

    /** `__init__`: nothing is connected yet. */
    constructor (serialPort: string, receivePin: int, sendPin: Option<int>, dhtPin: Option<int>)
      ensures Valid()
      ensures this.serialPort == serialPort && receiveInterrupt == receivePin - 2
      ensures this.sendPin == sendPin && this.dhtPin == dhtPin
      ensures !transport && protocol == null && rfReceiveCallbacks == []
    {
      this.serialPort := serialPort;
      receiveInterrupt := receivePin - 2;
      this.sendPin := sendPin;
      this.dhtPin := dhtPin;
      transport := false;
      protocol := null;
      rfReceiveCallbacks := [];
    }

    /**
      `connect`. Once a transport is set it only returns `false`. Otherwise it
      opens the port, lets the gateway's text through until `ready` arrives,
      asks for the receive interrupt, and attaches the deferred callbacks in
      the order they were registered.
     */
    method Connect(portOpens: bool, boot: seq<seq<byte>>, decodePulses: (seq<int>, string) -> seq<Signal>)
      returns (outcome: ConnectOutcome)
      requires Valid()
      modifies this
      ensures Valid()
      ensures rfReceiveCallbacks == old(rfReceiveCallbacks)
      ensures old(transport) ==> outcome == Returned(false) && transport && protocol == old(protocol)
      ensures !old(transport) && !portOpens ==> outcome == OpenFailed && !transport && protocol == null
      ensures !old(transport) && portOpens ==>
        var b := Boot(boot, decodePulses);
        && transport && protocol != null && fresh(protocol)
        && protocol.transport
        && (outcome == Returned(true) <==> b.ready)
        && (outcome == AwaitingReady <==> !b.ready)
        && protocol.ready == b.ready
        && protocol.strBuffer == b.buffer
        && protocol.invocations == []
        && (b.ready ==>
              && protocol.written == ["RF receive " + IntToString(receiveInterrupt) + "\n"]
              && protocol.responses == DropNewest(b.responses)
              && protocol.rfReceiveCallbacks == Registered(rfReceiveCallbacks))
        && (!b.ready ==>
              && protocol.written == [] && protocol.responses == b.responses
              && protocol.rfReceiveCallbacks == [])
    {
      if transport {
        return Returned(false);
      }
      if !portOpens {
        return OpenFailed;
      }
      var p := new HomeduinoProtocol();
      p.ConnectionMade();
      AwaitReady(p, boot, decodePulses);
      BootCallsNothing(boot, decodePulses);
      transport := true;
      protocol := p;
      if !p.ready {
        return AwaitingReady;
      }
      Handshake(p, receiveInterrupt, rfReceiveCallbacks);
      return Returned(true);
    }

    /**
      `disconnect`: closing the transport ends in `connection_lost` on the
      protocol; `transport` itself is never cleared, so `Connect` keeps
      returning `false` afterwards.
     */
    method Disconnect()
      requires Valid()
      modifies protocol
      ensures Valid()
      ensures transport == old(transport) && protocol == old(protocol)
      ensures protocol != null ==>
        && !protocol.transport && !protocol.ready
        && protocol.strBuffer == old(protocol.strBuffer)
        && protocol.responses == old(protocol.responses)
        && protocol.rfReceiveCallbacks == old(protocol.rfReceiveCallbacks)
        && protocol.written == old(protocol.written)
        && protocol.invocations == old(protocol.invocations)
    {
      if transport {
        protocol.ConnectionLost();
      }
    }

    /**
      `ping`: send `PING <token>` and report whether the response is that very
      text. Only the protocol is checked, so after a disconnect the protocol's
      own guard makes it `false`.
     */
    method Ping(token: string) returns (ok: bool)
      requires Valid()
      modifies protocol
      ensures Valid()
      ensures ok <==>
        && protocol != null && old(protocol.transport) && old(protocol.ready)
        && old(protocol.responses) != []
        && old(protocol.responses)[|old(protocol.responses)| - 1] == "PING " + token
      ensures ok ==> Queueable("PING " + token)
      ensures protocol != null ==>
        var sent := old(protocol.transport) && old(protocol.ready);
        && protocol.written == old(protocol.written) + (if sent then ["PING " + token + "\n"] else [])
        && protocol.responses == (if sent then DropNewest(old(protocol.responses)) else old(protocol.responses))
        && protocol.transport == old(protocol.transport) && protocol.ready == old(protocol.ready)
        && protocol.strBuffer == old(protocol.strBuffer)
        && protocol.rfReceiveCallbacks == old(protocol.rfReceiveCallbacks)
        && protocol.invocations == old(protocol.invocations)
    {
      if protocol == null {
        return false;
      }
      var message := "PING " + token;
      var response := protocol.Send(message);
      ok := response == Some(message);
    }

    /** `add_rf_receive_callback`: straight to the protocol once there is one, deferred before. */
    method AddRfReceiveCallback(callback: Option<CallbackId>)
      requires Valid()
      modifies this, protocol
      ensures Valid() && protocol == old(protocol) && transport == old(transport)
      ensures protocol == null ==> rfReceiveCallbacks == old(rfReceiveCallbacks) + [callback]
      ensures protocol != null ==>
        && rfReceiveCallbacks == old(rfReceiveCallbacks)
        && protocol.rfReceiveCallbacks == old(protocol.rfReceiveCallbacks) + Registered([callback])
        && protocol.transport == old(protocol.transport) && protocol.ready == old(protocol.ready)
        && protocol.strBuffer == old(protocol.strBuffer) && protocol.responses == old(protocol.responses)
        && protocol.written == old(protocol.written) && protocol.invocations == old(protocol.invocations)
    {
      if protocol != null {
        protocol.AddRfReceiveCallback(callback);
        assert [callback][..0] == [];
      } else {
        rfReceiveCallbacks := rfReceiveCallbacks + [callback];
      }
    }

    /**
      `rf_send`: without a protocol or a send pin it returns `false` and sends
      nothing; otherwise it looks the protocol up in the codec, sends the
      packet and reports whether the gateway answered `ACK`.
     */
    method RfSend(codec: Option<RfCodec>) returns (result: Result<bool, RfSendError>)
      requires Valid()
      modifies protocol
      ensures Valid()
      ensures protocol == null || sendPin.None? ==> result == Ok(false)
      ensures protocol != null && (sendPin.None? || codec.None?) ==>
        && protocol.written == old(protocol.written) && protocol.responses == old(protocol.responses)
      ensures protocol != null && sendPin.Some? && codec.None? ==> result == Err(UnknownProtocol)
      ensures protocol != null && sendPin.Some? && codec.Some? ==>
        var sent := old(protocol.transport) && old(protocol.ready);
        && (result == Ok(true) <==>
              && sent && old(protocol.responses) != []
              && old(protocol.responses)[|old(protocol.responses)| - 1] == "ACK")
        && result.Ok?
        && protocol.written == old(protocol.written) +
             (if sent then [RfSendPacket(sendPin.value, codec.value.pulseLengths, codec.value.encoded) + "\n"] else [])
        && protocol.responses == (if sent then DropNewest(old(protocol.responses)) else old(protocol.responses))
      ensures protocol != null ==>
        && protocol.transport == old(protocol.transport) && protocol.ready == old(protocol.ready)
        && protocol.strBuffer == old(protocol.strBuffer)
        && protocol.rfReceiveCallbacks == old(protocol.rfReceiveCallbacks)
        && protocol.invocations == old(protocol.invocations)
    {
      if protocol == null || sendPin.None? {
        return Ok(false);
      }
      if codec.None? {
        return Err(UnknownProtocol);
      }
      var packet := BuildRfSendPacket(sendPin.value, codec.value);
      var response := protocol.Send(packet);
      return Ok(response == Some("ACK"));
    }

    /** `send`: the protocol's `send`, or `None` without a protocol. */
    method Send(command: string) returns (response: Option<string>)
      requires Valid()
      modifies protocol
      ensures Valid()
      ensures protocol == null ==> response == None
      ensures protocol != null ==>
        var sent := old(protocol.transport) && old(protocol.ready);
        && (response.Some? <==> sent && old(protocol.responses) != [])
        && (response.Some? ==> response.value == old(protocol.responses)[|old(protocol.responses)| - 1])
        && protocol.written == old(protocol.written) + (if sent then [command + "\n"] else [])
        && protocol.responses == (if sent then DropNewest(old(protocol.responses)) else old(protocol.responses))
        && protocol.transport == old(protocol.transport) && protocol.ready == old(protocol.ready)
        && protocol.strBuffer == old(protocol.strBuffer)
        && protocol.rfReceiveCallbacks == old(protocol.rfReceiveCallbacks)
        && protocol.invocations == old(protocol.invocations)
    {
      if protocol != null {
        response := protocol.Send(command);
      } else {
        response := None;
      }
    }
  }
}
