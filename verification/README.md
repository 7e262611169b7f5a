# homeduino protocol engine in Dafny

This project models the protocol engine of `homeduino`. That is the host
side of a serial link to an Arduino running the homeduino firmware. The
model follows `homeduino/homeduino.py`, which has two classes:

- `HomeduinoProtocol`, the protocol object. It decodes the bytes the
  gateway sends and keeps the text in a buffer. It splits the buffer into
  CR LF-terminated lines and strips each line. It then routes the line:
  `ready` sets the ready flag; `RF receive …` is parsed and handed to the
  RF codec, and every protocol the codec matches goes to every registered
  receive callback; `KP …` and empty lines are dropped; anything else goes
  to the response queue. Its `send` writes a command and takes the most
  recently queued line as the response.
- `Homeduino`, the client. It connects and waits for `ready`, sets the
  receive interrupt, re-attaches callbacks registered before the connection
  existed, and builds the `PING` and `RF send` commands.

The project is split into these modules:

| file | module | content |
|---|---|---|
| `wrappers.dfy` | `Wrappers` | `Option` for Python's `None`, and `Result` for a raised exception |
| `text.dfy` | `Text` | `str.strip()`, `str.startswith`, `str.split(" ")`, `str(int)`, and base-10 `int(str)` |
| `utf8.dfy` | `Utf8` | `bytes.decode()`: strict UTF-8, as in section 3.9 (Table 3-7) of the Unicode Standard |
| `framing.dfy` | `Framing` | the CR LF line framer |
| `rf_receive.dfy` | `RfReceive` | the `RF receive` field parser and the callback fan-out |
| `router.dfy` | `Router` | where each line goes, and what a run of lines does to the state |
| `protocol.dfy` | `Protocol` | the class `HomeduinoProtocol` |
| `client.dfy` | `Client` | the class `Homeduino`, and the `rf_send` packet |

Some parts of the program are outside the model and enter as parameters
or ghost state:

- The serial transport becomes two things. A boolean says whether it is
  attached. Every `write` is appended to the ghost log `written`.
- The RF codec becomes parameters. `decode_pulses` is the function
  parameter `decodePulses`. A protocol it matches is the abstract type
  `Signal`. The protocol lookup and `encode` of `rf_send` are an
  `Option<RfCodec>`, where `None` means the lookup raised.
- A receive callback is a number. Every call `callback(protocol)` is
  appended to the ghost log `invocations`.
- A raised exception is an explicit result: `Received.Raised` for
  `data_received`, `Result.Err` for `rf_send`, and `OpenFailed` for `connect`.

## What the code does that a reader may not expect

The model follows the code as written, including these points:

- **Only seven pulse lengths are read.** `handle_rf_receive` reads
  `parts[2:9]`, which is seven pulse lengths. Its own comment (line 88)
  speaks of eight, and the gateway's `RF receive` line carries eight pulse
  lengths before the sequence. Token 9 is never read, and the pulse sequence
  is token 10. `RfReceive.ParseGatewayLine` shows the result for a line
  with eight pulse lengths: the codec gets the first seven.
- **Each chunk is decoded on its own.** The bytes of each chunk are decoded
  separately, not buffered as bytes. A character whose bytes arrive in two
  chunks makes both chunks undecodable, and both are dropped whole
  (`Utf8.SplitCharacterIsLost`).
- **A response timeout returns `None`.** The `raise` on a timeout is
  commented out (lines 143-144), and the `_tx_busy` wait has no timeout. The wait loop never yields, so the
  response is whatever line is at the newest end of the queue when the
  command has been written. That line may be one that was queued earlier
  and is stale.
- **Any other line is queued.** Lines such as `ERR …` or an echo arrive
  even when no command is pending. They are queued all the same.
- **`connect` does not absorb errors.** When the port does not open, the
  exception from `create_serial_connection` leaves `connect`; it never
  returns `false` for that. It waits for `ready` with
  no timeout and no ping fallback. It also ignores whether the receive
  interrupt was acknowledged.
- **`disconnect` leaves `transport` set.** It only closes the transport, and
  `Homeduino.transport` is never cleared. Every later `connect` returns
  `false`.
- **The callback lists and the response queue are shared.** In Python they
  are class attributes, shared by all instances. Here they are fields of
  one instance.
- **A failing `RF receive` line stops the loop.** An exception from
  `handle_rf_receive` (a non-integer pulse length, or no token 10) leaves
  the loop of `data_received`. The lines already split off are gone. The
  complete lines after the failing one stay in the buffer until the next
  chunk arrives.

## Model

| member | source | states |
|---|---|---|
| Text.Strip | homeduino/homeduino.py:71 | `strip()` never lengthens a line, and what it returns neither starts nor ends with whitespace |
| Text.StripKeepsInfix | homeduino/homeduino.py:71 | `strip()` keeps one contiguous piece of the line, and only whitespace is cut off on either side |
| Text.StripIdempotent | homeduino/homeduino.py:142 | stripping a line that was stripped before queueing gives back the same line |
| Text.SplitOn | homeduino/homeduino.py:89 | `split(" ")` returns at least one part, and no part contains the separator |
| Text.JoinSplit | homeduino/homeduino.py:89 | joining the parts of a split with the separator gives back the line |
| Text.SplitJoin | homeduino/homeduino.py:89 | splitting a join of separator-free tokens gives back the tokens, empty ones included |
| Text.ParseInt | homeduino/homeduino.py:91 | `int()` accepts a token only when it is non-empty once stripped, and gives a negative value only after a leading minus |
| Text.ParseIntCanonical | homeduino/homeduino.py:91 | for every token `int()` accepts, `str(int(s))` is the stripped token in standard form: a `+` dropped, every `_` and leading zero dropped, and `-` kept only in front of a non-zero value |
| Text.ParseDigits | homeduino/homeduino.py:91 | the value of well-formed digits prints as those digits with underscores and leading zeros dropped |
| Text.UnsignedCanonical | homeduino/homeduino.py:91 | well-formed digits in standard form are plain digits with no leading zero, have the same value, are what `str()` prints for it, and read `"0"` exactly when that value is zero |
| Text.ParseIntRejects | homeduino/homeduino.py:91 | `int()` raises on `""`, `"x"`, `"12a"` and `"1__0"` |
| Text.ParseIntPlus | homeduino/homeduino.py:91 | `int("+5") == 5` |
| Text.ParseIntUnderscore | homeduino/homeduino.py:91 | `int("1_0") == 10` |
| Text.ParseIntPadded | homeduino/homeduino.py:91 | `int(" 0300 ") == 300`: surrounding whitespace and leading zeros are accepted |
| Text.CanonicalDigits | homeduino/homeduino.py:91 | a digit string without underscores and without a leading zero comes back unchanged from `str(int(d))`, the converse of `int(str(x)) == x` |
| Text.IntToString | homeduino/homeduino.py:245 | `str(x)` is non-empty and starts with a minus sign exactly when `x` is negative |
| Text.NatToStringValue | homeduino/homeduino.py:91 | the digits `str(n)` produces are well formed for `int()`, and their value is `n` |
| Text.NatToStringDigits | homeduino/homeduino.py:245 | `str(n)` of a natural number is a non-empty run of decimal digits |
| Text.IntToStringShape | homeduino/homeduino.py:245 | `str(x)` is a minus sign for negative `x`, then decimal digits only |
| Text.ParseIntToString | homeduino/homeduino.py:91 | `int(str(x)) == x` for every integer |
| Utf8.Decode | homeduino/homeduino.py:60 | a decoded chunk has no more characters than bytes |
| Utf8.DecodeAppend | homeduino/homeduino.py:60 | decoding two decodable pieces together gives the two texts concatenated |
| Utf8.DecodeAscii | homeduino/homeduino.py:60 | bytes below 0x80 always decode, one character each, to the same code point |
| Utf8.SplitCharacterIsLost | homeduino/homeduino.py:59-65 | the two bytes of U+00E9 decode together, but neither decodes alone |
| Framing.Frame | homeduino/homeduino.py:69-70 | what stays buffered after the loop is no longer than the buffer and holds no CR LF, which is the loop's exit condition |
| Framing.FindCrlf | homeduino/homeduino.py:69-70 | finds the first CR LF of the buffer, and finds none exactly when `"\r\n" in buffer` is false |
| Framing.FrameDecomposes | homeduino/homeduino.py:68-70 | the buffer is the extracted lines, each followed by CR LF, then the remainder; no line and not the remainder contains CR LF |
| Framing.FrameUnique | homeduino/homeduino.py:69-70 | any such decomposition is exactly the one framing produces |
| Framing.FrameChunked | homeduino/homeduino.py:68-70 | framing the remainder plus the next chunk gives the same lines and remainder as framing all the text at once |
| RfReceive.ParseRfReceive | homeduino/homeduino.py:89-93 | a successful parse always carries exactly seven pulse lengths |
| RfReceive.ParseRfReceiveSpec | homeduino/homeduino.py:89-93 | parsing succeeds exactly when there are at least 11 tokens and tokens 2 to 8 are integers. It raises on the pulse lengths exactly when one of tokens 2 to 8 is not an integer. A success carries those seven integers and token 10 |
| RfReceive.ParseIntTokens | homeduino/homeduino.py:91 | formatted integers parse back to themselves |
| RfReceive.ParseGatewayLine | homeduino/homeduino.py:88-93 | a line with eight pulse lengths and a sequence reaches the codec with the first seven lengths and the sequence |
| RfReceive.Row | homeduino/homeduino.py:105-106 | the inner loop calls every callback once, in registration order, with the same protocol |
| RfReceive.FanOut | homeduino/homeduino.py:103-106 | with no callback registered, the nested loop calls nothing |
| RfReceive.FanOutLength | homeduino/homeduino.py:103-106 | the nested loop makes exactly `len(decoded) * len(callbacks)` calls |
| RfReceive.FanOutAt | homeduino/homeduino.py:103-106 | call number `i * len(callbacks) + j` passes protocol `i` to callback `j` |
| RfReceive.FanOutEmpty | homeduino/homeduino.py:98-102 | no callback is called exactly when the codec matched nothing or no callback is registered |
| Router.Classify | homeduino/homeduino.py:72-79 | a stripped line is dropped as empty exactly when it is the empty string; every other line goes to one of the four other branches |
| Router.Responses | homeduino/homeduino.py:71-79 | a run of lines queues at most one entry per line |
| Router.ReadySeen | homeduino/homeduino.py:72-73 | `ready` is seen only when some line reads `ready` once stripped |
| Router.Dispatches | homeduino/homeduino.py:74-75 | with no callback registered, no line calls anything |
| Router.ReceiveText | homeduino/homeduino.py:58-79 | `data_received` on a decodable chunk only appends to the queue and to the call log, and never clears `ready` |
| Router.ResponsesQueueable | homeduino/homeduino.py:71-79 | a run of lines queues at most one entry per line, and every entry is stripped and none of `ready`, an event line or the empty line |
| Router.ReadySeenExists | homeduino/homeduino.py:72-73 | `ready` gets set exactly when some line reads `ready` once stripped |
| Router.RoutedToOnePlace | homeduino/homeduino.py:71-79 | each line sets `ready`, or is queued stripped, or reaches the callbacks, or is dropped. Only `RF receive` lines reach callbacks; `KP` and empty lines do nothing |
| Router.ResponsesAppend | homeduino/homeduino.py:69-79 | two runs of lines queue what each run queues, in framing order |
| Router.DispatchesAppend | homeduino/homeduino.py:69-79 | two runs of lines call the callbacks as each run does, in framing order |
| Router.ReadySeenAppend | homeduino/homeduino.py:72-73 | two runs of lines set `ready` when either run does |
| Router.RoutingChunked | homeduino/homeduino.py:58-79 | when no line framed from the buffer and the first chunk raises, two chunks received in turn leave the same buffer, queue, `ready` and call log as their concatenation received at once. When one of those lines raises, the concatenation received at once does what the first chunk does, and the second chunk only lengthens the buffer |
| Router.FirstRaiseSpec | homeduino/homeduino.py:69-75 | no line before the first raising line raises; when none is found, no line raises |
| Router.FirstRaisePrefix | homeduino/homeduino.py:69-75 | once a prefix of the lines raises, the whole run raises at that same line |
| Router.Handled | homeduino/homeduino.py:69-75 | `data_received` takes at most as many lines as the buffer holds |
| Router.RaisingLineIsInert | homeduino/homeduino.py:74-75 | an `RF receive` line whose parse raises neither sets `ready`, nor is queued, nor reaches a callback |
| Protocol.HomeduinoProtocol.constructor | homeduino/homeduino.py:23-32 | a new protocol has no transport, is not ready, and has an empty buffer, queue and callback list |
| Protocol.HomeduinoProtocol.ConnectionMade | homeduino/homeduino.py:55-56 | attaches the transport and changes nothing else |
| Protocol.HomeduinoProtocol.AddRfReceiveCallback | homeduino/homeduino.py:51-53 | appends a callback other than `None`, and ignores `None` |
| Protocol.HomeduinoProtocol.HandleReady | homeduino/homeduino.py:81-82 | sets `ready` and changes nothing else |
| Protocol.HomeduinoProtocol.HandleRfReceive | homeduino/homeduino.py:85-106 | returns the parse of the line. On success it appends exactly the fan-out of the codec's matches over the registered callbacks to the call log; on failure it calls nothing |
| Protocol.HomeduinoProtocol.ProcessLine | homeduino/homeduino.py:71-79 | one stripped line updates `ready`, the queue and the call log as the router prescribes, and reports the exception when the `RF receive` parse raises |
| Protocol.HomeduinoProtocol.DataReceived | homeduino/homeduino.py:58-79 | an undecodable chunk changes nothing. Otherwise the old buffer plus the chunk equals the handled lines, each with CR LF, followed by the new buffer. The new buffer is the unhandled lines plus the remainder. The queue, `ready` and the call log change by exactly what the handled lines route. All lines are handled unless one raises, and then processing stops right after it |
| Protocol.HomeduinoProtocol.TakeLine | homeduino/homeduino.py:69-79 | one pass of the loop takes exactly the next framed line off the buffer and routes it: the queue, `ready` and the call log change as that one line prescribes, and the exception is reported when its `RF receive` parse raises |
| Protocol.HomeduinoProtocol.ProcessBuffer | homeduino/homeduino.py:69-79 | the `while "\r\n" in buffer` loop: same statement as `DataReceived`, for the text already in the buffer |
| Protocol.HomeduinoProtocol.Send | homeduino/homeduino.py:112-148 | without a transport or before `ready`, returns `None` and writes nothing. Otherwise it writes exactly `packet + "\n"`. With a non-empty queue it returns the newest queued line and removes only that line, older lines staying queued; with an empty queue it returns `None`. `_tx_busy` is false on every exit |
| Protocol.HomeduinoProtocol.SetReceiveInterrupt | homeduino/homeduino.py:45-49 | true exactly when an interrupt is given, the command `RF receive <interrupt>` is sent, and the response is `ACK`. Whenever the command is sent, the queue loses its newest line. Without an interrupt it sends nothing and changes nothing; the buffer, `ready`, the transport, the callbacks and the call log never change |
| Protocol.DropNewest | homeduino/homeduino.py:139-140 | taking the newest line off a non-empty queue leaves the older lines in their order; an empty queue stays empty |
| Protocol.HomeduinoProtocol.ConnectionLost | homeduino/homeduino.py:150-158 | clears the transport and `ready`, and nothing else |
| Client.RfSendPacket | homeduino/homeduino.py:242-252 | the packet starts with `RF send <send pin> 3 ` and ends with the encoded values |
| Client.BuildRfSendPacket | homeduino/homeduino.py:242-252 | the packet is the prefix, then the pulse field, then the padding, then the encoded values |
| Client.AppendPulseLengths | homeduino/homeduino.py:244-245 | the `for` loop appends each pulse length in decimal, each followed by a space |
| Client.AppendPadding | homeduino/homeduino.py:247-250 | the `while i < 8` loop appends `0 ` as many times as brings the pulse lengths up to eight, and none when there are eight or more |
| Client.PulseFieldSpaced | homeduino/homeduino.py:244-245 | the pulse field is the pulse lengths' decimal tokens, each followed by one space |
| Client.ZeroFieldSpaced | homeduino/homeduino.py:247-250 | the padding is that many `0` tokens, each followed by one space |
| Client.RfSendPacketTokens | homeduino/homeduino.py:242-252 | the packet splits at spaces into `RF`, `send`, the pin, `3`, the pulse lengths, zeros up to eight, and the encoded values, when the encoded values contain no space |
| Client.PulseFieldWidth | homeduino/homeduino.py:247-250 | the pulse field has eight tokens, or all the pulse lengths when there are more than eight |
| Client.RegisteredMembers | homeduino/homeduino.py:210-211 | a deferred callback is attached exactly when it is not `None` |
| Client.BootStopsAtReady | homeduino/homeduino.py:205-206 | once a chunk sets `ready`, the chunks after it have no effect on the wait |
| Client.BootCallsNothing | homeduino/homeduino.py:205-211 | no receive callback is called while `connect` waits, because none is attached to the new protocol yet |
| Client.ReadyChunkConnects | homeduino/homeduino.py:205-206 | a gateway that sends `ready` with CR LF ends the wait with nothing buffered, queued or called |
| Client.AwaitReady | homeduino/homeduino.py:205-206 | the wait leaves the protocol exactly as the chunks fed through `data_received` in order, up to the one that sets `ready`, leave it; it writes nothing and attaches no callback |
| Client.Handshake | homeduino/homeduino.py:208-211 | after `ready`, writes only `RF receive <interrupt>`, takes the newest queued line as its response, and attaches the deferred callbacks other than `None`, in order; the buffer and the call log stay as they were |
| Client.Homeduino.constructor | homeduino/homeduino.py:166-186 | the receive interrupt is the receive pin minus 2, and nothing is connected yet |
| Client.Homeduino.Connect | homeduino/homeduino.py:188-215 | once a transport is set, returns `false` and changes nothing. When the port does not open, it fails with nothing set. Otherwise it attaches a fresh protocol whose buffer and `ready` are what the gateway's chunks leave, and which has called no callback. It returns `true` exactly when `ready` arrived: it has then written only `RF receive <receive pin - 2>`, its queue is what the chunks queued minus the newest line, and it holds the deferred callbacks other than `None`, in order. Otherwise it has written nothing, and its queue is what the chunks queued |
| Client.Homeduino.Disconnect | homeduino/homeduino.py:217-220 | the protocol loses its transport and `ready`, and its buffer, queue, callbacks, writes and call log stay as they were; `transport` stays set, so a later `Connect` returns `false` |
| Client.Homeduino.Ping | homeduino/homeduino.py:222-229 | true exactly when there is a protocol, it is attached and ready, and the newest queued line is `PING <token>` itself. Whenever the protocol is attached and ready, it writes `PING <token>` and the queue loses its newest line; otherwise it writes nothing and the queue stays. The transport, `ready`, the buffer, the callbacks and the call log never change |
| Client.Homeduino.AddRfReceiveCallback | homeduino/homeduino.py:231-235 | with a protocol, the callback goes straight to it (`None` ignored) and nothing else of the protocol changes; without one, it is deferred (`None` included) |
| Client.Homeduino.RfSend | homeduino/homeduino.py:237-256 | without a protocol or a send pin, returns `false`, and writes and takes nothing. An unknown codec protocol raises, again with nothing written or taken. Otherwise, when the protocol is attached and ready, it writes exactly the `RF send` packet and the queue loses its newest line; it returns true exactly when that line is `ACK`. The protocol's transport, `ready`, buffer, callbacks and call log never change |
| Client.Homeduino.Send | homeduino/homeduino.py:258-261 | without a protocol, returns `None`. Otherwise, when the protocol is attached and ready, it writes the command and returns the newest queued line, which the queue loses; otherwise it writes nothing and returns `None`. Nothing else of the protocol changes |

## Left out

- The asyncio and `serial_asyncio` plumbing is not modelled: the event loop, `create_serial_connection`, `transport.close()` and the `loop` arguments (homeduino/homeduino.py:34-43, 184-203). An attached transport is a boolean, and what `transport.write` sends is the text in the ghost log `written`, not its encoded bytes.
- Protocol.HomeduinoProtocol.Send: the `_tx_busy` spin (lines 123-125) is not modelled. No `await` lies between setting and clearing the flag, so no other caller can observe it set; `Valid()` keeps it false between calls. The response wait (lines 137-142) never yields, so it is one look at the queue; its clock and timeout are left out.
- Concurrency is left out: callers interleaving at `await` points, such as a callback registered while `connect` sleeps.
- Client.Homeduino.Connect: the sleep-polling wait for `ready` (lines 205-206) is modelled as the chunks `boot` fed through `data_received` in order until one sets `ready` (the function `Boot`); the chunks after that one arrive later and are not part of the call. `AwaitingReady` stands for a `connect` that never returns. What a chunk's `data_received` raises during the wait is not propagated; the model goes on with the state that chunk left.
- Client.Homeduino.Disconnect: `transport.close()` and the `connection_lost` call that follows it later are modelled as one step.
- The RF codec is not modelled. `controller.decode_pulses`, the `getattr` protocol lookup, `pulse_lengths` and `encode(**values)` are parameters. What the receive callbacks do is not modelled; they are assumed to return normally.
- The ping token comes from `time.time()` in the source; here it is a parameter.
- Logging, `handle_key_press` (it only logs), the `os.path.exists` warning (lines 175-176) and the unused `_ack` attribute are left out.
- The class-level lists (`rf_receive_callbacks` at lines 23 and 164, the `str_buffer` deque at line 32) are shared by all instances in Python. Here each instance has its own.
- Text.ParseInt: accepts ASCII digits, an optional sign, surrounding whitespace and single underscores. Python's `int()` also accepts the decimal digits of other scripts; those are not modelled. Python's `int()` and `str()` also raise `ValueError` on integers of more than 4300 digits; that limit is not modelled, so `ParseInt` and `IntToString` accept integers of any length.
- `homeduino/__main__.py` (command-line entry point), `homeduino/__init__.py` (re-exports only) and the tests (they need hardware) are not part of this model.
