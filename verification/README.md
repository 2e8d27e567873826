# esb-bridge: a Dafny model of the USB framing transport and the ESB bridge

This project models the two layers of the esb-bridge host library that sit between
a serial-attached radio transceiver and its users, and proves properties of that model.

- **USB framing transport** (`internal/usbprotocol/usbprotocol.go`, module `UsbProtocol`).
  Every exchange with the device is a 64-byte frame. It holds the sync byte `0x69`, a
  command byte, a status byte, a length byte, a payload of up to 58 bytes padded with zeros,
  and a little-endian CRC-16/CCITT-FALSE over the first 62 bytes. The model covers:
  - the frame-building half of `Transfer` and its answer check;
  - one iteration of the serial reader, which validates a read and decodes a message;
  - `RegisterCallback`;
  - the receive step. It hands an inbound message to every callback registered for its
    command. If no callback matches, it forwards the message to the waiting transfer.
- **CRC-16/CCITT-FALSE** (module `Crc16`). The CRC uses polynomial 0x1021, initial value
  0xFFFF, no reflection and no final XOR. It is defined bit by bit, not through a table.
- **ESB bridge** (`pkg/esbbridge/esbbridge.go`, module `EsbBridge`). The model covers:
  - the `connected` flag and the listener registry, as an explicit `Bridge` state value;
  - `Transfer`: argument validation, and the outbound envelope (5-byte target address
    followed by the payload, sent under command `0x30`);
  - reply interpretation;
  - `GetFwVersion`, including its `"maj.min.patch"` formatting (module `Decimal`);
  - decoding of inbound `CmdRx` envelopes (source address, command byte, payload);
  - the listener filter with its two wildcards: all-zero address and command `0xFF`;
  - `AddListener`, and the fan-out loop.

The model has no I/O. It takes these as inputs:
- what a serial read or write returned;
- whether the answer or the timeout came first;
- what the transport returned to the bridge.

Channels become sequences. Callback invocations and listener deliveries are recorded
in order.

`esbbridge.go` is written against a newer version of the transport than the
`usbprotocol.go` it ships with: it uses `Message`, `AddListener` and `Transfer(Message)`.
The model meets that boundary with one `Message(cmd, err, payload)` type and a
`TransportReply` input.

The model follows the code as written:
- The reader trusts the length byte of an accepted frame. A length of 59 or 60 pulls CRC
  bytes into the payload. A larger length makes the Go slice expression panic. The end index
  is computed in 8-bit arithmetic and wraps, and the model computes it the same way. This
  becomes the explicit `Crash` outcome; such frames are not dropped.
- A write that reports any byte count other than 64 fails with `ErrSerial`.
- `Close` never clears `connected`.
- A `CmdRx` payload shorter than 6 bytes ends the bridge's receive loop for good. The
  loop does not just skip that message.
- The package test at `pkg/esbbridge/esbbridge_test.go:79-82` expects a 2-byte payload to
  be refused. The code accepts any length from 1 to 32, and so does the model.
- No mutual exclusion of concurrent transfers exists in the code, so none is modelled.
- A message that no callback takes is not dropped when no transfer is waiting. The send to
  the answer channel blocks until some transfer receives it, so a stale message becomes the
  answer of the next transfer. That transfer then usually fails with `ErrCmdMismatch`. The
  receive loop records forwarded answers in order. Which answer a transfer sees is its
  `Answer` input.

## Model

| member | source | states |
|---|---|---|
| `Crc16.CheckValue` | internal/usbprotocol/usbprotocol.go:276-279 | the checksum is CRC-16/CCITT-FALSE: it gives the catalogue check value 0x29B1 for ASCII "123456789" |
| `Crc16.SingleByteChangeDetected` | internal/usbprotocol/usbprotocol.go:240-245 | changing any one byte of the checked data changes its CRC |
| `UsbProtocol.EncodeFrame` | internal/usbprotocol/usbprotocol.go:146-162 | the request frame is 64 bytes: sync 0x69, cmd, status 0, payload length, payload, zeros up to index 61, then the CRC of bytes 0-61 read little-endian from bytes 62-63 |
| `UsbProtocol.DecodeFrame` | internal/usbprotocol/usbprotocol.go:226-253 | a read is dropped exactly when it failed, is not 64 bytes, lacks the sync byte or fails the CRC; an accepted frame with a length byte above 60 panics; otherwise cmd, status and `length` payload bytes from index 4 are delivered |
| `UsbProtocol.PayloadEnd` | internal/usbprotocol/usbprotocol.go:248-253 | the payload slice end is `4 + length` computed in 8 bits; it lies within the 64-byte buffer exactly when the length byte is at most 60, and then equals 4 + length; for length bytes from 252 up it wraps to `length - 252` |
| `UsbProtocol.RoundTrip` | internal/usbprotocol/usbprotocol.go:146-162 | decoding the frame encoded for any payload of at most 58 bytes delivers the same command, status 0 and exactly that payload |
| `UsbProtocol.SingleByteCorruptionDropped` | internal/usbprotocol/usbprotocol.go:236-245 | an accepted frame with any single byte changed, CRC bytes included, is dropped |
| `UsbProtocol.OverlongLengthReadsCrc` | internal/usbprotocol/usbprotocol.go:247-253 | an accepted frame whose length byte is 59 or 60 is delivered with the low CRC byte inside its payload |
| `UsbProtocol.DeliveredPayloadBound` | internal/usbprotocol/usbprotocol.go:247-253 | a delivered payload never exceeds the 60 bytes after the header |
| `UsbProtocol.CodeInjective` | internal/usbprotocol/usbprotocol.go:36-50 | the numeric codes 1-5 of the transport's own errors tell them apart: two errors share a code exactly when they are the same error |
| `UsbProtocol.Transfer` | internal/usbprotocol/usbprotocol.go:142-189 | over 58 bytes fails with ErrSize and writes nothing; otherwise the encoded frame is written; a write error is returned unchanged, a short write gives ErrSerial; after a full write, a timeout gives ErrTimeout and an answer with another command gives ErrCmdMismatch; success iff the full frame was written and an answer with the same command arrived, returning its status and payload |
| `UsbProtocol.RegisterCallback` | internal/usbprotocol/usbprotocol.go:261-270 | a nil handler gives ErrParam and leaves the table alone; otherwise the callback is appended and earlier entries are untouched |
| `UsbProtocol.MatchingCallbacks` | internal/usbprotocol/usbprotocol.go:207-208 | the positions, in registration order and each once, of exactly the callbacks registered for the command |
| `UsbProtocol.ReceiveStep` | internal/usbprotocol/usbprotocol.go:196-216 | registration appends a non-nil callback; an inbound message leaves the table unchanged, calls every matching callback in registration order with its status and payload, and is forwarded as the answer iff no callback matched |
| `UsbProtocol.RegisterThenReceive` | internal/usbprotocol/usbprotocol.go:198-202 | registering through the receive loop gives the same table as `RegisterCallback` |
| `UsbProtocol.ReceiveLoopExtendsTable` | internal/usbprotocol/usbprotocol.go:193-202 | over any run of events the callback table only grows: the old table stays its prefix |
| `UsbProtocol.ReceiveLoopNeverAnswersCallbackCommand` | internal/usbprotocol/usbprotocol.go:204-215 | once a callback for a command is registered, no later answer carries that command |
| `UsbProtocol.CallbackCommandNeverAnswers` | internal/usbprotocol/usbprotocol.go:176-184 | a transfer for a command that has a callback can only end in a command mismatch on any forwarded answer |
| `Decimal.ValueOfShow` | pkg/esbbridge/esbbridge.go:101 | the decimal rendering of a number reads back as that number |
| `Decimal.DottedFields` | pkg/esbbridge/esbbridge.go:101 | "a.b.c" splits at its dots into exactly the canonical decimal renderings of a, b and c, which read back as a, b and c |
| `EsbBridge.Open` | pkg/esbbridge/esbbridge.go:61-76 | a failed transport open leaves the state and reports it; otherwise the bridge is connected even if subscribing to CmdRx failed, and that subscription failure is the error returned |
| `EsbBridge.Close` | pkg/esbbridge/esbbridge.go:79-81 | closing leaves `connected` and the listeners as they were |
| `EsbBridge.CloseKeepsConnected` | pkg/esbbridge/esbbridge.go:79-81 | after a successful open and a close, a valid transfer still passes validation |
| `EsbBridge.TransferRequest` | pkg/esbbridge/esbbridge.go:111-130 | not connected, nil, over 32 bytes and empty are each refused with their own error; exactly 1-32 bytes on a connected bridge give a request under cmd 0x30 carrying address then payload |
| `EsbBridge.TwoBytePayloadAccepted` | pkg/esbbridge/esbbridge.go:120-125 | a 2-byte payload is accepted |
| `EsbBridge.InterpretReply` | pkg/esbbridge/esbbridge.go:134-142 | a nonzero device status is an error even with a transport error; otherwise a transport error is passed on; otherwise the answer payload is returned unchanged |
| `EsbBridge.Transfer` | pkg/esbbridge/esbbridge.go:111-143 | the transport is reached iff connected with a 1-32 byte payload, with a request under cmd 0x30, status 0, the address in the first 5 bytes and the payload after it; the result is then the interpreted reply, else the validation error |
| `EsbBridge.TransferRequestFitsTransport` | pkg/esbbridge/esbbridge.go:127-130 | every request sent carries 6 to 37 bytes, within the transport's 58 |
| `EsbBridge.TransferRequestIsEnvelope` | pkg/esbbridge/esbbridge.go:127-130 | the outbound payload decodes as an envelope to the target whose command is the first application byte |
| `EsbBridge.GetFwVersion` | pkg/esbbridge/esbbridge.go:85-102 | not connected gives an error and sends nothing; otherwise the version command with status 0 and no payload is sent, and a nonzero status or a transport error each give their error (status first); it succeeds exactly when connected with status 0 and no transport error |
| `EsbBridge.FwVersionFields` | pkg/esbbridge/esbbridge.go:101 | on success the string is three dot-separated fields, each the decimal of one of the first three answer bytes without leading zeros, reading back as that byte |
| `EsbBridge.NeverOpenedRefuses` | pkg/esbbridge/esbbridge.go:85-114 | before any `Open`, both `Transfer` and `GetFwVersion` fail with not-connected and send nothing |
| `EsbBridge.DecodeEnvelope` | pkg/esbbridge/esbbridge.go:172-183 | payloads shorter than 6 bytes give no message; otherwise address, command and rest re-encode to exactly the payload |
| `EsbBridge.EnvelopeRoundTrip` | pkg/esbbridge/esbbridge.go:176-183 | decoding address ++ [cmd] ++ payload gives back that address, command and payload |
| `EsbBridge.MatchesWildcards` | pkg/esbbridge/esbbridge.go:186-188 | a listener with both wildcards takes every message; one with neither takes exactly its address and command |
| `EsbBridge.FilterExamples` | pkg/esbbridge/esbbridge.go:187-188 | wildcard address with cmd 0x05 takes 0x05 from any sender but not 0x06; address 1.2.3.4.5 with wildcard cmd takes any command from it and nothing from 1.2.3.4.6 |
| `EsbBridge.AddListener` | pkg/esbbridge/esbbridge.go:149-158 | a nil channel is refused and the registry is unchanged; otherwise the listener is appended and earlier ones are untouched |
| `EsbBridge.FanOut` | pkg/esbbridge/esbbridge.go:185-191 | each matching listener gets the message exactly once, in registration order, on its own channel; no non-matching listener gets it |
| `EsbBridge.FanOutAppend` | pkg/esbbridge/esbbridge.go:155 | a newly registered listener leaves deliveries to earlier listeners unchanged and can only add one delivery at the end |
| `EsbBridge.RxLoop` | pkg/esbbridge/esbbridge.go:164-193 | messages are fanned out in arrival order until the first one shorter than 6 bytes, which ends the loop; nothing after it is delivered |

Four definitions carry no contract of their own; their properties are stated by these rows:
- `Crc16.Checksum` (internal/usbprotocol/usbprotocol.go:159 and 241) is stated by the
  `Crc16.CheckValue` and `Crc16.SingleByteChangeDetected` rows.
- `UsbProtocol.FrameAccepted` (internal/usbprotocol/usbprotocol.go:231-245) is stated by
  the `UsbProtocol.DecodeFrame` and `UsbProtocol.SingleByteCorruptionDropped` rows.
- `UsbProtocol.ReceiveLoop` (internal/usbprotocol/usbprotocol.go:196-217) is stated by the
  `UsbProtocol.ReceiveLoopExtendsTable` and `UsbProtocol.ReceiveLoopNeverAnswersCallbackCommand` rows.
- `EsbBridge.Matches` (pkg/esbbridge/esbbridge.go:187-188) is stated by the
  `EsbBridge.MatchesWildcards`, `EsbBridge.FilterExamples` and `EsbBridge.FanOut` rows.

## Left out

- Serial port I/O: `Open`, `Close`, `port.Read`, `port.Write` and the 115200-baud
  configuration (`internal/usbprotocol/usbprotocol.go:110-134`). What a read or write
  returned is an input.
- Goroutines, channels, `select` and `time.After`. Each loop iteration is a pure step, and
  whether the answer or the timeout came first is an input. Because of this, the
  configurable `TimeoutMillis` has no effect in the model. The blocking of a full listener
  channel is not modelled; each delivery is recorded as it is made.
- The `sigurn/crc16` library is not part of this model. The checksum is defined
  algorithmically and pinned by its catalogue check value.
- Error messages and `fmt` text. Errors are datatype constructors; the transport's own
  errors carry their codes 1-5.
- The Go distinction between a nil and an empty slice. It does not matter where the
  transport encodes a payload: both give length 0. It also does not matter for a decoded
  envelope with no payload bytes. Both are the empty sequence here. `EsbBridge.Transfer`
  does keep the distinction, because it refuses nil and empty payloads with different errors.
- The unsynchronised sharing of `listeners` between `AddListener` and the receive loop.
  `EsbBridge.RxLoop` works on one snapshot of the registry.
- A transfer before `Open`, which dereferences a nil port in the code.
- How the crash of the reader goroutine (`Crash`) affects the rest of the process.
- `EsbBridge.GetFwVersion`: it requires a successful answer to carry at least three bytes,
  because the code indexes them without a check and would panic.
- Constants the modelled operations never use: `DefaultTimeout`/`TimeoutMillis` (the
  timeout is an input), the test and interrupt commands `CmdTest` and `CmdIrq`, and the
  bridge's fire-and-forget command `UsbCmdSend`, which no function of `esbbridge.go` sends.
- `pkg/server/server.go` (RPC plumbing, an echo stub and a fixed three-message forwarding
  loop) and the hardware-dependent tests are not part of this model.
