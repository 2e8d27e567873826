/**
  The USB framing transport: fixed 64-byte frames with a sync byte, a
  command byte, a status byte, a length byte, a zero-padded payload and a
  little-endian CRC-16/CCITT-FALSE; the answer check of a transfer; and the
  receive step that routes each inbound message either to the registered
  callbacks for its command or to the single waiting transfer.

  Serial I/O, goroutines, channels and the timer are not modelled: what a
  read or a write returned, and whether an answer or the timeout came
  first, are inputs.
 */
module UsbProtocol {
  import opened Common
  import Crc16

  /** Every frame on the wire has exactly this many bytes. */
  const PacketSize: nat := 64
  /** Largest payload: the frame minus 4 header bytes and 2 CRC bytes. */
  const MaxPayloadLen: nat := PacketSize - 4 - 2
  /** Marks the beginning of a frame. */
  const SyncByte: byte := 0x69

  const IdxSync: nat := 0
  const IdxCmd: nat := 1
  const IdxErr: nat := 2
  const IdxLen: nat := 3
  const IdxPayload: nat := 4
  /** Position of the low CRC byte; the high byte follows it. */
  const IdxCrc: nat := PacketSize - 2

  /** The command under which the device forwards received radio messages. */
  const CmdRx: byte := 0x81

  /**
    The errors of the transport. `PortFailure` stands for whatever error
    the serial port itself reported; it is passed through untouched.
   */
  datatype Error =
    | ErrSize
    | ErrCmdMismatch
    | ErrSerial
    | ErrTimeout
    | ErrParam
    | PortFailure(detail: nat)
  {
    /** The numeric code of the transport's own errors. */
    function Code(): (c: nat)
      requires !PortFailure?
      ensures 1 <= c <= 5
    {
      match this
      case ErrSize => 1
      case ErrCmdMismatch => 2
      case ErrSerial => 3
      case ErrTimeout => 4
      case ErrParam => 5
    }
  }

  /** The codes tell the transport's own errors apart. */
  lemma CodeInjective(a: Error, b: Error)
    requires !a.PortFailure? && !b.PortFailure?
    ensures a.Code() == b.Code() <==> a == b
  {
  }

  /** A message built from, or to be put into, one frame. */
  datatype Message = Message(cmd: byte, err: byte, payload: seq<byte>)

  /*------------------------------------------------------------------------
    Frame encoding and decoding
  ------------------------------------------------------------------------*/

  function LowByte(w: bv16): byte {
    (w & 0xFF) as byte
  }

  function HighByte(w: bv16): byte {
    (w >> 8) as byte
  }

  /** The 16-bit value stored little-endian as `lo`, `hi`. */
  function LittleEndian(lo: byte, hi: byte): bv16 {
    ((hi as bv16) << 8) | (lo as bv16)
  }

  lemma LittleEndianOfBytes(w: bv16)
    ensures LittleEndian(LowByte(w), HighByte(w)) == w
  {
  }

  lemma LittleEndianInjective(lo1: byte, hi1: byte, lo2: byte, hi2: byte)
    requires LittleEndian(lo1, hi1) == LittleEndian(lo2, hi2)
    ensures lo1 == lo2 && hi1 == hi2
  {
    assert LowByte(LittleEndian(lo1, hi1)) == lo1;
    assert LowByte(LittleEndian(lo2, hi2)) == lo2;
    assert HighByte(LittleEndian(lo1, hi1)) == hi1;
    assert HighByte(LittleEndian(lo2, hi2)) == hi2;
  }

  /** The length byte of a payload that fits in a frame. */
  function LengthByte(n: nat): (b: byte)
    requires n <= MaxPayloadLen
    ensures b as nat == n
  {
    n as byte
  }

  /** The first 62 bytes of an outbound frame: header, payload, zero padding. */
  function FrameBody(cmd: byte, payload: seq<byte>): (body: seq<byte>)
    requires |payload| <= MaxPayloadLen
    ensures |body| == IdxCrc
    ensures body[IdxSync] == SyncByte && body[IdxCmd] == cmd && body[IdxErr] == 0
    ensures body[IdxLen] as nat == |payload|
    ensures body[IdxPayload..IdxPayload + |payload|] == payload
    ensures forall i :: IdxPayload + |payload| <= i < IdxCrc ==> body[i] == 0
  {
    var header: seq<byte> := [SyncByte, cmd, 0, LengthByte(|payload|)];
    var pad := Zeros(MaxPayloadLen - |payload|);
    var body := header + payload + pad;
    assert body[IdxPayload..IdxPayload + |payload|] == payload;
    assert forall i :: IdxPayload + |payload| <= i < IdxCrc ==> body[i] == pad[i - IdxPayload - |payload|];
    body
  }

  /**
    The frame a transfer writes for `cmd` and `payload`. A nil payload is
    encoded like an empty one, so the model does not distinguish them.
   */
  function EncodeFrame(cmd: byte, payload: seq<byte>): (f: seq<byte>)
    requires |payload| <= MaxPayloadLen
    ensures |f| == PacketSize
    ensures f[IdxSync] == SyncByte && f[IdxCmd] == cmd && f[IdxErr] == 0
    ensures f[IdxLen] as nat == |payload|
    ensures f[IdxPayload..IdxPayload + |payload|] == payload
    ensures forall i :: IdxPayload + |payload| <= i < IdxCrc ==> f[i] == 0
    ensures LittleEndian(f[IdxCrc], f[IdxCrc + 1]) == Crc16.Checksum(f[..IdxCrc])
  {
    var body := FrameBody(cmd, payload);
    var crc := Crc16.Checksum(body);
    LittleEndianOfBytes(crc);
    var f := body + [LowByte(crc), HighByte(crc)];
    assert f[..IdxCrc] == body;
    assert forall i :: 0 <= i < IdxCrc ==> f[i] == body[i];
    assert f[IdxPayload..IdxPayload + |payload|] == body[IdxPayload..IdxPayload + |payload|];
    f
  }

  /** What one read of the serial port returned. */
  datatype ReadResult =
    | ReadFailed
    | ReadBytes(data: seq<byte>)

  /**
    What the reader does with one read: drops it, hands a message on to
    the receive step, or panics on an out-of-range slice.
   */
  datatype Reception =
    | Dropped
    | Delivered(msg: Message)
    | Crash

  /** A buffer passes the reader's three checks: full size, sync byte and CRC. */
  predicate FrameAccepted(buf: seq<byte>) {
    && |buf| == PacketSize
    && buf[IdxSync] == SyncByte
    && LittleEndian(buf[IdxCrc], buf[IdxCrc + 1]) == Crc16.Checksum(buf[..IdxCrc])
  }

  /**
    The end of the payload slice, `idxPayload + payloadLen` evaluated in
    8-bit arithmetic: it wraps for length bytes from 252 up, and it lies
    inside the 64-byte buffer exactly when the length byte is at most 60.
   */
  function PayloadEnd(len: byte): (hi: nat)
    ensures hi < 256
    ensures IdxPayload <= hi <= PacketSize <==> len as nat <= PacketSize - IdxPayload
    ensures IdxPayload <= hi ==> hi == IdxPayload + len as nat
    ensures len as nat >= 256 - IdxPayload ==> hi == len as nat + IdxPayload - 256
  {
    (IdxPayload + len as nat) % 256
  }

  /**
    One iteration of the reader. The length byte is trusted: the end of
    the payload slice is computed in 8-bit arithmetic, and a slice that
    runs past the 64-byte buffer (or wraps below its start) panics.
   */
  function DecodeFrame(r: ReadResult): (out: Reception)
    ensures out.Dropped? <==> (r.ReadFailed? || !FrameAccepted(r.data))
    ensures out.Crash? <==> (r.ReadBytes? && FrameAccepted(r.data) && r.data[IdxLen] as nat > PacketSize - IdxPayload)
    ensures out.Delivered? ==>
      && out.msg.cmd == r.data[IdxCmd]
      && out.msg.err == r.data[IdxErr]
      && |out.msg.payload| == r.data[IdxLen] as nat
      && out.msg.payload == r.data[IdxPayload..IdxPayload + |out.msg.payload|]
  {
    if r.ReadFailed? || |r.data| != PacketSize then Dropped
    else if r.data[IdxSync] != SyncByte then Dropped
    else if Crc16.Checksum(r.data[..IdxCrc]) != LittleEndian(r.data[IdxCrc], r.data[IdxCrc + 1]) then Dropped
    else
      var hi := PayloadEnd(r.data[IdxLen]);
      if hi < IdxPayload || hi > PacketSize then Crash
      else Delivered(Message(r.data[IdxCmd], r.data[IdxErr], r.data[IdxPayload..hi]))
  }

  /** Decoding a frame the encoder built gives back its command, status 0 and the exact payload. */
  lemma RoundTrip(cmd: byte, payload: seq<byte>)
    requires |payload| <= MaxPayloadLen
    ensures DecodeFrame(ReadBytes(EncodeFrame(cmd, payload))) == Delivered(Message(cmd, 0, payload))
  {
  }

  /** A frame with one byte changed, anywhere, is dropped: the CRC catches it. */
  lemma SingleByteCorruptionDropped(buf: seq<byte>, i: nat, v: byte)
    requires FrameAccepted(buf)
    requires i < |buf| && v != buf[i]
    ensures DecodeFrame(ReadBytes(buf[i := v])).Dropped?
  {
    var bad := buf[i := v];
    if i < IdxCrc {
      assert bad[..IdxCrc] == buf[..IdxCrc][i := v];
      Crc16.SingleByteChangeDetected(buf[..IdxCrc], i, v);
    } else {
      assert bad[..IdxCrc] == buf[..IdxCrc];
      if LittleEndian(bad[IdxCrc], bad[IdxCrc + 1]) == LittleEndian(buf[IdxCrc], buf[IdxCrc + 1]) {
        LittleEndianInjective(bad[IdxCrc], bad[IdxCrc + 1], buf[IdxCrc], buf[IdxCrc + 1]);
      }
    }
  }

  /**
    A length byte of 59 or 60 on an accepted frame is believed: the
    delivered payload runs into the CRC bytes.
   */
  lemma OverlongLengthReadsCrc(buf: seq<byte>)
    requires FrameAccepted(buf)
    requires buf[IdxLen] as nat == MaxPayloadLen + 1 || buf[IdxLen] as nat == MaxPayloadLen + 2
    ensures DecodeFrame(ReadBytes(buf)).Delivered?
    ensures var p := DecodeFrame(ReadBytes(buf)).msg.payload;
      |p| > MaxPayloadLen && p[MaxPayloadLen] == buf[IdxCrc]
  {
  }

  /** Every message the reader delivers has a payload of at most 60 bytes. */
  lemma DeliveredPayloadBound(r: ReadResult)
    requires DecodeFrame(r).Delivered?
    ensures |DecodeFrame(r).msg.payload| <= PacketSize - IdxPayload
  {
  }

  /*------------------------------------------------------------------------
    Transfer: build the frame, write it, check the answer
  ------------------------------------------------------------------------*/

  /** What writing the frame to the serial port returned. */
  datatype WriteResult =
    | WriteFailed(e: Error)
    | Written(count: nat)

  /** What reached the waiting transfer first: an answer message or the timeout. */
  datatype Answer =
    | Answered(msg: Message)
    | TimedOut

  /**
    The observable effect of one transfer: the bytes handed to the port
    (empty when nothing was written) and the returned status byte, answer
    payload and error.
   */
  datatype TransferResult = TransferResult(written: seq<byte>, status: byte, payload: seq<byte>, err: Option<Error>)

  /** The value every failing transfer returns besides its error. */
  function Failed(written: seq<byte>, e: Error): TransferResult {
    TransferResult(written, 0, [], Some(e))
  }

  /** Sends `payload` under `cmd` and waits for the answer. */
  function Transfer(cmd: byte, payload: seq<byte>, write: WriteResult, answer: Answer): (r: TransferResult)
    ensures |payload| > MaxPayloadLen ==> r == Failed([], ErrSize)
    ensures |payload| <= MaxPayloadLen ==> r.written == EncodeFrame(cmd, payload)
    ensures |payload| <= MaxPayloadLen && write.WriteFailed? ==> r.err == Some(write.e)
    ensures |payload| <= MaxPayloadLen && write.Written? && write.count != PacketSize ==> r.err == Some(ErrSerial)
    ensures |payload| <= MaxPayloadLen && write == Written(PacketSize) && answer.TimedOut? ==> r.err == Some(ErrTimeout)
    ensures |payload| <= MaxPayloadLen && write == Written(PacketSize) && answer.Answered? && answer.msg.cmd != cmd ==>
      r.err == Some(ErrCmdMismatch)
    ensures r.err.None? <==>
      (|payload| <= MaxPayloadLen && write == Written(PacketSize) && answer.Answered? && answer.msg.cmd == cmd)
    ensures r.err.None? ==> r.status == answer.msg.err && r.payload == answer.msg.payload
    ensures r.err.Some? ==> r.status == 0 && r.payload == []
  {
    if |payload| > MaxPayloadLen then Failed([], ErrSize)
    else
      var frame := EncodeFrame(cmd, payload);
      match write
      case WriteFailed(e) => Failed(frame, e)
      case Written(n) =>
        if n != PacketSize then Failed(frame, ErrSerial)
        else
          match answer
          case TimedOut => Failed(frame, ErrTimeout)
          case Answered(m) =>
            if m.cmd != cmd then Failed(frame, ErrCmdMismatch)
            else TransferResult(frame, m.err, m.payload, None)
  }

  /*------------------------------------------------------------------------
    Callback registration and the receive step
  ------------------------------------------------------------------------*/

  /** Identity of a callback function; where a handler may be nil it is an `Option<HandlerId>`. */
  type HandlerId = nat

  /** An entry of the callback table. */
  datatype Callback = Callback(cmd: byte, handler: HandlerId)

  /** One callback invocation with the status byte and payload of the message. */
  datatype Call = Call(handler: HandlerId, err: byte, payload: seq<byte>)

  /** The table after `RegisterCallback`, and the error it returns. */
  function RegisterCallback(table: seq<Callback>, cmd: byte, handler: Option<HandlerId>): (r: (seq<Callback>, Option<Error>))
    ensures handler.None? ==> r == (table, Some(ErrParam))
    ensures handler.Some? ==> r.1.None? && |r.0| == |table| + 1
    ensures handler.Some? ==> r.0[..|table|] == table && r.0[|table|] == Callback(cmd, handler.value)
  {
    if handler.None? then (table, Some(ErrParam))
    else (table + [Callback(cmd, handler.value)], None)
  }

  /** An event the receive loop takes from its channels. */
  datatype Event =
    | RegisterEvent(cmd: byte, handler: Option<HandlerId>)
    | InboundEvent(msg: Message)

  /**
    The effect of one event: the new table, the callbacks invoked (in
    order) and the message forwarded to the waiting transfer, if any.
   */
  datatype StepResult = StepResult(table: seq<Callback>, calls: seq<Call>, answer: Option<Message>)

  /** The positions, in registration order, of the callbacks registered for `cmd`. */
  function MatchingCallbacks(table: seq<Callback>, cmd: byte): (ix: seq<nat>)
    ensures forall k :: 0 <= k < |ix| ==> ix[k] < |table| && table[ix[k]].cmd == cmd
    ensures forall i :: 0 <= i < |table| && table[i].cmd == cmd ==> i in ix
    ensures forall k, l :: 0 <= k < l < |ix| ==> ix[k] < ix[l]
    ensures |ix| == 0 <==> forall i :: 0 <= i < |table| ==> table[i].cmd != cmd
  {
    IndicesWhere(table, (c: Callback) => c.cmd == cmd)
  }

  /** One iteration of the receive loop. */
  function ReceiveStep(table: seq<Callback>, ev: Event): (r: StepResult)
    ensures ev.RegisterEvent? ==> r.calls == [] && r.answer.None?
    ensures ev.RegisterEvent? && ev.handler.None? ==> r.table == table
    ensures ev.RegisterEvent? && ev.handler.Some? ==> r.table == table + [Callback(ev.cmd, ev.handler.value)]
    ensures ev.InboundEvent? ==> r.table == table
    ensures ev.InboundEvent? ==>
      var ix := MatchingCallbacks(table, ev.msg.cmd);
      && |r.calls| == |ix|
      && forall k :: 0 <= k < |ix| ==> r.calls[k] == Call(table[ix[k]].handler, ev.msg.err, ev.msg.payload)
    ensures ev.InboundEvent? ==>
      (r.answer == Some(ev.msg) <==> forall i :: 0 <= i < |table| ==> table[i].cmd != ev.msg.cmd)
    ensures ev.InboundEvent? ==> (r.answer.None? <==> r.calls != [])
  {
    match ev
    case RegisterEvent(cmd, h) =>
      if h.Some? then StepResult(table + [Callback(cmd, h.value)], [], None)
      else StepResult(table, [], None)
    case InboundEvent(msg) =>
      var ix := MatchingCallbacks(table, msg.cmd);
      var calls := seq(|ix|, k requires 0 <= k < |ix| => Call(table[ix[k]].handler, msg.err, msg.payload));
      StepResult(table, calls, if |ix| == 0 then Some(msg) else None)
  }

  /** The accumulated effect of the receive loop over several events. */
  datatype LoopResult = LoopResult(table: seq<Callback>, calls: seq<Call>, answers: seq<Message>)

  /** The receive loop over a sequence of events: final table, and all calls and answers in order. */
  function ReceiveLoop(table: seq<Callback>, events: seq<Event>): LoopResult
    decreases |events|
  {
    if |events| == 0 then LoopResult(table, [], [])
    else
      var first := ReceiveStep(table, events[0]);
      var rest := ReceiveLoop(first.table, events[1..]);
      var answered := if first.answer.Some? then [first.answer.value] else [];
      LoopResult(rest.table, first.calls + rest.calls, answered + rest.answers)
  }

  /** Registrations persist: the receive loop only ever appends to the callback table. */
  lemma {:induction false} ReceiveLoopExtendsTable(table: seq<Callback>, events: seq<Event>)
    ensures |table| <= |ReceiveLoop(table, events).table|
    ensures ReceiveLoop(table, events).table[..|table|] == table
    decreases |events|
  {
    if |events| > 0 {
      var first := ReceiveStep(table, events[0]);
      ReceiveLoopExtendsTable(first.table, events[1..]);
      assert first.table[..|table|] == table;
    }
  }

  /**
    Once a callback for `cmd` is in the table, no message with command
    `cmd` is ever forwarded as an answer, however many events follow.
   */
  lemma {:induction false} ReceiveLoopNeverAnswersCallbackCommand(table: seq<Callback>, events: seq<Event>, i: nat)
    requires i < |table|
    ensures forall k :: 0 <= k < |ReceiveLoop(table, events).answers| ==>
      ReceiveLoop(table, events).answers[k].cmd != table[i].cmd
    decreases |events|
  {
    if |events| > 0 {
      var first := ReceiveStep(table, events[0]);
      assert first.table[..|table|] == table;
      assert first.table[i] == table[i];
      ReceiveLoopNeverAnswersCallbackCommand(first.table, events[1..], i);
    }
  }

  /** Registration through `RegisterCallback` and through the receive loop agree. */
  lemma RegisterThenReceive(table: seq<Callback>, cmd: byte, handler: Option<HandlerId>)
    ensures ReceiveStep(table, RegisterEvent(cmd, handler)).table == RegisterCallback(table, cmd, handler).0
  {
  }

  /**
    A command with a registered callback can never complete a transfer:
    any message the receive step forwards as an answer carries another
    command, so the transfer fails with a command mismatch.
   */
  lemma CallbackCommandNeverAnswers(table: seq<Callback>, i: nat, msg: Message, payload: seq<byte>)
    requires i < |table|
    requires |payload| <= MaxPayloadLen
    requires ReceiveStep(table, InboundEvent(msg)).answer.Some?
    ensures Transfer(table[i].cmd, payload, Written(PacketSize), Answered(ReceiveStep(table, InboundEvent(msg)).answer.value)).err
      == Some(ErrCmdMismatch)
  {
  }
}
