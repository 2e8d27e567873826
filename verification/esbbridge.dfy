/**
  The ESB bridge: validation and envelope construction for transfers to a
  5-byte radio pipeline address, interpretation of the device's reply,
  the firmware-version query, decoding of inbound radio envelopes and
  their fan-out to the registered listeners.

  The transport underneath is seen only through its message type and a
  reply supplied as input; channels become per-listener delivery records.
 */
module EsbBridge {
  import opened Common
  import Usb = UsbProtocol
  import Decimal

  /** Only 5-byte pipeline addresses are supported. */
  const AddressSize: nat := 5
  /** Most bytes one ESB message can carry. */
  const MaxPayloadSize: nat := 32
  /** Smallest inbound payload: a source address and a command byte. */
  const EnvelopeHeaderSize: nat := AddressSize + 1

  const UsbCmdVersion: byte := 0x10
  const UsbCmdTransfer: byte := 0x30
  const UsbCmdRx: byte := 0x81

  /** Listener filter value that accepts every command. */
  const AnyCmd: byte := 0xFF

  type Address = a: seq<byte> | |a| == AddressSize witness [0, 0, 0, 0, 0]

  /** Listener filter value that accepts every source address. */
  const AnyAddress: Address := [0, 0, 0, 0, 0]

  /** A message exchanged between ESB devices. */
  datatype EsbMessage = EsbMessage(address: Address, cmd: byte, payload: seq<byte>)

  /** Identity of a listener's channel. */
  type SinkId = nat

  /** A registered listener: address filter, command filter and channel. */
  datatype Listener = Listener(sourceAddr: Address, cmd: byte, sink: SinkId)

  /** The package state: the connection flag and the listener registry. */
  datatype Bridge = Bridge(connected: bool, listeners: seq<Listener>)

  /** The package state before `Open`: not connected, no listeners. */
  const Initial: Bridge := Bridge(false, [])

  datatype EsbError =
    | NotConnected
    | OpenFailed(cause: Usb.Error)
    | NilPayload
    | PayloadTooLong
    | PayloadTooShort
    | DeviceError(status: byte)
    | TransportError(cause: Usb.Error)
    | NilChannel

  /** What the transport's transfer returned: the answer message and its error, if any. */
  datatype TransportReply = TransportReply(answer: Usb.Message, err: Option<Usb.Error>)

  /*------------------------------------------------------------------------
    Connection state
  ------------------------------------------------------------------------*/

  /**
    `Open`: when the transport opens, the bridge becomes connected and
    subscribes to the transport's `CmdRx` messages; the subscription's
    error, if any, is returned although the bridge stays connected.
   */
  function Open(b: Bridge, transportOpen: Option<Usb.Error>, subscribe: Option<Usb.Error>): (r: (Bridge, Option<EsbError>))
    ensures transportOpen.Some? ==> r == (b, Some(OpenFailed(transportOpen.value)))
    ensures transportOpen.None? ==> r.0 == b.(connected := true)
    ensures transportOpen.None? && subscribe.None? ==> r.1.None?
    ensures transportOpen.None? && subscribe.Some? ==> r.1 == Some(TransportError(subscribe.value))
  {
    if transportOpen.Some? then (b, Some(OpenFailed(transportOpen.value)))
    else (b.(connected := true), if subscribe.Some? then Some(TransportError(subscribe.value)) else None)
  }

  /** `Close` closes the transport but leaves the connection flag as it was. */
  function Close(b: Bridge): (r: Bridge)
    ensures r.connected == b.connected && r.listeners == b.listeners
  {
    b
  }

  /*------------------------------------------------------------------------
    Transfer
  ------------------------------------------------------------------------*/

  /**
    The request `Transfer` hands to the transport, or why it refuses to.
    A nil payload (`None`) and an empty one are refused separately.
   */
  function TransferRequest(b: Bridge, target: Address, payload: Option<seq<byte>>): (r: Result<Usb.Message, EsbError>)
    ensures !b.connected ==> r == Err(NotConnected)
    ensures b.connected && payload.None? ==> r == Err(NilPayload)
    ensures b.connected && payload.Some? && |payload.value| > MaxPayloadSize ==> r == Err(PayloadTooLong)
    ensures b.connected && payload.Some? && |payload.value| == 0 ==> r == Err(PayloadTooShort)
    ensures r.Ok? <==> b.connected && payload.Some? && 1 <= |payload.value| <= MaxPayloadSize
    ensures r.Ok? ==> r.value == Usb.Message(UsbCmdTransfer, 0, target + payload.value)
  {
    if !b.connected then Err(NotConnected)
    else if payload.None? then Err(NilPayload)
    else if |payload.value| > MaxPayloadSize then Err(PayloadTooLong)
    else if |payload.value| < 1 then Err(PayloadTooShort)
    else Ok(Usb.Message(UsbCmdTransfer, 0, target + payload.value))
  }

  /**
    How `Transfer` reads the transport's reply: a nonzero device status
    wins over a transport error, which wins over the answer payload.
   */
  function InterpretReply(reply: TransportReply): (r: Result<seq<byte>, EsbError>)
    ensures reply.answer.err != 0 ==> r == Err(DeviceError(reply.answer.err))
    ensures reply.answer.err == 0 && reply.err.Some? ==> r == Err(TransportError(reply.err.value))
    ensures r.Ok? <==> reply.answer.err == 0 && reply.err.None?
    ensures r.Ok? ==> r.value == reply.answer.payload
  {
    if reply.answer.err != 0 then Err(DeviceError(reply.answer.err))
    else if reply.err.Some? then Err(TransportError(reply.err.value))
    else Ok(reply.answer.payload)
  }

  /** The observable effect of `Transfer`: the request sent (if any) and the result. */
  datatype TransferRun = TransferRun(sent: Option<Usb.Message>, result: Result<seq<byte>, EsbError>)

  /** `Transfer`: validate, send the envelope under the transfer command, read the reply. */
  function Transfer(b: Bridge, target: Address, payload: Option<seq<byte>>, reply: TransportReply): (r: TransferRun)
    ensures r.sent.Some? <==> b.connected && payload.Some? && 1 <= |payload.value| <= MaxPayloadSize
    ensures r.sent.None? ==> r.result.Err? && r.result.error == TransferRequest(b, target, payload).error
    ensures r.sent.Some? ==> r.sent.value.cmd == UsbCmdTransfer && r.sent.value.err == 0
    ensures r.sent.Some? ==> |r.sent.value.payload| == AddressSize + |payload.value|
    ensures r.sent.Some? ==> r.sent.value.payload[..AddressSize] == target
    ensures r.sent.Some? ==> r.sent.value.payload[AddressSize..] == payload.value
    ensures r.sent.Some? ==> r.result == InterpretReply(reply)
  {
    match TransferRequest(b, target, payload)
    case Err(e) => TransferRun(None, Err(e))
    case Ok(m) => TransferRun(Some(m), InterpretReply(reply))
  }

  /** Every request `Transfer` sends fits the transport's payload limit, so the transport never rejects it for size. */
  lemma TransferRequestFitsTransport(b: Bridge, target: Address, payload: Option<seq<byte>>, reply: TransportReply)
    requires Transfer(b, target, payload, reply).sent.Some?
    ensures var p := Transfer(b, target, payload, reply).sent.value.payload;
      AddressSize + 1 <= |p| <= AddressSize + MaxPayloadSize && |p| <= Usb.MaxPayloadLen
  {
  }

  /*------------------------------------------------------------------------
    Firmware version
  ------------------------------------------------------------------------*/

  /** The version string "major.minor.patch" in decimal. */
  function FormatVersion(major: byte, minor: byte, patch: byte): string {
    Decimal.Dotted(major as nat, minor as nat, patch as nat)
  }

  /** The request `GetFwVersion` sends: the version command with no payload. */
  const VersionRequest: Usb.Message := Usb.Message(UsbCmdVersion, 0, [])

  /** The observable effect of `GetFwVersion`: the request sent (if any) and the result. */
  datatype VersionRun = VersionRun(sent: Option<Usb.Message>, result: Result<string, EsbError>)

  /**
    `GetFwVersion`. The first three answer bytes are read without a length
    check, so a successful reply must carry at least three bytes.
   */
  function GetFwVersion(b: Bridge, reply: TransportReply): (r: VersionRun)
    requires b.connected && reply.answer.err == 0 && reply.err.None? ==> |reply.answer.payload| >= 3
    ensures r.sent == (if b.connected then Some(VersionRequest) else None)
    ensures !b.connected ==> r.result == Err(NotConnected)
    ensures b.connected && reply.answer.err != 0 ==> r.result == Err(DeviceError(reply.answer.err))
    ensures b.connected && reply.answer.err == 0 && reply.err.Some? ==> r.result == Err(TransportError(reply.err.value))
    ensures r.result.Ok? <==> b.connected && reply.answer.err == 0 && reply.err.None?
  {
    if !b.connected then VersionRun(None, Err(NotConnected))
    else
      match InterpretReply(reply)
      case Err(e) => VersionRun(Some(VersionRequest), Err(e))
      case Ok(p) => VersionRun(Some(VersionRequest), Ok(FormatVersion(p[0], p[1], p[2])))
  }

  /** Each field of a formatted version is the canonical decimal of its byte. */
  lemma VersionFields(v: seq<byte>)
    requires |v| >= 3
    ensures var fs := Decimal.Fields(FormatVersion(v[0], v[1], v[2]));
      && |fs| == 3
      && (forall k :: 0 <= k < 3 ==> fs[k] == Decimal.Show(v[k] as nat))
  {
    Decimal.DottedFields(v[0] as nat, v[1] as nat, v[2] as nat);
  }

  /**
    A successful `GetFwVersion` gives the first three answer bytes, each
    in canonical decimal (no leading zeros) and recoverable from the string.
   */
  lemma FwVersionFields(b: Bridge, reply: TransportReply)
    requires b.connected && reply.answer.err == 0 && reply.err.None?
    requires |reply.answer.payload| >= 3
    ensures GetFwVersion(b, reply).result.Ok?
    ensures var fs := Decimal.Fields(GetFwVersion(b, reply).result.value);
      && |fs| == 3
      && (forall k :: 0 <= k < 3 ==> fs[k] == Decimal.Show(reply.answer.payload[k] as nat))
      && (forall k :: 0 <= k < 3 ==> fs[k] == "0" || fs[k][0] != '0')
      && (forall k :: 0 <= k < 3 ==> Decimal.AllDigits(fs[k]))
      && (forall k :: 0 <= k < 3 ==> Decimal.Value(fs[k]) == reply.answer.payload[k] as nat)
  {
    var p := reply.answer.payload;
    assert GetFwVersion(b, reply).result == Ok(FormatVersion(p[0], p[1], p[2]));
    VersionFields(p);
    var fs := Decimal.Fields(FormatVersion(p[0], p[1], p[2]));
    forall k | 0 <= k < 3
      ensures fs[k] == "0" || fs[k][0] != '0'
      ensures Decimal.AllDigits(fs[k]) && Decimal.Value(fs[k]) == p[k] as nat
    {
      Decimal.ValueOfShow(p[k] as nat);
    }
  }

  /** A bridge that was never opened refuses transfers and version queries, and sends nothing. */
  lemma NeverOpenedRefuses(target: Address, payload: Option<seq<byte>>, reply: TransportReply)
    ensures Transfer(Initial, target, payload, reply) == TransferRun(None, Err(NotConnected))
    ensures GetFwVersion(Initial, reply) == VersionRun(None, Err(NotConnected))
  {
  }

  /*------------------------------------------------------------------------
    Inbound envelopes and listeners
  ------------------------------------------------------------------------*/

  /** The payload layout of an inbound radio message: source address, command, payload. */
  function EncodeEnvelope(m: EsbMessage): (p: seq<byte>)
    ensures |p| == EnvelopeHeaderSize + |m.payload|
  {
    m.address + [m.cmd] + m.payload
  }

  /** Reads the envelope out of a `CmdRx` payload; fewer than 6 bytes is no envelope. */
  function DecodeEnvelope(p: seq<byte>): (m: Option<EsbMessage>)
    ensures m.None? <==> |p| < EnvelopeHeaderSize
    ensures m.Some? ==> EncodeEnvelope(m.value) == p
  {
    if |p| < EnvelopeHeaderSize then None
    else
      var m := EsbMessage(p[..AddressSize], p[AddressSize], p[EnvelopeHeaderSize..]);
      assert EncodeEnvelope(m) == p;
      Some(m)
  }

  /** Decoding an encoded envelope gives the message back. */
  lemma EnvelopeRoundTrip(m: EsbMessage)
    ensures DecodeEnvelope(EncodeEnvelope(m)) == Some(m)
  {
    var p := EncodeEnvelope(m);
    assert p[..AddressSize] == m.address;
    assert p[EnvelopeHeaderSize..] == m.payload;
  }

  /**
    The envelope `Transfer` sends reads as a message to the target whose
    command is the first application byte.
   */
  lemma TransferRequestIsEnvelope(b: Bridge, target: Address, payload: Option<seq<byte>>)
    requires TransferRequest(b, target, payload).Ok?
    ensures DecodeEnvelope(TransferRequest(b, target, payload).value.payload)
      == Some(EsbMessage(target, payload.value[0], payload.value[1..]))
  {
    var p := TransferRequest(b, target, payload).value.payload;
    assert p == EncodeEnvelope(EsbMessage(target, payload.value[0], payload.value[1..]));
    EnvelopeRoundTrip(EsbMessage(target, payload.value[0], payload.value[1..]));
  }

  /** Whether listener `l` wants message `m`: command filter and address filter, each with its wildcard. */
  predicate Matches(l: Listener, m: EsbMessage) {
    && (l.cmd == AnyCmd || l.cmd == m.cmd)
    && (l.sourceAddr == m.address || l.sourceAddr == AnyAddress)
  }

  /** A listener with both wildcards takes every message; one without takes only its exact address and command. */
  lemma MatchesWildcards(l: Listener, m: EsbMessage)
    ensures l.cmd == AnyCmd && l.sourceAddr == AnyAddress ==> Matches(l, m)
    ensures l.cmd != AnyCmd && l.sourceAddr != AnyAddress ==>
      (Matches(l, m) <==> l.cmd == m.cmd && l.sourceAddr == m.address)
  {
  }

  /**
    Two filter examples: a wildcard-address listener for
    command 0x05 takes 0x05 from anyone but not 0x06; a listener for address
    1.2.3.4.5 with the wildcard command takes anything from that address
    and nothing from 1.2.3.4.6.
   */
  lemma FilterExamples(a: Address, c: byte, p: seq<byte>)
    ensures Matches(Listener(AnyAddress, 0x05, 0), EsbMessage(a, 0x05, p))
    ensures !Matches(Listener(AnyAddress, 0x05, 0), EsbMessage(a, 0x06, p))
    ensures Matches(Listener([1, 2, 3, 4, 5], AnyCmd, 0), EsbMessage([1, 2, 3, 4, 5], c, p))
    ensures !Matches(Listener([1, 2, 3, 4, 5], AnyCmd, 0), EsbMessage([1, 2, 3, 4, 6], c, p))
  {
  }

  /** `AddListener`: a nil channel is refused; otherwise the listener goes to the end of the registry. */
  function AddListener(b: Bridge, sourceAddr: Address, cmd: byte, channel: Option<SinkId>): (r: (Bridge, Option<EsbError>))
    ensures channel.None? ==> r == (b, Some(NilChannel))
    ensures channel.Some? ==> r.1.None? && r.0.connected == b.connected
    ensures channel.Some? ==> |r.0.listeners| == |b.listeners| + 1 && r.0.listeners[..|b.listeners|] == b.listeners
    ensures channel.Some? ==> r.0.listeners[|b.listeners|] == Listener(sourceAddr, cmd, channel.value)
  {
    if channel.None? then (b, Some(NilChannel))
    else (b.(listeners := b.listeners + [Listener(sourceAddr, cmd, channel.value)]), None)
  }

  /** Closing does not disconnect: a bridge opened and then closed still passes transfer validation. */
  lemma CloseKeepsConnected(b: Bridge, target: Address, payload: seq<byte>, subscribe: Option<Usb.Error>)
    requires 1 <= |payload| <= MaxPayloadSize
    ensures TransferRequest(Close(Open(b, None, subscribe).0), target, Some(payload)).Ok?
  {
  }

  /**
    Any payload of 1 to 32 bytes is accepted, two bytes included, although
    the package's test expects a two-byte payload to be refused.
   */
  lemma TwoBytePayloadAccepted(b: Bridge, target: Address)
    requires b.connected
    ensures TransferRequest(b, target, Some([0, 0])).Ok?
  {
  }

  /** One message placed on one listener's channel; `listener` is its position in the registry. */
  datatype Delivery = Delivery(listener: nat, sink: SinkId, msg: EsbMessage)

  /** The deliveries of one message: one per matching listener, in registration order. */
  function FanOut(ls: seq<Listener>, m: EsbMessage): (ds: seq<Delivery>)
    ensures forall k :: 0 <= k < |ds| ==>
      ds[k].listener < |ls| && Matches(ls[ds[k].listener], m) && ds[k].sink == ls[ds[k].listener].sink && ds[k].msg == m
    ensures forall i :: 0 <= i < |ls| && Matches(ls[i], m) ==> exists k :: 0 <= k < |ds| && ds[k].listener == i
    ensures forall k, l :: 0 <= k < l < |ds| ==> ds[k].listener < ds[l].listener
    decreases |ls|
  {
    if |ls| == 0 then []
    else
      var n := |ls| - 1;
      var front := FanOut(ls[..n], m);
      assert forall i :: 0 <= i < n ==> ls[..n][i] == ls[i];
      if Matches(ls[n], m) then
        var ds := front + [Delivery(n, ls[n].sink, m)];
        assert forall k :: 0 <= k < |front| ==> ds[k] == front[k];
        assert ds[|front|].listener == n;
        ds
      else front
  }

  /**
    Registering a listener leaves the deliveries to the earlier listeners
    as they were and adds at most one, at the end.
   */
  lemma FanOutAppend(ls: seq<Listener>, l: Listener, m: EsbMessage)
    ensures FanOut(ls + [l], m) == FanOut(ls, m) + (if Matches(l, m) then [Delivery(|ls|, l.sink, m)] else [])
  {
    assert (ls + [l])[..|ls|] == ls;
  }

  /** The deliveries of a whole inbox of well-formed `CmdRx` messages, message after message. */
  function RouteAll(ls: seq<Listener>, inbox: seq<Usb.Message>): seq<Delivery>
    requires forall k :: 0 <= k < |inbox| ==> |inbox[k].payload| >= EnvelopeHeaderSize
    decreases |inbox|
  {
    if |inbox| == 0 then []
    else RouteAll(ls, inbox[..|inbox| - 1]) + FanOut(ls, DecodeEnvelope(inbox[|inbox| - 1].payload).value)
  }

  /** Routing one more message appends its fan-out. */
  lemma RouteAllSnoc(ls: seq<Listener>, inbox: seq<Usb.Message>, n: nat)
    requires n < |inbox|
    requires forall k :: 0 <= k <= n ==> |inbox[k].payload| >= EnvelopeHeaderSize
    ensures RouteAll(ls, inbox[..n + 1]) == RouteAll(ls, inbox[..n]) + FanOut(ls, DecodeEnvelope(inbox[n].payload).value)
  {
    assert inbox[..n + 1][..n] == inbox[..n];
  }

  /**
    The receive loop for `CmdRx` messages. It decodes each message and fans
    it out; the first message too short to hold an envelope ends the loop,
    and nothing after it is looked at. Returns the deliveries made, how
    many messages were fanned out, and whether the loop ended early.
   */
  method RxLoop(ls: seq<Listener>, inbox: seq<Usb.Message>) returns (deliveries: seq<Delivery>, handled: nat, stopped: bool)
    ensures handled <= |inbox|
    ensures forall k :: 0 <= k < handled ==> |inbox[k].payload| >= EnvelopeHeaderSize
    ensures stopped <==> handled < |inbox|
    ensures stopped ==> |inbox[handled].payload| < EnvelopeHeaderSize
    ensures deliveries == RouteAll(ls, inbox[..handled])
  {
    deliveries, handled, stopped := [], 0, false;
    while handled < |inbox|
      invariant handled <= |inbox|
      invariant forall k :: 0 <= k < handled ==> |inbox[k].payload| >= EnvelopeHeaderSize
      invariant deliveries == RouteAll(ls, inbox[..handled])
    {
      var envelope := DecodeEnvelope(inbox[handled].payload);
      if envelope.None? {
        stopped := true;
        return;
      }
      RouteAllSnoc(ls, inbox, handled);
      deliveries := deliveries + FanOut(ls, envelope.value);
      handled := handled + 1;
    }
  }
}
