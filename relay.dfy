/**
 * The duplex relay (`VpnWebSocket`): it owns the websocket sink and exactly one
 * device sink (TUN, carrying IP packets, or TAP, carrying Ethernet frames) and
 * handles one inbound message at a time from either the websocket or the device.
 *
 * Every sink is modelled as the sequence of items written to it so far. Whether
 * a write is accepted is decided by the environment and arrives as the
 * `writeOk` parameter of a handler; each handler writes at most once. Stopping
 * the actor (`ctx.stop()`) is the `stopped` flag.
 */
module Relay {
  import opened Common
  import opened PacketConv
  import TapCodec

  /** A websocket frame as received (section 5 of RFC 6455). */
  datatype WsFrame =
    | Text(text: seq<byte>)           // section 5.6
    | Binary(bytes: seq<byte>)        // section 5.6
    | Ping(payload: seq<byte>)        // section 5.5.2
    | Pong(payload: seq<byte>)        // section 5.5.3
    | Close(reason: Option<string>)   // section 5.5.1
    | Continuation(item: seq<byte>)   // a fragment, section 5.4

  /** A malformed frame on the websocket stream (`WsProtocolError`). */
  datatype WsProtocolError = WsProtocolError

  /** A websocket message the relay writes. */
  datatype WsMessage = BinaryMessage(bytes: seq<byte>) | PongMessage(payload: seq<byte>)

  /** Which kind of device the relay was started with. */
  datatype DeviceKind = Tun | Tap

  /** The layer named on the command line (`tun::Layer`). */
  datatype Layer = L3 | L2

  /** Why the relay or its configuration was refused (each a `panic!` in the program). */
  datatype ConfigError = BothDevices | NoDevice | InvalidLayer

  /** Which device sinks and streams are handed to `VpnWebSocket::start`. */
  datatype DeviceArgs = DeviceArgs(tunSink: bool, tunStream: bool, tapSink: bool, tapStream: bool)

  /**
   * The device `VpnWebSocket::start` attaches: both sinks is an error; then a
   * complete TAP pair wins over a complete TUN pair; anything else is an error.
   */
  function SelectDevice(args: DeviceArgs): (r: Result<DeviceKind, ConfigError>)
    ensures r == Err(BothDevices) <==> args.tapSink && args.tunSink
    ensures r == Ok(Tap) <==> args.tapSink && args.tapStream && !args.tunSink
    ensures r == Ok(Tun) <==> args.tunSink && args.tunStream && !args.tapSink
    ensures r == Err(NoDevice) <==>
              !(args.tapSink && args.tapStream) && !(args.tunSink && args.tunStream) && !(args.tapSink && args.tunSink)
  {
    if args.tapSink && args.tunSink then Err(BothDevices)
    else if args.tapSink && args.tapStream then Ok(Tap)
    else if args.tunSink && args.tunStream then Ok(Tun)
    else Err(NoDevice)
  }

  /** The `vpn_layer` option: "tun" is L3, "tap" is L2, anything else is refused. */
  function ParseVpnLayer(s: string): (r: Result<Layer, ConfigError>)
    ensures r.Ok? <==> s == "tun" || s == "tap"
    ensures r == Ok(L2) <==> s == "tap"
  {
    match s
    case "tun" => Ok(L3)
    case "tap" => Ok(L2)
    case _ => Err(InvalidLayer)
  }

  /** The arguments the program hands to `VpnWebSocket::start`: the TAP pair for "tap", the TUN pair otherwise. */
  function StartArgs(vpnLayer: string): DeviceArgs {
    if vpnLayer == "tap" then DeviceArgs(false, false, true, true)
    else DeviceArgs(true, true, false, false)
  }

  /**
   * Every layer string the program accepts leads to a relay that starts, with
   * the TAP device for L2 and the TUN device for L3.
   */
  lemma AcceptedLayerStarts(vpnLayer: string)
    requires ParseVpnLayer(vpnLayer).Ok?
    ensures SelectDevice(StartArgs(vpnLayer)) ==
              Ok(if ParseVpnLayer(vpnLayer).value == L2 then Tap else Tun)
  {
  }

  class VpnWebSocket {
    /** Messages written to the websocket sink, oldest first. */
    var wsSink: seq<WsMessage>
    /** Packets written to the TUN sink, if the relay has one. */
    var tunSink: Option<seq<TapCodec.TapPacket>>
    /** Packets written to the TAP sink, if the relay has one. */
    var tapSink: Option<seq<TapCodec.TapPacket>>
    /** Set once the handler has asked the actor to stop. */
    var stopped: bool

    /** Exactly one device sink is attached. */
    ghost predicate Valid()
      reads this
    {
      tunSink.Some? != tapSink.Some?
    }

    /** The device the relay forwards to. */
    function Device(): DeviceKind
      reads this
    {
      if tunSink.Some? then Tun else Tap
    }

    /** A running relay with nothing written yet, attached to `device`. */
    constructor (device: DeviceKind)
      ensures Valid() && Device() == device
      ensures wsSink == [] && !stopped
      ensures tunSink == (if device == Tun then Some([]) else None)
      ensures tapSink == (if device == Tap then Some([]) else None)
    {
      wsSink := [];
      tunSink := if device == Tun then Some([]) else None;
      tapSink := if device == Tap then Some([]) else None;
      stopped := false;
    }

    /**
     * `StreamHandler<Result<ws::Frame, _>>::handle`. Text, close and a protocol
     * error stop the relay; a ping is answered with a pong carrying the same
     * payload; pong and continuation frames are ignored. A binary frame goes to
     * the device: for TUN it is unwrapped first and dropped when that fails, and
     * a failed TUN write is only logged; for TAP it is written verbatim and a
     * failed write stops the relay.
     */
    method HandleWsFrame(msg: Result<WsFrame, WsProtocolError>, peek: IpPeek, writeOk: bool)
      requires Valid()
      modifies this
      ensures Valid() && Device() == old(Device())
      ensures msg.Err? || msg.value.Text? || msg.value.Close? ==>
                stopped && wsSink == old(wsSink) && tunSink == old(tunSink) && tapSink == old(tapSink)
      ensures msg.Ok? && (msg.value.Pong? || msg.value.Continuation?) ==> unchanged(this)
      ensures msg.Ok? && msg.value.Ping? ==>
                && tunSink == old(tunSink) && tapSink == old(tapSink)
                && wsSink == (if writeOk then old(wsSink) + [PongMessage(msg.value.payload)] else old(wsSink))
                && stopped == (old(stopped) || !writeOk)
      ensures msg.Ok? && msg.value.Binary? && old(Device()) == Tun ==>
                && wsSink == old(wsSink) && tapSink == old(tapSink) && stopped == old(stopped)
                && var unwrapped := PacketEtherToIpSlice(msg.value.bytes, peek);
                   tunSink == if unwrapped.Ok? && writeOk
                              then Some(old(tunSink).value + [TapCodec.New(unwrapped.value)])
                              else old(tunSink)
      ensures msg.Ok? && msg.value.Binary? && old(Device()) == Tap ==>
                && wsSink == old(wsSink) && tunSink == old(tunSink)
                && tapSink == (if writeOk then Some(old(tapSink).value + [TapCodec.New(msg.value.bytes)])
                               else old(tapSink))
                && stopped == (old(stopped) || !writeOk)
    {
      match msg {
        case Ok(Text(_)) =>
          stopped := true;
        case Ok(Binary(bytes)) =>
          if tunSink.Some? {
            match PacketEtherToIpSlice(bytes, peek) {
              case Ok(ipSlice) =>
                if writeOk {
                  tunSink := Some(tunSink.value + [TapCodec.New(ipSlice)]);
                }
              case Err(_) =>
            }
          } else {
            if writeOk {
              tapSink := Some(tapSink.value + [TapCodec.New(bytes)]);
            } else {
              stopped := true;
            }
          }
        case Ok(Ping(payload)) =>
          if writeOk {
            wsSink := wsSink + [PongMessage(payload)];
          } else {
            stopped := true;
          }
        case Ok(Pong(_)) =>
        case Ok(Close(_)) =>
          stopped := true;
        case Ok(Continuation(_)) =>
        case Err(_) =>
          stopped := true;
      }
    }

    /**
     * `StreamHandler<Result<AnyPacket, io::Error>>::handle`. A packet read from
     * the device is wrapped with the default addresses and written to the
     * websocket as a binary message; a packet that cannot be wrapped is dropped
     * and a failed write is only logged. A device read error stops the relay.
     */
    method HandleDevicePacket(msg: Result<TapCodec.TapPacket, IoError>, peek: IpPeek, writeOk: bool)
      requires Valid()
      modifies this
      ensures Valid() && tunSink == old(tunSink) && tapSink == old(tapSink)
      ensures msg.Err? ==> stopped && wsSink == old(wsSink)
      ensures msg.Ok? ==>
                && stopped == old(stopped)
                && var p := TapCodec.GetBytes(msg.value);
                   wsSink == if p != [] && PeekOk(peek, p) && writeOk
                             then old(wsSink) + [BinaryMessage(EtherFrame(DEFAULT_DST_MAC, DEFAULT_SRC_MAC,
                                                                          EtherTypeOf(peek(p).value), p))]
                             else old(wsSink)
    {
      match msg {
        case Ok(packet) =>
          var wrapped := PacketIpWrapToEther(TapCodec.GetBytes(packet), None, None, peek);
          match wrapped {
            case Ok(etherPacket) =>
              if writeOk {
                wsSink := wsSink + [BinaryMessage(etherPacket)];
              }
            case Err(_) =>
          }
        case Err(_) =>
          stopped := true;
      }
    }
  }

  /**
   * `VpnWebSocket::start`: refuses the arguments `SelectDevice` refuses, and
   * otherwise starts a relay attached to the device it selects.
   */
  method Start(args: DeviceArgs) returns (r: Result<VpnWebSocket, ConfigError>)
    ensures r.Err? <==> SelectDevice(args).Err?
    ensures r.Err? ==> r.error == SelectDevice(args).error
    ensures r.Ok? ==> && fresh(r.value) && r.value.Valid()
                      && SelectDevice(args) == Ok(r.value.Device())
                      && r.value.wsSink == [] && !r.value.stopped
                      && (r.value.tunSink.Some? ==> r.value.tunSink.value == [])
                      && (r.value.tapSink.Some? ==> r.value.tapSink.value == [])
  {
    match SelectDevice(args) {
      case Ok(device) =>
        var relay := new VpnWebSocket(device);
        return Ok(relay);
      case Err(e) =>
        return Err(e);
    }
  }

  /**
   * End to end over the L3 path: a packet of more than 20 bytes that one relay
   * reads from its TUN device reaches the TUN device of the relay receiving its
   * websocket message unchanged, when both writes are accepted.
   */
  method TunToTun(p: seq<byte>, peek: IpPeek) returns (delivered: seq<TapCodec.TapPacket>)
    requires PeekOk(peek, p) && |p| > MIN_IP_HEADER_LENGTH
    ensures delivered == [TapCodec.New(p)]
  {
    var sender := new VpnWebSocket(Tun);
    sender.HandleDevicePacket(Ok(TapCodec.New(p)), peek, true);
    var frame := sender.wsSink[0].bytes;
    UnwrapOfWrapped(DEFAULT_DST_MAC, DEFAULT_SRC_MAC, EtherTypeOf(peek(p).value), p, peek);
    var receiver := new VpnWebSocket(Tun);
    receiver.HandleWsFrame(Ok(Binary(frame)), peek, true);
    delivered := receiver.tunSink.value;
  }
}
