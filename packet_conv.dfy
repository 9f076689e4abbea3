/**
 * The packet encapsulator: wraps a raw IP packet into an Ethernet II frame
 * (RFC 894 for IPv4, section 3 of RFC 2464 for IPv6) and unwraps such a frame
 * back into the IP packet it carries.
 */
module PacketConv {
  import opened Common

  /** A hardware address: six bytes. */
  type Mac = m: seq<byte> | |m| == 6 witness [0, 0, 0, 0, 0, 0]

  /** An EtherType field: two bytes, big-endian. */
  type EtherType = t: seq<byte> | |t| == 2 witness [0, 0]

  /** The IP version an IP header announces. */
  datatype IpVersion = V4 | V6

  /**
   * The IP library's header check (`IpPacket::peek`) together with its
   * classification (`IpPacket::packet`): `Some(v)` when the bytes begin with a
   * well-formed IPv`v` header, `None` when the check fails. The library is not
   * part of this model, so every operation that needs it takes it as a parameter.
   */
  type IpPeek = seq<byte> -> Option<IpVersion>

  /** The header check succeeds on `bytes`. */
  predicate PeekOk(peek: IpPeek, bytes: seq<byte>) {
    peek(bytes).Some?
  }

  /** Why a packet could not be converted. */
  datatype EncapError =
    | EmptyPacket          // `Error::Other`, "Empty packet"
    | TooShort(length: nat) // `Error::Other`, "Packet too short", with the frame length
    | PacketMalformed      // `Error::PacketMalformed`: the IP header check failed

  /** Length of the Ethernet II header: two addresses and the EtherType. */
  const ETHER_HEADER_LEN: nat := 14
  /** Shortest IP header the unwrapping accepts to be present. */
  const MIN_IP_HEADER_LENGTH: nat := 20

  const DEFAULT_DST_MAC: Mac := [0x02, 0x02, 0x02, 0x02, 0x02, 0x02]
  const DEFAULT_SRC_MAC: Mac := [0x01, 0x01, 0x01, 0x01, 0x01, 0x01]
  const ETHER_TYPE_IPV4: EtherType := [0x08, 0x00]
  const ETHER_TYPE_IPV6: EtherType := [0x86, 0xdd]

  /** The EtherType announcing an IP packet of version `v`. */
  function EtherTypeOf(v: IpVersion): (t: EtherType)
    ensures t == ETHER_TYPE_IPV4 <==> v == V4
    ensures t == ETHER_TYPE_IPV6 <==> v == V6
  {
    match v
    case V4 => ETHER_TYPE_IPV4
    case V6 => ETHER_TYPE_IPV6
  }

  // The field ranges of an Ethernet II frame (`EtherField`).

  function DstMacField(frame: seq<byte>): seq<byte>
    requires |frame| >= ETHER_HEADER_LEN
  {
    frame[0..6]
  }

  function SrcMacField(frame: seq<byte>): seq<byte>
    requires |frame| >= ETHER_HEADER_LEN
  {
    frame[6..12]
  }

  function EtherTypeField(frame: seq<byte>): seq<byte>
    requires |frame| >= ETHER_HEADER_LEN
  {
    frame[12..14]
  }

  function PayloadField(frame: seq<byte>): seq<byte>
    requires |frame| >= ETHER_HEADER_LEN
  {
    frame[14..]
  }

  /** The Ethernet II frame with the given header fields carrying `payload`. */
  function EtherFrame(dst: Mac, src: Mac, etherType: EtherType, payload: seq<byte>): (frame: seq<byte>)
    ensures |frame| == |payload| + ETHER_HEADER_LEN
    ensures DstMacField(frame) == dst && SrcMacField(frame) == src
    ensures EtherTypeField(frame) == etherType && PayloadField(frame) == payload
  {
    dst + src + etherType + payload
  }

  /**
   * `copy_from_slice`: overwrites `dst[at..at + |src|]` with `src` and leaves
   * every other element of `dst` as it was.
   */
  method CopyFromSlice(dst: array<byte>, at: nat, src: seq<byte>)
    requires at + |src| <= dst.Length
    modifies dst
    ensures dst[..at] == old(dst[..at])
    ensures dst[at..at + |src|] == src
    ensures dst[at + |src|..] == old(dst[at + |src|..])
  {
    var i := 0;
    while i < |src|
      invariant 0 <= i <= |src|
      invariant dst[..] == old(dst[..at]) + src[..i] + old(dst[at + i..])
    {
      dst[at + i] := src[i];
      i := i + 1;
    }
  }

  /**
   * `packet_ip_wrap_to_ether`: rejects an empty packet, then a packet whose IP
   * header check fails; otherwise allocates a zeroed buffer 14 bytes longer than
   * the packet and fills in the destination address (default 02:02:02:02:02:02),
   * the source address (default 01:01:01:01:01:01), the EtherType of the packet's
   * IP version and the packet itself.
   */
  method PacketIpWrapToEther(packet: seq<byte>, srcMac: Option<Mac>, dstMac: Option<Mac>, peek: IpPeek)
    returns (r: Result<seq<byte>, EncapError>)
    ensures r == Err(EmptyPacket) <==> packet == []
    ensures r == Err(PacketMalformed) <==> packet != [] && !PeekOk(peek, packet)
    ensures r.Ok? <==> packet != [] && PeekOk(peek, packet)
    ensures r.Ok? ==> r.value == EtherFrame(dstMac.GetOr(DEFAULT_DST_MAC), srcMac.GetOr(DEFAULT_SRC_MAC),
                                           EtherTypeOf(peek(packet).value), packet)
  {
    if |packet| == 0 {
      return Err(EmptyPacket);
    }
    var version := peek(packet);
    if version.None? {
      return Err(PacketMalformed);
    }
    var eth := new byte[|packet| + ETHER_HEADER_LEN];
    var dst := if dstMac.Some? then dstMac.value else DEFAULT_DST_MAC;
    CopyFromSlice(eth, 0, dst);
    assert eth[..6] == dst;
    var src := if srcMac.Some? then srcMac.value else DEFAULT_SRC_MAC;
    CopyFromSlice(eth, 6, src);
    assert eth[..12] == dst + src by {
      assert eth[..12] == eth[..6] + eth[6..12];
    }
    var etherType := match version.value
      case V4 => ETHER_TYPE_IPV4
      case V6 => ETHER_TYPE_IPV6;
    CopyFromSlice(eth, 12, etherType);
    assert eth[..14] == dst + src + etherType by {
      assert eth[..14] == eth[..12] + eth[12..14];
    }
    CopyFromSlice(eth, ETHER_HEADER_LEN, packet);
    assert eth[..] == dst + src + etherType + packet by {
      assert eth[..] == eth[..14] + eth[14..];
    }
    return Ok(eth[..]);
  }

  /**
   * `packet_ether_to_ip_slice`: a frame of at most 14 + 20 bytes is too short;
   * otherwise the IP packet is everything after the 14-byte header, accepted
   * only when the IP header check succeeds on it.
   */
  function PacketEtherToIpSlice(frame: seq<byte>, peek: IpPeek): (r: Result<seq<byte>, EncapError>)
    ensures r == Err(TooShort(|frame|)) <==> |frame| <= ETHER_HEADER_LEN + MIN_IP_HEADER_LENGTH
    ensures r == Err(PacketMalformed) <==>
              |frame| > ETHER_HEADER_LEN + MIN_IP_HEADER_LENGTH && !PeekOk(peek, frame[ETHER_HEADER_LEN..])
    ensures r.Ok? ==> |r.value| == |frame| - ETHER_HEADER_LEN && frame == frame[..ETHER_HEADER_LEN] + r.value
    ensures r.Ok? ==> PeekOk(peek, r.value) && |r.value| > MIN_IP_HEADER_LENGTH
  {
    if |frame| <= ETHER_HEADER_LEN + MIN_IP_HEADER_LENGTH then
      Err(TooShort(|frame|))
    else
      var ip := PayloadField(frame);
      if !PeekOk(peek, ip) then Err(PacketMalformed) else Ok(ip)
  }

  /**
   * Round trip: unwrapping a frame that carries an IP packet `p` (whatever its
   * header fields) gives `p` back exactly when `p` is longer than the minimum IP
   * header; a packet of 20 bytes or fewer is refused as too short even though
   * it was wrapped without complaint.
   */
  lemma UnwrapOfWrapped(dst: Mac, src: Mac, etherType: EtherType, p: seq<byte>, peek: IpPeek)
    requires PeekOk(peek, p)
    ensures |p| > MIN_IP_HEADER_LENGTH ==> PacketEtherToIpSlice(EtherFrame(dst, src, etherType, p), peek) == Ok(p)
    ensures |p| <= MIN_IP_HEADER_LENGTH ==>
              PacketEtherToIpSlice(EtherFrame(dst, src, etherType, p), peek) == Err(TooShort(|p| + ETHER_HEADER_LEN))
  {
  }

  /**
   * Conversely, every frame the unwrapping accepts is the wrapping of the IP
   * packet it returns, under the header the frame already had.
   */
  lemma WrapOfUnwrapped(frame: seq<byte>, peek: IpPeek)
    requires PacketEtherToIpSlice(frame, peek).Ok?
    ensures frame == EtherFrame(DstMacField(frame), SrcMacField(frame), EtherTypeField(frame),
                                PacketEtherToIpSlice(frame, peek).value)
  {
    assert frame == frame[0..6] + frame[6..12] + frame[12..14] + frame[14..];
  }
}
