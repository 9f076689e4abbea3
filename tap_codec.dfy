/**
 * The frame codec between the virtual device's byte stream and whole packets:
 * every read from the device is one packet, so decoding takes the entire
 * buffered input as one packet and encoding appends a packet's bytes as they are.
 */
module TapCodec {
  import opened Common

  /** One packet read from or written to the device (`TapPacket`, also used as `AnyPacket`). */
  datatype TapPacket = TapPacket(bytes: seq<byte>)

  /** The bytes of a packet, borrowed (`get_bytes`). */
  function GetBytes(p: TapPacket): seq<byte> {
    p.bytes
  }

  /** The bytes of a packet, by value (`into_bytes`). */
  function IntoBytes(p: TapPacket): seq<byte> {
    p.bytes
  }

  /** A packet holding exactly `bytes` (`TapPacket::new`, `AnyPacket::new_from_bytes`). */
  function New(bytes: seq<byte>): (p: TapPacket)
    ensures GetBytes(p) == bytes && IntoBytes(p) == bytes
  {
    TapPacket(bytes)
  }

  /** A mutable byte buffer (`BytesMut`); its spare capacity is not modelled. */
  class BytesMut {
    var contents: seq<byte>

    constructor (init: seq<byte>)
      ensures contents == init
    {
      contents := init;
    }

    /** `split_to`: removes and returns the first `at` bytes. */
    method SplitTo(at: nat) returns (head: seq<byte>)
      requires at <= |contents|
      modifies this
      ensures old(contents) == head + contents
      ensures |head| == at
    {
      head := contents[..at];
      contents := contents[at..];
    }

    /** `put`: appends `bytes` at the end. */
    method Put(bytes: seq<byte>)
      modifies this
      ensures contents == old(contents) + bytes
    {
      contents := contents + bytes;
    }
  }

  /**
   * `TapPacketCodec::decode`: nothing is produced from an empty buffer, which
   * is left as it is; otherwise the whole buffer becomes one packet and the
   * buffer is left empty. Never an error.
   */
  method Decode(buf: BytesMut) returns (r: Result<Option<TapPacket>, IoError>)
    modifies buf
    ensures r.Ok?
    ensures old(buf.contents) == [] ==> r.value == None && buf.contents == []
    ensures old(buf.contents) != [] ==> r.value.Some? && GetBytes(r.value.value) == old(buf.contents)
    ensures buf.contents == []
  {
    if |buf.contents| == 0 {
      return Ok(None);
    }
    var pkt := buf.SplitTo(|buf.contents|);
    return Ok(Some(TapPacket(pkt)));
  }

  /**
   * `TapPacketCodec::encode`: appends the packet's bytes verbatim after what
   * `dst` already holds. Never an error.
   */
  method Encode(item: TapPacket, dst: BytesMut) returns (r: Result<(), IoError>)
    modifies dst
    ensures r.Ok?
    ensures dst.contents == old(dst.contents) + GetBytes(item)
  {
    dst.Put(IntoBytes(item));
    return Ok(());
  }

  /**
   * Decoding a non-empty buffer and encoding the packet into an empty buffer
   * reproduces the original buffer contents: the codec neither drops, adds nor
   * reorders bytes.
   */
  method DecodeThenEncode(input: seq<byte>) returns (output: seq<byte>, decoded: bool)
    ensures decoded <==> input != []
    ensures output == input
  {
    var buf := new BytesMut(input);
    var r := Decode(buf);
    var dst := new BytesMut([]);
    decoded := r.value.Some?;
    if decoded {
      var _ := Encode(r.value.value, dst);
    }
    output := dst.contents;
  }
}
