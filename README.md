# Verified model of the ya-vpn-connector packet relay

ya-vpn-connector bridges a local virtual network interface (TUN, carrying IP
packets, or TAP, carrying Ethernet frames) to a websocket connection. This
project models its core in Dafny and proves properties of the model:

- **PacketConv** (`packet_conv.dfy`): the packet encapsulator. It wraps a raw IP
  packet into an Ethernet II frame (RFC 894 for IPv4, EtherType 0x0800; section 3
  of RFC 2464 for IPv6, EtherType 0x86DD) with placeholder addresses, and unwraps
  such a frame back into its IP packet. Wrapping is a method that fills a fresh
  array region by region, as the source does, and it is proved equal to the
  frame layout function `EtherFrame`. The round trip and its one exception are
  proved as lemmas.
- **TapCodec** (`tap_codec.dfy`): the frame codec between the device byte stream
  and packets. `Decode` drains a `BytesMut` buffer object into one packet.
  `Encode` appends a packet to a buffer.
- **Relay** (`relay.dfy`): `VpnWebSocket`, a class whose fields are the sequences
  written to its sinks and a `stopped` flag. It has the constructor logic of
  `VpnWebSocket::start`, the websocket-frame handler, the device-packet handler,
  and the `vpn_layer` option match from `main`.
- **Iptables** (`iptables.dfy`): the firewall rule bookkeeping. A `RuleTable`
  object holds the host's rules. Each operation is a method proved against a
  specification function on rule sequences. Lemmas cover idempotence, abort on
  the first failure, exactly what cleanup removes, and the masquerading rule
  outliving cleanup. It also models choosing a free VPN subnet and interface name.
- **Common** (`common.dfy`): `byte`, `Option`, `Result`, `IoError`.

Environment inputs are parameters:
- The IP library's header check and classification (`IpPacket::peek` and
  `IpPacket::packet`) is the parameter `peek: seq<byte> -> Option<IpVersion>`.
  Its internals are defined by section 3.1 of RFC 791 and section 3 of RFC 8200,
  and they are not modelled.
- Whether a sink accepts a write is the `writeOk` parameter of each relay handler.
- How each `iptables` process ends is the `exec` oracle. It can fail to start,
  exit with a failure status, or complete and act on the rule set.
- The interface listing is a `Result` parameter of
  `GenerateInterfaceSubnetAndName`. The random draws are the parameter
  `draw: nat -> Draw`.

Behaviour of the code worth knowing before reading the contracts:
- A valid 20-byte IPv4 packet (header only) wraps to a 34-byte frame and then
  fails to unwrap, because of the `<=` at src/packet_conv.rs:48.
  `PacketConv.UnwrapOfWrapped` proves this. The round trip holds exactly for
  packets longer than 20 bytes.
- Only a failed pong and a failed TAP write stop the relay. A failed TUN write
  and a failed websocket write of a device packet are only logged.
- The relay's only lifecycle change is stopping the actor, which the model
  records as the `stopped` flag.
- Configuration errors (both device pairs given, neither pair given, an unknown
  layer string) are `panic!`s in the code. They are modelled as `Err` results.
- The device-packet handler wraps every packet as an IP packet, in TAP mode too.
  A TAP Ethernet frame is therefore wrapped only if the IP header check happens
  to accept it.

## Model

| member | source | states |
|---|---|---|
| `PacketConv.EtherTypeOf` | src/packet_conv.rs:32-41 | IPv4 is announced as 08 00 and IPv6 as 86 DD, and each EtherType belongs to exactly one version |
| `PacketConv.EtherFrame` | src/packet_conv.rs:19-42 | the frame is 14 bytes longer than the payload; bytes 0..6 are the destination, 6..12 the source, 12..14 the EtherType and 14.. the payload |
| `PacketConv.CopyFromSlice` | src/packet_conv.rs:21-42 | `copy_from_slice` overwrites exactly the target region with the source bytes and leaves the rest of the buffer as it was |
| `PacketConv.PacketIpWrapToEther` | src/packet_conv.rs:3-44 | an empty packet fails with EmptyPacket; a packet failing the IP header check fails with PacketMalformed; otherwise the result is the Ethernet frame with the given or default (02:..:02 destination, 01:..:01 source) addresses, the version's EtherType and the packet verbatim |
| `PacketConv.PacketEtherToIpSlice` | src/packet_conv.rs:46-61 | a frame of at most 34 bytes fails with TooShort; otherwise a payload failing the IP header check fails with PacketMalformed; on success the result is exactly what follows the 14-byte header |
| `PacketConv.UnwrapOfWrapped` | src/packet_conv.rs:19-60 | unwrapping a wrapped packet gives it back exactly when it is longer than 20 bytes; a packet of 20 bytes or fewer comes back as TooShort |
| `PacketConv.WrapOfUnwrapped` | src/packet_conv.rs:46-61 | every frame that unwraps successfully is the wrapping of the returned packet under its own header |
| `TapCodec.New` | src/tap_codec.rs:10-25 | `get_bytes` and `into_bytes` of a new packet give back exactly the bytes it was made from |
| `TapCodec.BytesMut.SplitTo` | src/tap_codec.rs:53 | the removed head and the remaining buffer together are the old contents, and the head has the requested length |
| `TapCodec.BytesMut.Put` | src/tap_codec.rs:74 | the bytes are appended after the old contents |
| `TapCodec.Decode` | src/tap_codec.rs:48-65 | never an error; an empty buffer gives no packet and stays empty; a non-empty buffer becomes one packet holding all of its bytes and is left empty |
| `TapCodec.Encode` | src/tap_codec.rs:71-77 | never an error; the packet's bytes are appended verbatim after what the buffer held |
| `TapCodec.DecodeThenEncode` | src/tap_codec.rs:48-77 | decoding a buffer and encoding the packet into an empty buffer reproduces the original contents, and a packet is produced exactly when the buffer was non-empty |
| `Relay.SelectDevice` | src/main.rs:44-64 | both sinks given is an error; a complete TAP pair is chosen over a complete TUN pair; no complete pair is an error |
| `Relay.ParseVpnLayer` | src/main.rs:202-206 | "tun" and "tap" are the only accepted layer names, and "tap" is exactly the L2 one |
| `Relay.AcceptedLayerStarts` | src/main.rs:202-238 | every accepted layer name leads `main` to start a relay, attached to TAP for L2 and to TUN for L3 |
| `Relay.VpnWebSocket.constructor` | src/main.rs:48-61 | a new relay has exactly the requested device sink, nothing written, and is not stopped |
| `Relay.Start` | src/main.rs:34-66 | start fails exactly when the device selection fails, with the same error; otherwise the relay has exactly one empty device sink of the selected kind |
| `Relay.VpnWebSocket.HandleWsFrame` | src/main.rs:86-145 | text, close and protocol errors stop the relay and write nothing; ping appends a pong with the same payload and stops only if that write fails; pong and continuation change nothing; binary in TUN mode appends the unwrapped IP packet, drops a frame that fails to unwrap, and never stops; binary in TAP mode appends the frame verbatim and stops on a failed write; the device kind never changes |
| `Relay.VpnWebSocket.HandleDevicePacket` | src/main.rs:147-176 | a read error stops the relay and writes nothing; a packet is wrapped with the default addresses and appended as a binary message; a packet that fails to wrap is dropped; a failed write is ignored; neither stops the relay or touches the device sinks |
| `Relay.TunToTun` | src/main.rs:93-168 | a packet longer than 20 bytes read by one TUN relay reaches the TUN sink of the relay that receives its websocket message unchanged |
| `Iptables.RemoveFirst` | src/iptables/mod.rs:15-24 | `iptables -D` takes out one occurrence of the rule and nothing else: the new rule multiset is the old one less that rule |
| `Iptables.FirstIndex` | src/iptables/mod.rs:15-24 | the position `-D` acts on holds the rule, and no earlier position does |
| `Iptables.RemoveFirstKeepsOrder` | src/iptables/mod.rs:15-24 | the occurrence `-D` takes out is the first one, and the rules before it and after it stay in chain order |
| `Iptables.RemoveRuleOutcome` | src/iptables/mod.rs:12-48 | removal succeeds exactly when the process completes and the rule is present; on success one occurrence is removed; on failure the rule set is unchanged |
| `Iptables.AddRuleOutcome` | src/iptables/mod.rs:50-114 | a check that cannot run is an error; a completed check that finds the rule succeeds without appending; otherwise the rule is appended exactly when `-A` completes, and that is the only other way to succeed; on failure the rule set is unchanged |
| `Iptables.RuleTable.Run` | src/iptables/mod.rs:53-61 | one `iptables` run: a process that cannot start is an error; a failing exit changes nothing; a completed `-C` reports presence, `-A` appends, and `-D` removes the first match or reports failure |
| `Iptables.RemoveRule` | src/iptables/mod.rs:12-48 | the result and the new rule set are those of `RemoveRuleOutcome` |
| `Iptables.AddRule` | src/iptables/mod.rs:50-114 | the result and the new rule set are those of `AddRuleOutcome` |
| `Iptables.Cleanup` | src/iptables/mod.rs:118-123 | removes the rules in list order, stopping at the first failure, as `CleanupOutcome` specifies |
| `Iptables.RouteToInterface` | src/iptables/mod.rs:127-149 | adds the two forwarding rules and then the masquerading rule, stopping at the first failure; on success it returns exactly the two forwarding rules |
| `Iptables.RouteRules` | src/iptables/mod.rs:131-139 | exactly two rules are returned for later deletion, both `filter` table `FORWARD` rules |
| `Iptables.ForwardRuleIgnoresMainInterface` | src/iptables/mod.rs:131-139 | the first forwarding rule is the same whatever the main interface is, because it names the literal `eth0`; the second rule depends on it |
| `Iptables.AddAllInstalls` | src/iptables/mod.rs:145-147 | adding never removes a rule; after a successful run every added rule is installed and each check could run |
| `Iptables.AddAllPresent` | src/iptables/mod.rs:53-70 | when every rule is already present and its check completes, adding them succeeds and changes nothing |
| `Iptables.AddAllIdempotent` | src/iptables/mod.rs:53-79 | repeating a successful installation, with checks that complete, succeeds and installs no duplicate |
| `Iptables.AddAllStopsAtFirstFailure` | src/iptables/mod.rs:145-147 | the first failing addition ends the run with its error, and no later rule is added |
| `Iptables.CleanupStopsAtFirstFailure` | src/iptables/mod.rs:118-123 | the first failing removal ends the cleanup with its error, and every later rule stays where it was |
| `Iptables.CleanupRemovesListed` | src/iptables/mod.rs:118-123 | a successful cleanup removes exactly one occurrence of each listed rule and nothing else |
| `Iptables.CleanupKeepsUnlisted` | src/iptables/mod.rs:118-123 | cleanup never removes a rule it was not given, whether or not it succeeds |
| `Iptables.MasqueradeSurvivesCleanup` | src/iptables/mod.rs:116-148 | after a successful routing setup, cleaning up the returned rules leaves the `nat` masquerading rule installed |
| `Iptables.Decimal` | src/iptables/mod.rs:190 | the decimal form of a number is a non-empty string of digits with no leading zero, and those digits denote the number |
| `Iptables.InterfaceNameInjective` | src/iptables/mod.rs:187-190 | different draws give different interface names `vpn_10_94_<n>` |
| `Iptables.FindInterface` | src/iptables/mod.rs:191 | finds an interface with the name exactly when one exists, and what it finds has that name |
| `Iptables.GenerateInterfaceSubnetAndName` | src/iptables/mod.rs:158-212 | it fails with InterfacesUnavailable exactly when the interface listing failed; it fails with NoFreeSubnet exactly when all 100 draws name existing interfaces; otherwise it uses the first free draw n, giving name `vpn_10_94_n`, subnet 10.94.n.0, mask 255.255.255.0, node 10.94.n.suffix, and a name that is not among the interfaces |

## Left out

- `main` (src/main.rs:178-247): logger setup, the environment credential, the
  websocket connect, TUN/TAP device creation and configuration, and the polling
  loop. Only the `vpn_layer` match and the choice of start arguments are modelled.
- The actix runtime: stream registration, `SinkWrite` buffering and flushing,
  and the `started`/`stopped` hooks. After `ctx.stop()` the runtime delivers no
  more messages. The model does not enforce this; it records `stopped` only, and
  the handlers still accept calls.
- The internals of `IpPacket::peek`, `IpPacket::packet` and `EtherField`, which
  come from a library outside this model. `EtherField` is taken as the standard
  ranges 0..6, 6..12, 12..14 and 14...
- Capacity reservation in the codec (`reserve(90000)`, `+ 4`). It has no effect
  on buffer contents.
- The text of error messages and all logging. Error results are modelled by
  their kind only.
- In `src/iptables/mod.rs`: process spawning, the splitting of a rule into
  arguments, and output capture. The `iptables` tool matches rules by meaning;
  the model compares (table, rule text) pairs. This module is not declared in
  `main.rs`, and its only call sites are commented out.
- `Exec` is a function of the command alone, so every run of the same command
  ends the same way. This includes the second installation in
  `Iptables.AddAllIdempotent`. A host whose `iptables` runs fail only some of the
  time is not modelled.
- `NetworkInterface::show`, `rand::thread_rng` and `Ipv4Addr::from_str`. The
  first two are parameters. The addresses are built directly from their octets
  rather than by formatting and then parsing text that cannot fail to parse.
- `src/cli_opts.rs` and `examples/spawn_tun.rs`: option declarations and a
  device demo with no logic to verify. `TapPacketCodec::new` and its `Default`:
  the codec carries no state, so `Decode` and `Encode` are module-level methods.
