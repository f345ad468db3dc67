// The multicast forwarding engine (src/smf/engine.rs, src/smf/forwarding.rs), RFC 6621 section 5.
module SmfEngine {
  import opened Bytes

  // should_forward(ingress interface, previous hop, source, destination group)
  type Selector = (string, IpAddr, IpAddr, IpAddr) -> bool

  datatype Engine = Engine(localAddrs: seq<IpAddr>, shouldForward: Selector)

  predicate IsMulticast(a: IpAddr) {
    match a
    case V4(ip) => 224 <= ip[0] <= 239
    case V6(ip) => ip[0] == 0xff
  }

  predicate IsLinkLocalMulticast(a: IpAddr) {
    match a
    case V4(ip) => ip[0] == 224 && ip[1] == 0 && ip[2] == 0
    case V6(ip) => ip[0] == 0xff && ip[1] == 0x02
  }

  predicate CheckForwardingRules(src: IpAddr, dst: IpAddr, ttl: byte, localAddrs: seq<IpAddr>) {
    && IsMulticast(dst)
    && ttl > 1
    && !IsLinkLocalMulticast(dst)
    && src !in localAddrs
  }

  function TtlOffset(dst: IpAddr): nat {
    if dst.V4? then 8 else 7
  }

  // The packet with its TTL octet set to one less than the TTL passed in (not the one it holds).
  function Decremented(packet: seq<byte>, dst: IpAddr, ttl: byte): seq<byte> {
    if |packet| > TtlOffset(dst) then packet[TtlOffset(dst) := if ttl == 0 then 0 else ttl - 1] else packet
  }

  function Process(e: Engine, packet: seq<byte>, src: IpAddr, dst: IpAddr, ttl: byte,
                   ingress: string, prevHop: IpAddr): Option<seq<byte>> {
    if !CheckForwardingRules(src, dst, ttl, e.localAddrs) then None
    else if !e.shouldForward(ingress, prevHop, src, dst) then None
    else Some(Decremented(packet, dst, ttl))
  }

  method DecrementTtl(packet: array<byte>, dst: IpAddr, ttl: byte)
    modifies packet
    ensures packet[..] == Decremented(old(packet[..]), dst, ttl)
    ensures forall i :: 0 <= i < packet.Length ==>
              packet[i] == if i != (if dst.V4? then 8 else 7) then old(packet[i]) else if ttl == 0 then 0 else ttl - 1
  {
    var offset := TtlOffset(dst);
    if packet.Length > offset {
      packet[offset] := if ttl == 0 then 0 else ttl - 1;
    }
  }

  // The source copies the packet and edits the copy; no engine state changes and the
  // duplicate cache is not consulted.
  method ProcessPacket(e: Engine, packet: seq<byte>, src: IpAddr, dst: IpAddr, ttl: byte,
                       ingress: string, prevHop: IpAddr) returns (r: Option<seq<byte>>)
    ensures r == Process(e, packet, src, dst, ttl, ingress, prevHop)
  {
    if !CheckForwardingRules(src, dst, ttl, e.localAddrs) {
      return None;
    }
    if !e.shouldForward(ingress, prevHop, src, dst) {
      return None;
    }
    var modified := new byte[|packet|](i requires 0 <= i < |packet| => packet[i]);
    assert modified[..] == packet;
    DecrementTtl(modified, dst, ttl);
    r := Some(modified[..]);
  }

  // Main result: what the engine does with any packet and any TTL passed along with it, in octets.
  // The groups are 224.0.0.0/4 without 224.0.0.0/24, and ff00::/8 without those whose second octet
  // is 2. A forwarded packet differs at the TTL or hop limit octet only.
  lemma ProcessExact(e: Engine, packet: seq<byte>, src: IpAddr, dst: IpAddr, ttl: byte,
                     ingress: string, prevHop: IpAddr)
    ensures var r := Process(e, packet, src, dst, ttl, ingress, prevHop);
            var at := if dst.V4? then 8 else 7;
            && (r.Some? <==>
                  && (match dst
                      case V4(ip) => 224 <= ip[0] < 240 && ip[..3] != [224, 0, 0]
                      case V6(ip) => ip[0] == 255 && ip[1] != 2)
                  && ttl > 1 && src !in e.localAddrs && e.shouldForward(ingress, prevHop, src, dst))
            && (r.Some? ==>
                  && |r.value| == |packet|
                  && forall i :: 0 <= i < |packet| ==> r.value[i] == if i == at then ttl - 1 else packet[i])
  {
    if dst.V4? {
      assert dst.v4[..3] == [dst.v4[0], dst.v4[1], dst.v4[2]];
    }
  }

  // ----- One copy through a chain of engines --------------------------------------------------

  // The TTL octet a receiver reads; a packet too short to hold one counts as expired.
  function TtlOf(packet: seq<byte>, dst: IpAddr): byte {
    if |packet| > TtlOffset(dst) then packet[TtlOffset(dst)] else 0
  }

  datatype Hop = Hop(engine: Engine, ingress: string, prevHop: IpAddr)

  function Receive(h: Hop, packet: seq<byte>, src: IpAddr, dst: IpAddr): Option<seq<byte>> {
    Process(h.engine, packet, src, dst, TtlOf(packet, dst), h.ingress, h.prevHop)
  }

  function Chain(hops: seq<Hop>, packet: seq<byte>, src: IpAddr, dst: IpAddr): Option<seq<byte>> {
    if hops == [] then Some(packet)
    else
      match Receive(hops[0], packet, src, dst)
      case None => None
      case Some(p) => Chain(hops[1..], p, src, dst)
  }

  predicate Willing(h: Hop, src: IpAddr, dst: IpAddr) {
    src !in h.engine.localAddrs && h.engine.shouldForward(h.ingress, h.prevHop, src, dst)
  }

  lemma ReceiveExact(h: Hop, packet: seq<byte>, src: IpAddr, dst: IpAddr)
    ensures Receive(h, packet, src, dst).Some?
            <==> IsMulticast(dst) && !IsLinkLocalMulticast(dst) && TtlOf(packet, dst) > 1 && Willing(h, src, dst)
    ensures Receive(h, packet, src, dst).Some? ==>
              Receive(h, packet, src, dst).value == packet[TtlOffset(dst) := TtlOf(packet, dst) - 1]
              && TtlOf(Receive(h, packet, src, dst).value, dst) == TtlOf(packet, dst) - 1
  {
  }

  // Main result: a packet with TTL t gets through k engines exactly when the group is routable,
  // k <= t - 1 and every engine is willing; it then differs only in the TTL octet, which is t - k.
  lemma {:induction false} ChainExact(hops: seq<Hop>, packet: seq<byte>, src: IpAddr, dst: IpAddr)
    requires hops != []
    ensures Chain(hops, packet, src, dst).Some?
            <==> && IsMulticast(dst) && !IsLinkLocalMulticast(dst)
                 && |hops| <= TtlOf(packet, dst) - 1
                 && forall h :: h in hops ==> Willing(h, src, dst)
    ensures Chain(hops, packet, src, dst).Some? ==>
              |hops| < TtlOf(packet, dst)
              && Chain(hops, packet, src, dst).value == packet[TtlOffset(dst) := TtlOf(packet, dst) - |hops|]
    decreases |hops|
  {
    ReceiveExact(hops[0], packet, src, dst);
    assert hops == [hops[0]] + hops[1..];
    if hops[1..] != [] && Receive(hops[0], packet, src, dst).Some? {
      ChainExact(hops[1..], Receive(hops[0], packet, src, dst).value, src, dst);
    }
  }
}
