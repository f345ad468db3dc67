// Packet identifiers for duplicate detection (src/smf/dpd_ipv6.rs, h_dpd_hash in src/smf/dpd.rs).
module DpdKeys {
  import opened Bytes
  import SmfDpdOption

  datatype DpdKey = DpdKey(srcAddr: IpAddr, dstAddr: IpAddr, packetId: nat)

  const TWO_TO_THE_64: nat := 0x1_0000_0000_0000_0000

  // ----- Big-endian packing ----------------------------------------------------------------

  // u64::from_be_bytes, folded from the left.
  function BigEndian(bs: seq<byte>): nat {
    if bs == [] then 0 else BigEndian(bs[..|bs| - 1]) * 256 + bs[|bs| - 1]
  }

  function Zeros(n: nat): (z: seq<byte>)
    ensures |z| == n && forall i :: 0 <= i < n ==> z[i] == 0
  {
    if n == 0 then [] else [0] + Zeros(n - 1)
  }

  // The first eight octets, padded with zeros on the right.
  function Pad8(bs: seq<byte>): (p: seq<byte>)
    ensures |p| == 8
    ensures forall i :: 0 <= i < 8 ==> p[i] == if i < |bs| then bs[i] else 0
  {
    if |bs| >= 8 then bs[..8] else bs + Zeros(8 - |bs|)
  }

  function BytesToU64(bs: seq<byte>): nat {
    BigEndian(Pad8(bs))
  }

  function KeyFromOption(src: IpAddr, dst: IpAddr, o: SmfDpdOption.DpdOption): DpdKey {
    DpdKey(src, dst, BytesToU64(o.identifier))
  }

  function KeyFromRaw(src: IpAddr, dst: IpAddr, identifier: nat): DpdKey {
    DpdKey(src, dst, identifier)
  }

  function Pow256(n: nat): (p: nat)
    ensures p >= 1
  {
    if n == 0 then 1 else 256 * Pow256(n - 1)
  }

  // The octet-by-octet reading: octet i weighs 256 to the power of what follows it.
  function Weighted(bs: seq<byte>): nat {
    if bs == [] then 0 else bs[0] * Pow256(|bs| - 1) + Weighted(bs[1..])
  }

  lemma ShiftOneOctet(first: nat, power: nat, mid: nat, last: nat)
    ensures (first * power + mid) * 256 + last == first * (256 * power) + (mid * 256 + last)
  {
  }

  lemma {:induction false} BigEndianIsWeighted(bs: seq<byte>)
    ensures BigEndian(bs) == Weighted(bs)
    decreases |bs|
  {
    if |bs| >= 2 {
      var front, tail := bs[..|bs| - 1], bs[1..];
      var mid := bs[1..|bs| - 1];
      assert front[1..] == mid && tail[..|tail| - 1] == mid;
      BigEndianIsWeighted(front);
      BigEndianIsWeighted(tail);
      BigEndianIsWeighted(mid);
      ShiftOneOctet(bs[0], Pow256(|mid|), Weighted(mid), bs[|bs| - 1]);
    } else if |bs| == 1 {
      assert bs[..0] == [] && bs[1..] == [];
    }
  }

  lemma {:induction false} BigEndianBounded(bs: seq<byte>)
    ensures BigEndian(bs) < Pow256(|bs|)
  {
    if bs != [] {
      BigEndianBounded(bs[..|bs| - 1]);
    }
  }

  lemma {:induction false} BigEndianInjective(a: seq<byte>, b: seq<byte>)
    requires |a| == |b| && BigEndian(a) == BigEndian(b)
    ensures a == b
  {
    if a != [] {
      var n := |a| - 1;
      assert a[n] == b[n] && BigEndian(a[..n]) == BigEndian(b[..n]);
      BigEndianInjective(a[..n], b[..n]);
      assert a == a[..n] + [a[n]] && b == b[..n] + [b[n]];
    }
  }

  // The packed identifier is a 64-bit number whose base-256 digits are the padded octets, and
  // no two paddings share it.
  lemma PackingIsBase256(a: seq<byte>, b: seq<byte>)
    ensures BytesToU64(a) == Weighted(Pad8(a)) < TWO_TO_THE_64
    ensures BytesToU64(a) == BytesToU64(b) <==> Pad8(a) == Pad8(b)
  {
    BigEndianIsWeighted(Pad8(a));
    BigEndianBounded(Pad8(a));
    assert Pow256(8) == TWO_TO_THE_64 by {
      assert Pow256(2) == 0x1_0000;
      assert Pow256(4) == 0x1_0000_0000;
      assert Pow256(6) == 0x1_0000_0000_0000;
    }
    if BytesToU64(a) == BytesToU64(b) {
      BigEndianInjective(Pad8(a), Pad8(b));
    }
  }

  // Main result: two options collide exactly when the addresses and the padded first eight
  // octets agree, and sending the options over the wire changes nothing.
  lemma OptionKeysCollideIff(src: IpAddr, dst: IpAddr, o: SmfDpdOption.DpdOption,
                             src': IpAddr, dst': IpAddr, p: SmfDpdOption.DpdOption)
    ensures KeyFromOption(src, dst, o) == KeyFromOption(src', dst', p)
            <==> src == src' && dst == dst' && Pad8(o.identifier) == Pad8(p.identifier)
    ensures SmfDpdOption.Canonical(o) ==>
              SmfDpdOption.Decode(SmfDpdOption.Encoding(o)[2..]).Some?
              && KeyFromOption(src, dst, SmfDpdOption.Decode(SmfDpdOption.Encoding(o)[2..]).value)
                 == KeyFromOption(src, dst, o)
  {
    PackingIsBase256(o.identifier, p.identifier);
    SmfDpdOption.DecodeEncodeIff(o);
  }

  // For identifiers of at most eight octets the only collisions are by trailing zero octets.
  lemma ShortIdentifiersCollideIff(a: seq<byte>, b: seq<byte>)
    requires |a| <= |b| <= 8
    ensures BytesToU64(a) == BytesToU64(b) <==> b == a + Zeros(|b| - |a|)
  {
    PackingIsBase256(a, b);
    if Pad8(a) == Pad8(b) {
      forall i | 0 <= i < |b|
        ensures b[i] == (a + Zeros(|b| - |a|))[i]
      {
        assert Pad8(a)[i] == Pad8(b)[i];
      }
    }
    if b == a + Zeros(|b| - |a|) {
      assert Pad8(a) == Pad8(b);
    }
  }

  lemma {:induction false} BigEndianAppendZeros(bs: seq<byte>, n: nat)
    ensures BigEndian(bs + Zeros(n)) == BigEndian(bs) * Pow256(n)
  {
    if n == 0 {
      assert bs + Zeros(0) == bs;
    } else {
      var longer := bs + Zeros(n);
      assert longer[..|longer| - 1] == bs + Zeros(n - 1);
      BigEndianAppendZeros(bs, n - 1);
      ShiftOneOctet(BigEndian(bs), Pow256(n - 1), 0, 0);
    }
  }

  // The padding is on the right: one 32-bit identifier gives two different keys when it arrives
  // as a raw number and as a four-octet option, unless it is zero.
  lemma RawAndOptionKeysAgreeIff(src: IpAddr, dst: IpAddr, o: SmfDpdOption.DpdOption)
    requires |o.identifier| == 4
    ensures KeyFromRaw(src, dst, BigEndian(o.identifier)) == KeyFromOption(src, dst, o)
            <==> BigEndian(o.identifier) == 0
  {
    assert Pad8(o.identifier) == o.identifier + Zeros(4);
    BigEndianAppendZeros(o.identifier, 4);
    assert Pow256(2) == 0x1_0000;
    assert Pow256(4) == 0x1_0000_0000;
  }

  // ----- Hash-based identifiers ---------------------------------------------------------------

  function Octets(a: IpAddr): seq<byte> {
    match a
    case V4(ip) => ip
    case V6(ip) => ip
  }

  // The hash sees both addresses and at most 64 octets of payload.
  function HashedPart(payload: seq<byte>): seq<byte> {
    if |payload| < 64 then payload else payload[..64]
  }

  function HashInput(src: IpAddr, dst: IpAddr, payload: seq<byte>): seq<byte> {
    Octets(src) + Octets(dst) + HashedPart(payload)
  }

  // murmur3_x64_128 is a parameter; nothing is claimed about its collisions.
  function HashKey(murmur: seq<byte> -> nat, src: IpAddr, dst: IpAddr, payload: seq<byte>): (DpdKey, nat) {
    var packetId := murmur(HashInput(src, dst, payload)) % TWO_TO_THE_64;
    (DpdKey(src, dst, packetId), packetId)
  }

  lemma SamePrefixSameRest<T>(a: seq<T>, x: seq<T>, y: seq<T>)
    ensures a + x == a + y <==> x == y
  {
    Seam(a, x);
    Seam(a, y);
  }

  // Main result: two packets get the same key from every hash function exactly when their
  // addresses and the first 64 octets of their payloads agree; what follows never matters.
  lemma HashKeysAgreeIff(src: IpAddr, dst: IpAddr, payload: seq<byte>, src': IpAddr, dst': IpAddr, payload': seq<byte>)
    ensures (forall murmur: seq<byte> -> nat ::
               HashKey(murmur, src, dst, payload).0 == HashKey(murmur, src', dst', payload').0) <==>
              src == src' && dst == dst' && HashedPart(payload) == HashedPart(payload')
  {
    var x, y := HashInput(src, dst, payload), HashInput(src', dst', payload');
    var tell: seq<byte> -> nat := z => if z == x then 0 else 1;
    if HashKey(tell, src, dst, payload).0 == HashKey(tell, src', dst', payload').0 {
      assert tell(y) % TWO_TO_THE_64 == 0;
      SamePrefixSameRest(Octets(src) + Octets(dst), HashedPart(payload), HashedPart(payload'));
    }
  }

  // What a key carries, and that the hash assist value is its identifier, a 64-bit number.
  lemma KeyFields(murmur: seq<byte> -> nat, src: IpAddr, dst: IpAddr, payload: seq<byte>,
                  o: SmfDpdOption.DpdOption, identifier: nat)
    ensures var (key, hav) := HashKey(murmur, src, dst, payload);
            key.srcAddr == src && key.dstAddr == dst && key.packetId == hav < 0x1_0000_0000_0000_0000
    ensures var key := KeyFromOption(src, dst, o);
            key.srcAddr == src && key.dstAddr == dst && key.packetId == BytesToU64(o.identifier)
    ensures var key := KeyFromRaw(src, dst, identifier);
            key.srcAddr == src && key.dstAddr == dst && key.packetId == identifier
  {
  }

  // The hashed octets by position: source address, destination address, then at most 64 octets of
  // payload; the key is the low half of the hash of these.
  lemma HashedOctets(murmur: seq<byte> -> nat, src: IpAddr, dst: IpAddr, payload: seq<byte>)
    ensures var s: seq<byte> := if src.V4? then src.v4 else src.v6;
            var d: seq<byte> := if dst.V4? then dst.v4 else dst.v6;
            var n := if |payload| < 64 then |payload| else 64;
            var input := HashInput(src, dst, payload);
            && |input| == |s| + |d| + n
            && input[..|s|] == s && input[|s|..|s| + |d|] == d && input[|s| + |d|..] == payload[..n]
            && HashKey(murmur, src, dst, payload).1 == murmur(input) % 0x1_0000_0000_0000_0000
  {
    Seam(Octets(src) + Octets(dst), HashedPart(payload));
    Seam(Octets(src), Octets(dst));
  }
}
