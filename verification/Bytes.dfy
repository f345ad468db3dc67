// Shared vocabulary: octets, addresses and the two failure-carrying datatypes.
module Bytes {
  type byte = x: int | 0 <= x < 256

  type Ipv4 = s: seq<byte> | |s| == 4 witness [0, 0, 0, 0]
  type Ipv6 = s: seq<byte> | |s| == 16 witness [0, 0, 0, 0, 0, 0, 0, 0, 0, 0, 0, 0, 0, 0, 0, 0]

  datatype IpAddr = V4(v4: Ipv4) | V6(v6: Ipv6)

  datatype Option<+T> = None | Some(value: T)

  datatype Result<+T, +E> = Ok(value: T) | Err(error: E)

  const UNSPECIFIED_V4: Ipv4 := [0, 0, 0, 0]
  const UNSPECIFIED_V6: Ipv6 := [0, 0, 0, 0, 0, 0, 0, 0, 0, 0, 0, 0, 0, 0, 0, 0]

  // u16::from_be_bytes([hi, lo])
  function U16(hi: byte, lo: byte): nat {
    hi * 256 + lo
  }

  // (n as u16).to_be_bytes(): the cast keeps the low 16 bits.
  function U16Bytes(n: nat): (bs: seq<byte>)
    ensures |bs| == 2
  {
    [(n / 256) % 256, n % 256]
  }

  lemma U16RoundTrip(n: nat)
    ensures U16(U16Bytes(n)[0], U16Bytes(n)[1]) == n % 65536
  {
    assert n == (n / 256) * 256 + n % 256;
    var q := n / 256;
    assert q == (q / 256) * 256 + q % 256;
    assert n == (q / 256) * 65536 + ((q % 256) * 256 + n % 256);
  }

  lemma U16BytesRoundTrip(hi: byte, lo: byte)
    ensures U16Bytes(U16(hi, lo)) == [hi, lo]
  {
    var n := U16(hi, lo);
    assert n / 256 == hi && n % 256 == lo;
  }

  lemma Assoc<T>(a: seq<T>, b: seq<T>, c: seq<T>)
    ensures (a + b) + c == a + (b + c)
  {
  }

  // Taking and dropping at the seam of a concatenation.
  lemma Seam<T>(a: seq<T>, b: seq<T>)
    ensures (a + b)[..|a|] == a && (a + b)[|a|..] == b
  {
  }

  lemma SliceOfDrop<T>(s: seq<T>, a: nat, b: nat, n: nat)
    requires a + b + n <= |s|
    ensures s[a..][b..b + n] == s[a + b..a + b + n]
  {
  }

  lemma SubsetSize<T>(a: set<T>, b: set<T>)
    requires a <= b
    ensures |a| <= |b|
  {
    assert b == a + (b - a);
  }
}
