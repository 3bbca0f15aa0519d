/** Value model of the address types of Rust's `std::net` that the crate matches on.
    Only what the crate uses is modelled: the shape of each type (which variant, which
    octets, which port and v6 payload) and the four address constants it returns.
    Octets are kept in network order, as `Ipv4Addr::octets` and `Ipv6Addr::octets` give them. */
module Net {

  newtype u8 = x: int | 0 <= x < 0x100
  newtype u16 = x: int | 0 <= x < 0x1_0000
  newtype u32 = x: int | 0 <= x < 0x1_0000_0000

  type Octets4 = s: seq<u8> | |s| == 4 witness [0, 0, 0, 0]
  type Octets16 = s: seq<u8> | |s| == 16 witness [0, 0, 0, 0, 0, 0, 0, 0, 0, 0, 0, 0, 0, 0, 0, 0]

  datatype Ipv4Addr = Ipv4Addr(octets: Octets4)
  datatype Ipv6Addr = Ipv6Addr(octets: Octets16)

  /** `std::net::IpAddr`: an address of either family. */
  datatype IpAddr = V4(v4: Ipv4Addr) | V6(v6: Ipv6Addr)

  datatype SocketAddrV4 = SocketAddrV4(ip: Ipv4Addr, port: u16)
  /** The flow label and scope id are carried but never inspected by the crate. */
  datatype SocketAddrV6 = SocketAddrV6(ip: Ipv6Addr, port: u16, flowinfo: u32, scopeId: u32)

  /** `std::net::SocketAddr`: an address of either family with a port. */
  datatype SocketAddr = V4(v4: SocketAddrV4) | V6(v6: SocketAddrV6)

  /** `Ipv4Addr::LOCALHOST`, 127.0.0.1. */
  const Ipv4Localhost: Ipv4Addr := Ipv4Addr([127, 0, 0, 1])
  /** `Ipv4Addr::UNSPECIFIED`, 0.0.0.0. */
  const Ipv4Unspecified: Ipv4Addr := Ipv4Addr([0, 0, 0, 0])
  /** `Ipv6Addr::LOCALHOST`, ::1. */
  const Ipv6Localhost: Ipv6Addr := Ipv6Addr([0, 0, 0, 0, 0, 0, 0, 0, 0, 0, 0, 0, 0, 0, 0, 1])
  /** `Ipv6Addr::UNSPECIFIED`, ::. */
  const Ipv6Unspecified: Ipv6Addr := Ipv6Addr([0, 0, 0, 0, 0, 0, 0, 0, 0, 0, 0, 0, 0, 0, 0, 0])

  /** The octets of an address of either family. */
  function Octets(a: IpAddr): (s: seq<u8>)
    ensures |s| == if a.V4? then 4 else 16
  {
    match a
    case V4(v4) => v4.octets
    case V6(v6) => v6.octets
  }

  /** `SocketAddr::ip`: the address part of a socket address. */
  function Ip(s: SocketAddr): (a: IpAddr)
    ensures a.V4? <==> s.V4?
  {
    match s
    case V4(v4) => IpAddr.V4(v4.ip)
    case V6(v6) => IpAddr.V6(v6.ip)
  }

  /** The number an octet string denotes read in network (big-endian) order, as
      `u32::from(Ipv4Addr)` and `u128::from(Ipv6Addr)` read it. */
  function Value(s: seq<u8>): nat
  {
    if s == [] then 0 else 256 * Value(s[..|s| - 1]) + s[|s| - 1] as int
  }

  function Zeros(n: nat): (z: seq<u8>)
    ensures |z| == n
    ensures forall i :: 0 <= i < n ==> z[i] == 0
  {
    seq(n, _ => 0)
  }

  lemma {:induction false} ValueOfZeros(n: nat)
    ensures Value(Zeros(n)) == 0
  {
    if n > 0 {
      assert Zeros(n)[..n - 1] == Zeros(n - 1);
      ValueOfZeros(n - 1);
    }
  }

  /** Leading zero octets do not change the number an octet string denotes. */
  lemma {:induction false} ValueIgnoresLeadingZeros(n: nat, s: seq<u8>)
    ensures Value(Zeros(n) + s) == Value(s)
  {
    var t := Zeros(n) + s;
    if s == [] {
      assert t == Zeros(n);
      ValueOfZeros(n);
    } else {
      assert t[..|t| - 1] == Zeros(n) + s[..|s| - 1];
      ValueIgnoresLeadingZeros(n, s[..|s| - 1]);
    }
  }

  /** Two octet strings of one length that denote the same number are equal. */
  lemma {:induction false} ValueInjective(a: seq<u8>, b: seq<u8>)
    requires |a| == |b|
    requires Value(a) == Value(b)
    ensures a == b
  {
    if a != [] {
      var n := |a| - 1;
      assert 256 * Value(a[..n]) + a[n] as int == 256 * Value(b[..n]) + b[n] as int;
      ValueInjective(a[..n], b[..n]);
      assert a == a[..n] + [a[n]];
      assert b == b[..n] + [b[n]];
    }
  }
}
