/** The `ip-family` crate: a runtime tag for the two IP address families, the loopback
    and unspecified address of each family, and the recovery of the tag from an
    address or a socket address. */
module Family {

  import Net

  /** `IpFamily`, declared in the order V4, V6. */
  datatype IpFamily = V4 | V6

  /** `std::cmp::Ordering`. */
  datatype Ordering = Less | Equal | Greater

  /** The declaration index the derived comparisons compare. */
  function Discriminant(f: IpFamily): nat
  {
    match f
    case V4 => 0
    case V6 => 1
  }

  /** The derived `PartialOrd::lt`: the only ordered pair is V4 < V6. */
  function Lt(a: IpFamily, b: IpFamily): (r: bool)
    ensures r <==> a == V4 && b == V6
  {
    Discriminant(a) < Discriminant(b)
  }

  /** The derived `Ord::cmp`, agreeing with `Lt` and with equality. */
  function Cmp(a: IpFamily, b: IpFamily): (r: Ordering)
    ensures r == Less <==> Lt(a, b)
    ensures r == Equal <==> a == b
    ensures r == Greater <==> Lt(b, a)
  {
    if Discriminant(a) < Discriminant(b) then Less
    else if Discriminant(a) == Discriminant(b) then Equal
    else Greater
  }

  /** `IpFamily::localhost`: the loopback address of the family. */
  function Localhost(f: IpFamily): (r: Net.IpAddr)
    ensures AddrFamily(r) == f
  {
    match f
    case V4 => Net.IpAddr.V4(Net.Ipv4Localhost)
    case V6 => Net.IpAddr.V6(Net.Ipv6Localhost)
  }

  /** `IpFamily::unspecified`: the all-zeros address of the family. */
  function Unspecified(f: IpFamily): (r: Net.IpAddr)
    ensures AddrFamily(r) == f
  {
    match f
    case V4 => Net.IpAddr.V4(Net.Ipv4Unspecified)
    case V6 => Net.IpAddr.V6(Net.Ipv6Unspecified)
  }

  /** `AsRef<IpFamily> for IpAddr`. */
  function AddrAsRef(a: Net.IpAddr): (r: IpFamily)
    ensures r == V4 <==> a.V4?
    ensures r == V6 <==> a.V6?
  {
    match a
    case V4(_) => V4
    case V6(_) => V6
  }

  /** `From<IpAddr> for IpFamily`. */
  function AddrFrom(a: Net.IpAddr): (r: IpFamily)
    ensures r == V4 <==> a.V4?
    ensures r == V6 <==> a.V6?
  {
    match a
    case V4(_) => V4
    case V6(_) => V6
  }

  /** `AsRef<IpFamily> for SocketAddr`. */
  function SocketAsRef(s: Net.SocketAddr): (r: IpFamily)
    ensures r == V4 <==> s.V4?
    ensures r == V6 <==> s.V6?
  {
    match s
    case V4(_) => V4
    case V6(_) => V6
  }

  /** `From<SocketAddr> for IpFamily`. */
  function SocketFrom(s: Net.SocketAddr): (r: IpFamily)
    ensures r == V4 <==> s.V4?
    ensures r == V6 <==> s.V6?
  {
    match s
    case V4(_) => V4
    case V6(_) => V6
  }

  /** `IpFamilyExt::family` on an `IpAddr`: the blanket impl dereferences `as_ref`. */
  function AddrFamily(a: Net.IpAddr): (r: IpFamily)
    ensures r == V4 <==> a.V4?
    ensures r == AddrFrom(a)
  {
    AddrAsRef(a)
  }

  /** `IpFamilyExt::family` on a `SocketAddr`: a socket address has the family of its IP. */
  function SocketFamily(s: Net.SocketAddr): (r: IpFamily)
    ensures r == SocketAsRef(s)
    ensures r == AddrFamily(Net.Ip(s))
  {
    SocketAsRef(s)
  }

  /** The number the loopback address of a family denotes in network order:
      127.0.0.1 (section 3.2.1.3 of RFC 1122) and ::1 (section 2.5.3 of RFC 4291). */
  function LoopbackValue(f: IpFamily): nat
  {
    match f
    case V4 => 0x7F00_0001
    case V6 => 1
  }

  // Properties

  /** The derived order is a strict total order. */
  lemma LtIsStrictTotalOrder(a: IpFamily, b: IpFamily, c: IpFamily)
    ensures !Lt(a, a)
    ensures Lt(a, b) ==> !Lt(b, a)
    ensures Lt(a, b) && Lt(b, c) ==> Lt(a, c)
    ensures a == b || Lt(a, b) || Lt(b, a)
  {
  }

  /** Both extraction paths and `family()` agree on every address. */
  lemma AddrExtractionAgrees(a: Net.IpAddr)
    ensures AddrAsRef(a) == AddrFrom(a) == AddrFamily(a)
  {
  }

  /** Both extraction paths and `family()` agree on every socket address. */
  lemma SocketExtractionAgrees(s: Net.SocketAddr)
    ensures SocketAsRef(s) == SocketFrom(s) == SocketFamily(s)
  {
  }

  /** Two addresses have the same family exactly when they are the same variant:
      the octets never matter. */
  lemma AddrFamilyIsVariant(a: Net.IpAddr, b: Net.IpAddr)
    ensures AddrFamily(a) == AddrFamily(b) <==> (a.V4? <==> b.V4?)
  {
  }

  /** Two socket addresses have the same family exactly when they are the same variant:
      address, port, flow label and scope id never matter. */
  lemma SocketFamilyIsVariant(s: Net.SocketAddr, t: Net.SocketAddr)
    ensures SocketFamily(s) == SocketFamily(t) <==> (s.V4? <==> t.V4?)
  {
  }

  /** The octets of the loopback address denote 127.0.0.1 or ::1. */
  lemma LocalhostValue(f: IpFamily)
    ensures |Net.Octets(Localhost(f))| == if f == V4 then 4 else 16
    ensures Net.Value(Net.Octets(Localhost(f))) == LoopbackValue(f)
  {
    match f
    case V4 =>
      var s := Net.Ipv4Localhost.octets;
      assert s[..3][..2][..1][..0] == [];
      assert Net.Value(s[..3][..2][..1]) == 127;
      assert Net.Value(s[..3][..2]) == 127 * 256;
      assert Net.Value(s[..3]) == 127 * 256 * 256;
    case V6 =>
      assert Net.Ipv6Localhost.octets == Net.Zeros(15) + [1];
      Net.ValueIgnoresLeadingZeros(15, [1]);
      assert [1 as Net.u8][..0] == [];
  }

  /** The octets of the unspecified address all are zero and denote the number 0. */
  lemma UnspecifiedValue(f: IpFamily)
    ensures Net.Octets(Unspecified(f)) == Net.Zeros(if f == V4 then 4 else 16)
    ensures Net.Value(Net.Octets(Unspecified(f))) == 0
  {
    var n := if f == V4 then 4 else 16;
    assert Net.Octets(Unspecified(f)) == Net.Zeros(n);
    Net.ValueOfZeros(n);
  }

  /** An address of family `f` is `localhost(f)` exactly when its octets denote the
      loopback number of that family. */
  lemma LocalhostUnique(f: IpFamily, a: Net.IpAddr)
    requires AddrFamily(a) == f
    ensures a == Localhost(f) <==> Net.Value(Net.Octets(a)) == LoopbackValue(f)
  {
    LocalhostValue(f);
    if Net.Value(Net.Octets(a)) == LoopbackValue(f) {
      Net.ValueInjective(Net.Octets(a), Net.Octets(Localhost(f)));
    }
  }

  /** An address of family `f` is `unspecified(f)` exactly when its octets denote 0. */
  lemma UnspecifiedUnique(f: IpFamily, a: Net.IpAddr)
    requires AddrFamily(a) == f
    ensures a == Unspecified(f) <==> Net.Value(Net.Octets(a)) == 0
  {
    UnspecifiedValue(f);
    if Net.Value(Net.Octets(a)) == 0 {
      Net.ValueInjective(Net.Octets(a), Net.Octets(Unspecified(f)));
    }
  }

  /** The loopback and the unspecified address of a family are different addresses. */
  lemma LocalhostIsNotUnspecified(f: IpFamily)
    ensures Localhost(f) != Unspecified(f)
  {
  }
}
