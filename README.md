# ip-family, modelled in Dafny

The `ip-family` crate gives generic networking code a runtime tag for the two IP
address families. `IpFamily` has the variants `V4` and `V6`, ordered V4 < V6 by
declaration. Each tag yields its family's loopback address and its unspecified
(all-zeros) address. The tag can be recovered from any `IpAddr` or `SocketAddr`,
through `AsRef<IpFamily>`, through `From`, and through the blanket
`IpFamilyExt::family` method built on `AsRef`.

The model has two modules:

- `Net` (net.dfy) models the `std::net` types the crate matches on, as values.
  `IpAddr` holds an `Ipv4Addr` of 4 octets or an `Ipv6Addr` of 16 octets.
  `SocketAddr` holds an IP, a port and, for v6, a flow label and a scope id.
  It also holds the four address constants as literal octets, and `Value`, the number
  an octet string denotes in network order.
- `Family` (ip_family.dfy) models src/lib.rs: the tag, its derived order, the two
  accessors, the four extraction functions and `family()`.

`family()` is a blanket impl over every `T: AsRef<IpFamily>`. The crate implements
`AsRef<IpFamily>` for exactly two types, so the model writes it out once for each:
`AddrFamily` and `SocketFamily`.

`Net` also defines `Octets` (the octets of an `IpAddr`), `Value` (the reading of
`u32::from(Ipv4Addr)` and `u128::from(Ipv6Addr)`) and `Ip` (`SocketAddr::ip`). The crate
never calls these; the model uses them only to state its contracts.

## Model

| member | source | states |
|---|---|---|
| `Family.Lt` | src/lib.rs:3-7 | the derived `<` holds for exactly one pair, V4 < V6 |
| `Family.Cmp` | src/lib.rs:3-7 | the derived `cmp` is `Less`, `Equal` or `Greater` exactly when `Lt(a, b)`, `a == b` or `Lt(b, a)` holds |
| `Family.LtIsStrictTotalOrder` | src/lib.rs:3-7 | the derived order is irreflexive, asymmetric, transitive and total |
| `Family.Localhost` | src/lib.rs:10-15 | `localhost(f)` is an address whose family is `f` |
| `Family.Unspecified` | src/lib.rs:17-22 | `unspecified(f)` is an address whose family is `f` |
| `Family.LocalhostValue` | src/lib.rs:12-13 | `localhost(V4)` has 4 octets denoting 127.0.0.1 (section 3.2.1.3 of RFC 1122); `localhost(V6)` has 16 octets denoting ::1 (section 2.5.3 of RFC 4291) |
| `Family.UnspecifiedValue` | src/lib.rs:19-20 | `unspecified(V4)` is 4 zero octets and `unspecified(V6)` is 16 zero octets, so both denote the number 0 |
| `Family.LocalhostUnique` | src/lib.rs:10-15 | an address of family `f` equals `localhost(f)` if and only if its octets denote 127.0.0.1 (v4) or ::1 (v6) |
| `Family.UnspecifiedUnique` | src/lib.rs:17-22 | an address of family `f` equals `unspecified(f)` if and only if its octets denote 0 |
| `Family.LocalhostIsNotUnspecified` | src/lib.rs:10-22 | for each family the loopback and the unspecified address differ |
| `Family.AddrAsRef` | src/lib.rs:25-32 | `as_ref` on an `IpAddr` is `V4` exactly for v4 addresses and `V6` exactly for v6 addresses |
| `Family.AddrFrom` | src/lib.rs:34-41 | `IpFamily::from` on an `IpAddr` is `V4` exactly for v4 addresses and `V6` exactly for v6 addresses |
| `Family.SocketAsRef` | src/lib.rs:43-50 | `as_ref` on a `SocketAddr` is `V4` exactly for v4 socket addresses and `V6` exactly for v6 ones |
| `Family.SocketFrom` | src/lib.rs:52-59 | `IpFamily::from` on a `SocketAddr` is `V4` exactly for v4 socket addresses and `V6` exactly for v6 ones |
| `Family.AddrFamily` | src/lib.rs:61-69 | `family()` on an `IpAddr` is `V4` exactly for v4 addresses, and equals the tag `IpFamily::from` gives |
| `Family.SocketFamily` | src/lib.rs:61-69 | `family()` on a `SocketAddr` is the tag `as_ref` gives, and is the family of the socket address's IP |
| `Family.AddrExtractionAgrees` | src/lib.rs:25-41 | for every `IpAddr`, `as_ref`, `from` and `family()` give the same tag |
| `Family.SocketExtractionAgrees` | src/lib.rs:43-59 | for every `SocketAddr`, `as_ref`, `from` and `family()` give the same tag |
| `Family.AddrFamilyIsVariant` | src/lib.rs:27-29 | two addresses have the same family if and only if they are the same variant, whatever their octets |
| `Family.SocketFamilyIsVariant` | src/lib.rs:45-47 | two socket addresses have the same family if and only if they are the same variant, whatever their address, port, flow label and scope id |

## Left out

- Parsing, formatting and `Display` of addresses and socket addresses: these belong to `std::net`, and the crate never calls them.
- The other methods of `std::net` types (`is_loopback`, `is_multicast`, `set_ip`, `set_port`, resolution through `ToSocketAddrs`): the crate does not use them. The four constants it uses are written as literal octets. `Net.Octets`, `Net.Value` and `Net.Ip` are kept only as vocabulary for contracts.
- References and lifetimes: `as_ref` returns a `&'static IpFamily`; the model returns the tag as a value.
- `const fn` on `localhost`: a compile-time evaluation detail with no effect on the result.
- The derived `Clone`, `Copy`, `PartialEq` and `Eq`: Dafny datatypes are values with structural equality.
- The other derived comparison methods (`partial_cmp`, through which `<` goes, `le`, `gt`, `ge`, `max`, `min`, `clamp`): they follow from `Cmp`.
