/** Locality check: is a cache server on a subnet of one of this host's
    network interfaces? The interface table and the resolver's answer are
    inputs (the operating-system calls that produce them are not modelled). */
module SmartRouting {
  import opened Basics

  /** An IPv4 address (`in_addr.s_addr`, kept in network byte order) with its
      dotted text. */
  datatype Address = Address(address: bv32, name: string)

  /** A local interface: its name, its address and its netmask. */
  datatype Interface = Interface(name: string, address: Address, mask: Address)

  /** The IPv4 addresses a host name resolved to, in resolver order. */
  datatype Endpoint = Endpoint(addresses: seq<Address>)

  /** What resolving a host name gives: an endpoint, or the failure that the
      source raises as `smartrouting::Exception`. */
  datatype Resolution = Resolved(endpoint: Endpoint) | Unresolvable

  /** The exception `is_same_subnet` lets escape, with its message. */
  datatype RoutingError = RoutingError(message: string)

  datatype Outcome = Local(isLocal: bool) | Raised(error: RoutingError)

  /** `is_same_subnet_address`: both addresses agree on every bit of the
      interface's mask. */
  predicate SameSubnetAddress(iface: Interface, addr: Address): (r: bool)
    ensures r <==> (iface.address.address ^ addr.address) & iface.mask.address == 0
  {
    iface.address.address & iface.mask.address == addr.address & iface.mask.address
  }

  /** `std::find_if` over the endpoint's addresses: the position of the first
      address on the interface's subnet, or the end position. */
  function FindAddress(iface: Interface, addrs: seq<Address>): (k: nat)
    ensures k <= |addrs|
    ensures k < |addrs| ==> SameSubnetAddress(iface, addrs[k])
    ensures forall j :: 0 <= j < k ==> !SameSubnetAddress(iface, addrs[j])
    decreases |addrs|
  {
    if addrs == [] then 0
    else if SameSubnetAddress(iface, addrs[0]) then 0
    else 1 + FindAddress(iface, addrs[1..])
  }

  /** `is_same_subnet_interface`: the search above did not reach the end. */
  function SameSubnetInterface(iface: Interface, endpoint: Endpoint): (r: bool)
    ensures r <==> exists j :: 0 <= j < |endpoint.addresses| && SameSubnetAddress(iface, endpoint.addresses[j])
  {
    FindAddress(iface, endpoint.addresses) != |endpoint.addresses|
  }

  /** `std::find_if` over the interfaces `[begin, end)`, here the sequence
      `ifaces`: the first interface that shares a subnet with the endpoint. */
  function FindInterface(ifaces: seq<Interface>, endpoint: Endpoint): (k: nat)
    ensures k <= |ifaces|
    ensures k < |ifaces| ==> SameSubnetInterface(ifaces[k], endpoint)
    ensures forall i :: 0 <= i < k ==> !SameSubnetInterface(ifaces[i], endpoint)
    decreases |ifaces|
  {
    if ifaces == [] then 0
    else if SameSubnetInterface(ifaces[0], endpoint) then 0
    else 1 + FindInterface(ifaces[1..], endpoint)
  }

  /** A pair of an interface and an address that share the interface's subnet. */
  ghost predicate Matches(ifaces: seq<Interface>, addrs: seq<Address>) {
    exists i, j :: 0 <= i < |ifaces| && 0 <= j < |addrs| && SameSubnetAddress(ifaces[i], addrs[j])
  }

  /** `is_same_subnet_impl`: some interface and some address of the endpoint
      share the interface's subnet. */
  function SameSubnetImpl(ifaces: seq<Interface>, endpoint: Endpoint): (r: bool)
    ensures r <==> Matches(ifaces, endpoint.addresses)
  {
    var k := FindInterface(ifaces, endpoint);
    if k < |ifaces| then
      var j := FindAddress(ifaces[k], endpoint.addresses);
      assert SameSubnetAddress(ifaces[k], endpoint.addresses[j]);
      true
    else
      false
  }

  /** `is_same_subnet(hostname)`: the host name is resolved (the outcome is
      `resolution`); a failed resolution raises, otherwise the endpoint is
      checked against the interface table. */
  function IsSameSubnet(ifaces: seq<Interface>, hostname: string, resolution: Resolution): (o: Outcome)
    ensures resolution.Unresolvable? <==> o.Raised?
    ensures resolution.Unresolvable? ==> o.error.message == "Can't resolve hostname: " + hostname
    ensures resolution.Resolved? ==> (o.isLocal <==> Matches(ifaces, resolution.endpoint.addresses))
  {
    match resolution
    case Unresolvable => Raised(RoutingError("Can't resolve hostname: " + hostname))
    case Resolved(endpoint) => Local(SameSubnetImpl(ifaces, endpoint))
  }

  /** With no interfaces, or an endpoint without addresses, nothing is local. */
  lemma NothingMatchesEmpty(ifaces: seq<Interface>, endpoint: Endpoint)
    requires ifaces == [] || endpoint.addresses == []
    ensures !SameSubnetImpl(ifaces, endpoint)
  {
  }

  /** An interface whose mask is zero matches every address. */
  lemma ZeroMaskMatchesAll(iface: Interface, addr: Address)
    requires iface.mask.address == 0
    ensures SameSubnetAddress(iface, addr)
  {
  }

  /** An interface always matches its own address. */
  lemma OwnAddressMatches(iface: Interface)
    ensures SameSubnetAddress(iface, iface.address)
  {
  }

  /** Appending interfaces or addresses never turns a local host into a remote one. */
  lemma AppendKeepsLocal(ifaces: seq<Interface>, moreIfaces: seq<Interface>,
                         addrs: seq<Address>, moreAddrs: seq<Address>)
    requires SameSubnetImpl(ifaces, Endpoint(addrs))
    ensures SameSubnetImpl(ifaces + moreIfaces, Endpoint(addrs + moreAddrs))
  {
    var i, j :| 0 <= i < |ifaces| && 0 <= j < |addrs| && SameSubnetAddress(ifaces[i], addrs[j]);
    assert (ifaces + moreIfaces)[i] == ifaces[i];
    assert (addrs + moreAddrs)[j] == addrs[j];
  }

  /** The answer does not depend on the order of the interfaces or of the
      addresses: any rearrangement gives the same result. */
  lemma OrderIrrelevant(ifaces: seq<Interface>, ifaces': seq<Interface>,
                        addrs: seq<Address>, addrs': seq<Address>)
    requires multiset(ifaces) == multiset(ifaces')
    requires multiset(addrs) == multiset(addrs')
    ensures SameSubnetImpl(ifaces, Endpoint(addrs)) == SameSubnetImpl(ifaces', Endpoint(addrs'))
  {
    MatchesOneWay(ifaces, ifaces', addrs, addrs');
    MatchesOneWay(ifaces', ifaces, addrs', addrs);
  }

  lemma MatchesOneWay(ifaces: seq<Interface>, ifaces': seq<Interface>,
                      addrs: seq<Address>, addrs': seq<Address>)
    requires multiset(ifaces) == multiset(ifaces')
    requires multiset(addrs) == multiset(addrs')
    ensures Matches(ifaces, addrs) ==> Matches(ifaces', addrs')
  {
    if Matches(ifaces, addrs) {
      var i, j :| 0 <= i < |ifaces| && 0 <= j < |addrs| && SameSubnetAddress(ifaces[i], addrs[j]);
      assert ifaces[i] in multiset(ifaces');
      assert addrs[j] in multiset(addrs');
      var i' :| 0 <= i' < |ifaces'| && ifaces'[i'] == ifaces[i];
      var j' :| 0 <= j' < |addrs'| && addrs'[j'] == addrs[j];
      assert SameSubnetAddress(ifaces'[i'], addrs'[j']);
    }
  }

  /** The worked example of a /24 network: an interface 10.0.0.5/24 makes
      10.0.0.77 local and 10.0.1.77 remote. (Octets are written in memory order,
      the first octet lowest, as `s_addr` holds them on a little-endian host.) */
  lemma SubnetExample()
    ensures var iface := Interface("eth0", Address(0x0500000a, "10.0.0.5"), Address(0x00ffffff, "255.255.255.0"));
            SameSubnetImpl([iface], Endpoint([Address(0x4d00000a, "10.0.0.77")]))
            && !SameSubnetImpl([iface], Endpoint([Address(0x4d01000a, "10.0.1.77")]))
  {
    var iface := Interface("eth0", Address(0x0500000a, "10.0.0.5"), Address(0x00ffffff, "255.255.255.0"));
    assert SameSubnetAddress(iface, Address(0x4d00000a, "10.0.0.77"));
  }
}
