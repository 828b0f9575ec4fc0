/** The table-driven cases of `TestGetLocalIPv4`, each with interfaces and addresses given
    as data the way the test's replacement enumeration functions return them. */
module NetworkScenarios {
  import opened Wrappers
  import opened Bytes
  import opened Strings
  import opened NetIP
  import opened Network
  import opened NetworkProperties

  /** An interface that is up, not loopback, with the given addresses. */
  function UpIface(name: string, addrs: seq<Addr>): Iface
  {
    Iface(name, true, false, Ok(addrs))
  }

  /** `eth0` and `eth1` are too short for `docker` and differ from `veth`. */
  lemma EthNotExcluded(name: string, addrs: seq<Addr>)
    requires name == "eth0" || name == "eth1"
    ensures !Excluded(UpIface(name, addrs))
  {
    ContainsShort(name, "docker");
    ContainsShort(name, "veth");
  }

  /** `&net.IPNet{IP: net.ParseIP(s)}`. */
  function IPNetOf(s: string): Addr
  {
    IPNet(ParseIP(s))
  }

  /** `net.ParseIP("203.0.113.1")`. */
  lemma Literal203()
    ensures ParseIP("203.0.113.1") == IPv4([203, 0, 113, 1])
    ensures FormatIPv4([203, 0, 113, 1]) == "203.0.113.1"
  {
    assert Decimal(203) == "203" && Decimal(0) == "0" && Decimal(113) == "113" && Decimal(1) == "1";
    ParsesAs("203.0.113.1", 203, 0, 113, 1);
    FormatsAs("203.0.113.1", 203, 0, 113, 1);
  }

  /** `net.ParseIP("192.168.1.100")`. */
  lemma Literal192()
    ensures ParseIP("192.168.1.100") == IPv4([192, 168, 1, 100])
    ensures FormatIPv4([192, 168, 1, 100]) == "192.168.1.100"
  {
    assert Decimal(192) == "192" && Decimal(168) == "168" && Decimal(1) == "1" && Decimal(100) == "100";
    ParsesAs("192.168.1.100", 192, 168, 1, 100);
    FormatsAs("192.168.1.100", 192, 168, 1, 100);
  }

  /** An `IPNet` holding the mapped form of a 4-byte address passes the filters as that
      address, unless it is loopback or link-local. */
  lemma MappedUsable(q: seq<byte>)
    requires |q| == IPv4Len && q[0] != 127 && !(q[0] == 169 && q[1] == 254)
    ensures Usable(IPNet(IPv4(q))) == Some(q)
  {
    To4Inverse(IPv4(q), q);
    To4Inverse(q, q);
  }

  /** An interface that is not excluded contributes its usable addresses. */
  lemma OneIface(i: Iface)
    requires !Excluded(i) && i.addrs.Ok?
    ensures Eligible([i]) == UsableAddrs(i.addrs.value)
  {
    assert [i][1..] == [];
  }

  /** One usable address. */
  lemma OneAddr(a: Addr, q: seq<byte>)
    requires Usable(a) == Some(q)
    ensures UsableAddrs([a]) == [q]
  {
    assert [a][1..] == [];
  }

  /** An `eth` interface with one ordinary address contributes exactly that address. */
  lemma EthWithOneAddr(name: string, text: string, q: seq<byte>)
    requires name == "eth0" || name == "eth1"
    requires |q| == IPv4Len && q[0] != 127 && !(q[0] == 169 && q[1] == 254)
    requires ParseIP(text) == IPv4(q)
    ensures Eligible([UpIface(name, [IPNetOf(text)])]) == [q]
  {
    MappedUsable(q);
    OneAddr(IPNetOf(text), q);
    EthNotExcluded(name, [IPNetOf(text)]);
    OneIface(UpIface(name, [IPNetOf(text)]));
  }

  /** Case "normal: public IP": eth0 with 203.0.113.1 gives 203.0.113.1. */
  lemma PublicAddressReturned()
    ensures GetLocalIPv4(Ok([UpIface("eth0", [IPNetOf("203.0.113.1")])])) == "203.0.113.1"
  {
    var i := UpIface("eth0", [IPNetOf("203.0.113.1")]);
    Literal203();
    EthWithOneAddr("eth0", "203.0.113.1", [203, 0, 113, 1]);
    AsWrittenTakesFirstEligible([i]);
  }

  /** Case "normal: private IP": eth0 with 192.168.1.100 gives 192.168.1.100. */
  lemma PrivateAddressReturned()
    ensures GetLocalIPv4(Ok([UpIface("eth0", [IPNetOf("192.168.1.100")])])) == "192.168.1.100"
  {
    var i := UpIface("eth0", [IPNetOf("192.168.1.100")]);
    Literal192();
    EthWithOneAddr("eth0", "192.168.1.100", [192, 168, 1, 100]);
    AsWrittenTakesFirstEligible([i]);
  }

  /** The two interfaces of the multi-NIC case: eth0 with 192.168.1.100, then eth1 with
      203.0.113.1. */
  function MultiNic(): seq<Iface>
  {
    [UpIface("eth0", [IPNetOf("192.168.1.100")]), UpIface("eth1", [IPNetOf("203.0.113.1")])]
  }

  /** Two interfaces contribute one after the other. */
  lemma TwoIfaces(a: Iface, b: Iface)
    ensures Eligible([a, b]) == Eligible([a]) + Eligible([b])
  {
    EligibleAppend([a], [b]);
    assert [a] + [b] == [a, b];
  }

  /** eth0 of the multi-NIC case contributes 192.168.1.100. */
  lemma Eth0Private()
    ensures Eligible([UpIface("eth0", [IPNetOf("192.168.1.100")])]) == [[192, 168, 1, 100]]
  {
    Literal192();
    EthWithOneAddr("eth0", "192.168.1.100", [192, 168, 1, 100]);
  }

  /** eth1 of the multi-NIC case contributes 203.0.113.1. */
  lemma Eth1Public()
    ensures Eligible([UpIface("eth1", [IPNetOf("203.0.113.1")])]) == [[203, 0, 113, 1]]
  {
    Literal203();
    EthWithOneAddr("eth1", "203.0.113.1", [203, 0, 113, 1]);
  }

  /** Both addresses of the multi-NIC case are eligible, in interface order. */
  lemma MultiNicEligible()
    ensures Eligible(MultiNic()) == [[192, 168, 1, 100], [203, 0, 113, 1]]
  {
    var eth0 := UpIface("eth0", [IPNetOf("192.168.1.100")]);
    var eth1 := UpIface("eth1", [IPNetOf("203.0.113.1")]);
    Eth0Private();
    Eth1Public();
    TwoIfaces(eth0, eth1);
  }

  /** Case "multi-NIC: prefer public IP", as written: the private 192.168.1.100 on the first
      interface is returned, not the 203.0.113.1 the case expects. */
  lemma MultiNicAsWrittenReturnsPrivate()
    ensures GetLocalIPv4(Ok(MultiNic())) == "192.168.1.100"
    ensures GetLocalIPv4(Ok(MultiNic())) != "203.0.113.1"
  {
    MultiNicEligible();
    Literal192();
    AsWrittenTakesFirstEligible(MultiNic());
  }

  /** The corrected test tells the two multi-NIC addresses apart. */
  lemma MultiNicClassified()
    ensures IsPrivateIPv4([192, 168, 1, 100]) && !IsPrivateIPv4([203, 0, 113, 1])
  {
    IsPrivateIPv4MatchesRfc1918([192, 168, 1, 100]);
    IsPrivateIPv4MatchesRfc1918([203, 0, 113, 1]);
  }

  /** With the corrected test the multi-NIC case selects the second, public address. */
  lemma MultiNicCorrectedSelects()
    ensures SelectIPv4(Ok(MultiNic()), IsPrivateIPv4) == [203, 0, 113, 1]
  {
    var e := Eligible(MultiNic());
    MultiNicEligible();
    MultiNicClassified();
    assert FirstNonPrivateAt(e, IsPrivateIPv4, 1);
    SelectRule(MultiNic(), IsPrivateIPv4);
  }

  /** Case "multi-NIC: prefer public IP", with the corrected private-range test: the public
      203.0.113.1 on the second interface wins. */
  lemma MultiNicCorrectedReturnsPublic()
    ensures GetLocalIPv4Corrected(Ok(MultiNic())) == "203.0.113.1"
  {
    MultiNicCorrectedSelects();
    Literal203();
  }

  /** Case "error: interface lookup fails": the answer is 127.0.0.1. */
  lemma EnumerationFailureReturnsLoopback()
    ensures GetLocalIPv4(Err("mock")) == "127.0.0.1"
  {
    EnumerationFailureGivesLoopback("mock");
  }

  /** `docker0` contains `docker`, so the interface is excluded whatever it holds. */
  lemma DockerExcluded(name: string, addrs: seq<Addr>)
    requires name == "docker0"
    ensures Excluded(UpIface(name, addrs))
  {
    assert OccursAt(name, "docker", 0);
  }

  /** Case "special: skip docker interface": docker0 with 172.17.0.1, then eth0 with
      192.168.1.100, gives 192.168.1.100. */
  lemma DockerInterfaceSkipped()
    ensures GetLocalIPv4(Ok([UpIface("docker0", [IPNetOf("172.17.0.1")]),
                             UpIface("eth0", [IPNetOf("192.168.1.100")])])) == "192.168.1.100"
  {
    var docker := UpIface("docker0", [IPNetOf("172.17.0.1")]);
    var eth := UpIface("eth0", [IPNetOf("192.168.1.100")]);
    DockerExcluded("docker0", [IPNetOf("172.17.0.1")]);
    DropFirst(docker, eth, IsPrivateIP);
    PrivateAddressReturned();
  }

  /** Dropping a skipped first interface of two. */
  lemma DropFirst(skipped: Iface, kept: Iface, isPrivate: seq<byte> -> bool)
    requires Excluded(skipped)
    ensures SelectIPv4(Ok([skipped, kept]), isPrivate) == SelectIPv4(Ok([kept]), isPrivate)
  {
    SkippedIfaceIsIrrelevant([], skipped, [kept], isPrivate);
    assert [] + [skipped] + [kept] == [skipped, kept] && [] + [kept] == [kept];
  }

  /** Case "special: skip loopback": lo, flagged loopback, with 127.0.0.1, gives 127.0.0.1. */
  lemma LoopbackInterfaceSkipped()
    ensures GetLocalIPv4(Ok([Iface("lo", true, true, Ok([IPNetOf("127.0.0.1")]))])) == "127.0.0.1"
  {
    var lo := Iface("lo", true, true, Ok([IPNetOf("127.0.0.1")]));
    SkippedContributesNothing(lo);
    AsWrittenTakesFirstEligible([lo]);
  }

  /** The RFC 1918 bounds themselves are private under the corrected test, and the
      addresses just outside them are not; under the test as written none of them is. */
  lemma BoundsAreInclusive()
    ensures IsPrivateIPv4([10, 0, 0, 0]) && IsPrivateIPv4([10, 255, 255, 255])
    ensures IsPrivateIPv4([172, 16, 0, 0]) && IsPrivateIPv4([172, 31, 255, 255])
    ensures IsPrivateIPv4([192, 168, 0, 0]) && IsPrivateIPv4([192, 168, 255, 255])
    ensures !IsPrivateIPv4([9, 255, 255, 255]) && !IsPrivateIPv4([11, 0, 0, 0])
    ensures !IsPrivateIPv4([172, 15, 255, 255]) && !IsPrivateIPv4([172, 32, 0, 0])
    ensures !IsPrivateIPv4([192, 167, 255, 255]) && !IsPrivateIPv4([192, 169, 0, 0])
    ensures !IsPrivateIP([10, 0, 0, 0]) && !IsPrivateIP([10, 255, 255, 255])
    ensures !IsPrivateIP([172, 16, 0, 0]) && !IsPrivateIP([172, 31, 255, 255])
    ensures !IsPrivateIP([192, 168, 0, 0]) && !IsPrivateIP([192, 168, 255, 255])
    ensures !IsPrivateIP([9, 255, 255, 255]) && !IsPrivateIP([11, 0, 0, 0])
    ensures !IsPrivateIP([172, 15, 255, 255]) && !IsPrivateIP([172, 32, 0, 0])
    ensures !IsPrivateIP([192, 167, 255, 255]) && !IsPrivateIP([192, 169, 0, 0])
  {
    IsPrivateIPv4MatchesRfc1918([10, 0, 0, 0]);
    IsPrivateIPv4MatchesRfc1918([10, 255, 255, 255]);
    IsPrivateIPv4MatchesRfc1918([172, 16, 0, 0]);
    IsPrivateIPv4MatchesRfc1918([172, 31, 255, 255]);
    IsPrivateIPv4MatchesRfc1918([192, 168, 0, 0]);
    IsPrivateIPv4MatchesRfc1918([192, 168, 255, 255]);
    IsPrivateIPv4MatchesRfc1918([9, 255, 255, 255]);
    IsPrivateIPv4MatchesRfc1918([11, 0, 0, 0]);
    IsPrivateIPv4MatchesRfc1918([172, 15, 255, 255]);
    IsPrivateIPv4MatchesRfc1918([172, 32, 0, 0]);
    IsPrivateIPv4MatchesRfc1918([192, 167, 255, 255]);
    IsPrivateIPv4MatchesRfc1918([192, 169, 0, 0]);
    IsPrivateIPNeverHolds([10, 0, 0, 0]);
    IsPrivateIPNeverHolds([10, 255, 255, 255]);
    IsPrivateIPNeverHolds([172, 16, 0, 0]);
    IsPrivateIPNeverHolds([172, 31, 255, 255]);
    IsPrivateIPNeverHolds([192, 168, 0, 0]);
    IsPrivateIPNeverHolds([192, 168, 255, 255]);
    IsPrivateIPNeverHolds([9, 255, 255, 255]);
    IsPrivateIPNeverHolds([11, 0, 0, 0]);
    IsPrivateIPNeverHolds([172, 15, 255, 255]);
    IsPrivateIPNeverHolds([172, 32, 0, 0]);
    IsPrivateIPNeverHolds([192, 167, 255, 255]);
    IsPrivateIPNeverHolds([192, 169, 0, 0]);
  }
}
