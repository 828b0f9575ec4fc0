/** What `GetLocalIPv4` promises, stated against a flat reference: the list of eligible
    addresses in interface-then-address order, and a one-pass choice over that list. */
module NetworkProperties {
  import opened Wrappers
  import opened Bytes
  import opened NetIP
  import opened Network

  /** The usable 4-byte addresses among `addrs`, in order. */
  function UsableAddrs(addrs: seq<Addr>): (ips: seq<seq<byte>>)
    ensures forall k :: 0 <= k < |ips| ==> |ips[k]| == IPv4Len && ips[k][0] != 127
    ensures forall k :: 0 <= k < |ips| ==> !(ips[k][0] == 169 && ips[k][1] == 254)
    decreases |addrs|
  {
    if |addrs| == 0 then []
    else
      match Usable(addrs[0])
      case None => UsableAddrs(addrs[1..])
      case Some(ip4) => [ip4] + UsableAddrs(addrs[1..])
  }

  /** The addresses an interface contributes: none when it is excluded or its address
      lookup failed, else its usable addresses. */
  function Contribution(i: Iface): (ips: seq<seq<byte>>)
    ensures forall k :: 0 <= k < |ips| ==> |ips[k]| == IPv4Len && ips[k][0] != 127
    ensures forall k :: 0 <= k < |ips| ==> !(ips[k][0] == 169 && ips[k][1] == 254)
    ensures Excluded(i) || i.addrs.Err? ==> ips == []
  {
    if Excluded(i) || i.addrs.Err? then [] else UsableAddrs(i.addrs.value)
  }

  /** Every eligible address, in interface-then-address order. */
  function Eligible(ifaces: seq<Iface>): (ips: seq<seq<byte>>)
    ensures forall k :: 0 <= k < |ips| ==> |ips[k]| == IPv4Len && ips[k][0] != 127
    ensures forall k :: 0 <= k < |ips| ==> !(ips[k][0] == 169 && ips[k][1] == 254)
    decreases |ifaces|
  {
    if |ifaces| == 0 then [] else Contribution(ifaces[0]) + Eligible(ifaces[1..])
  }

  /** Position `k` holds the first address of `ips` the classifier calls non-private. */
  ghost predicate FirstNonPrivateAt(ips: seq<seq<byte>>, isPrivate: seq<byte> -> bool, k: int)
  {
    0 <= k < |ips| && !isPrivate(ips[k]) && forall j :: 0 <= j < k ==> isPrivate(ips[j])
  }

  /** The selection on a flat list: the first non-private address ends the search, and when
      every address is private they all become candidates, after `cands`. */
  function Pick(ips: seq<seq<byte>>, isPrivate: seq<byte> -> bool, cands: seq<seq<byte>>): (r: Scan)
    ensures (forall k :: 0 <= k < |ips| ==> isPrivate(ips[k])) ==> r == Exhausted(cands + ips)
    ensures forall k :: FirstNonPrivateAt(ips, isPrivate, k) ==> r == Found(ips[k])
    decreases |ips|
  {
    if |ips| == 0 then
      assert cands + ips == cands;
      Exhausted(cands)
    else if !isPrivate(ips[0]) then Found(ips[0])
    else
      var r := Pick(ips[1..], isPrivate, cands + [ips[0]]);
      assert cands + [ips[0]] + ips[1..] == cands + ips;
      assert forall k :: FirstNonPrivateAt(ips, isPrivate, k) ==> FirstNonPrivateAt(ips[1..], isPrivate, k - 1);
      r
  }

  /** Choosing from a concatenation chooses from the first part, and moves on to the
      second part with the candidates of the first only when the first has no winner. */
  lemma {:induction false} PickAppend(a: seq<seq<byte>>, b: seq<seq<byte>>, isPrivate: seq<byte> -> bool, cands: seq<seq<byte>>)
    ensures Pick(a + b, isPrivate, cands) ==
      match Pick(a, isPrivate, cands)
      case Found(ip) => Found(ip)
      case Exhausted(cands') => Pick(b, isPrivate, cands')
    decreases |a|
  {
    if |a| == 0 {
      assert a + b == b;
    } else {
      assert (a + b)[0] == a[0] && (a + b)[1..] == a[1..] + b;
      if isPrivate(a[0]) {
        PickAppend(a[1..], b, isPrivate, cands + [a[0]]);
      }
    }
  }

  /** The inner loop over one interface's addresses is the flat choice over its usable
      addresses. */
  lemma {:induction false} ScanAddrsIsPick(addrs: seq<Addr>, isPrivate: seq<byte> -> bool, cands: seq<seq<byte>>)
    ensures ScanAddrs(addrs, isPrivate, cands) == Pick(UsableAddrs(addrs), isPrivate, cands)
    decreases |addrs|
  {
    if |addrs| > 0 {
      match Usable(addrs[0])
      case None =>
        ScanAddrsIsPick(addrs[1..], isPrivate, cands);
      case Some(ip4) =>
        var rest := UsableAddrs(addrs[1..]);
        assert ([ip4] + rest)[0] == ip4 && ([ip4] + rest)[1..] == rest;
        if isPrivate(ip4) {
          ScanAddrsIsPick(addrs[1..], isPrivate, cands + [ip4]);
        }
    }
  }

  /** The nested loops over interfaces and their addresses are the flat choice over the
      eligible addresses. */
  lemma {:induction false} ScanIfacesIsPick(ifaces: seq<Iface>, isPrivate: seq<byte> -> bool, cands: seq<seq<byte>>)
    ensures ScanIfaces(ifaces, isPrivate, cands) == Pick(Eligible(ifaces), isPrivate, cands)
    decreases |ifaces|
  {
    if |ifaces| > 0 {
      var i := ifaces[0];
      if Excluded(i) || i.addrs.Err? {
        assert Eligible(ifaces) == Eligible(ifaces[1..]);
        ScanIfacesIsPick(ifaces[1..], isPrivate, cands);
      } else {
        ScanAddrsIsPick(i.addrs.value, isPrivate, cands);
        PickAppend(UsableAddrs(i.addrs.value), Eligible(ifaces[1..]), isPrivate, cands);
        match ScanAddrs(i.addrs.value, isPrivate, cands)
        case Found(_) =>
        case Exhausted(cands') =>
          ScanIfacesIsPick(ifaces[1..], isPrivate, cands');
      }
    }
  }

  /** The selection rule, for any private-range test: with a non-private eligible address,
      the first one is chosen; with none, the first eligible address is chosen; with no
      eligible address at all, `127.0.0.1`. */
  lemma SelectRule(ifaces: seq<Iface>, isPrivate: seq<byte> -> bool)
    ensures forall k :: FirstNonPrivateAt(Eligible(ifaces), isPrivate, k) ==>
      SelectIPv4(Ok(ifaces), isPrivate) == Eligible(ifaces)[k]
    ensures (forall k :: 0 <= k < |Eligible(ifaces)| ==> isPrivate(Eligible(ifaces)[k])) ==>
      SelectIPv4(Ok(ifaces), isPrivate) ==
        if |Eligible(ifaces)| > 0 then Eligible(ifaces)[0] else LoopbackIPv4
  {
    ScanIfacesIsPick(ifaces, isPrivate, []);
    assert [] + Eligible(ifaces) == Eligible(ifaces);
  }

  /** Each step of `Pick` either stops at an address of the list or keeps every address as a
      candidate. */
  lemma {:induction false} PickOutcome(ips: seq<seq<byte>>, isPrivate: seq<byte> -> bool, cands: seq<seq<byte>>)
    ensures Pick(ips, isPrivate, cands).Found? ==> Pick(ips, isPrivate, cands).ip in ips
    ensures Pick(ips, isPrivate, cands).Exhausted? ==> Pick(ips, isPrivate, cands).candidates == cands + ips
    decreases |ips|
  {
    if |ips| > 0 && isPrivate(ips[0]) {
      PickOutcome(ips[1..], isPrivate, cands + [ips[0]]);
      assert cands + [ips[0]] + ips[1..] == cands + ips;
    } else if |ips| == 0 {
      assert cands + ips == cands;
    }
  }

  /** Whatever the private-range test, the answer is `127.0.0.1` or one of the eligible
      addresses; in particular it never comes from an excluded interface alone. */
  lemma SelectIsEligible(ifaces: Result<seq<Iface>>, isPrivate: seq<byte> -> bool)
    ensures var ip := SelectIPv4(ifaces, isPrivate);
      ip == LoopbackIPv4 || (ifaces.Ok? && ip in Eligible(ifaces.value))
  {
    if ifaces.Ok? {
      ScanIfacesIsPick(ifaces.value, isPrivate, []);
      PickOutcome(Eligible(ifaces.value), isPrivate, []);
      assert [] + Eligible(ifaces.value) == Eligible(ifaces.value);
    }
  }

  /** Eligibility is computed interface by interface. */
  lemma {:induction false} EligibleAppend(a: seq<Iface>, b: seq<Iface>)
    ensures Eligible(a + b) == Eligible(a) + Eligible(b)
    decreases |a|
  {
    if |a| == 0 {
      assert a + b == b;
    } else {
      assert (a + b)[0] == a[0] && (a + b)[1..] == a[1..] + b;
      EligibleAppend(a[1..], b);
    }
  }

  /** Usability is decided address by address. */
  lemma {:induction false} UsableAddrsAppend(a: seq<Addr>, b: seq<Addr>)
    ensures UsableAddrs(a + b) == UsableAddrs(a) + UsableAddrs(b)
    decreases |a|
  {
    if |a| == 0 {
      assert a + b == b;
    } else {
      assert (a + b)[0] == a[0] && (a + b)[1..] == a[1..] + b;
      UsableAddrsAppend(a[1..], b);
    }
  }

  /** The answer depends on the interfaces only through their eligible addresses. */
  lemma SelectDependsOnEligible(a: seq<Iface>, b: seq<Iface>, isPrivate: seq<byte> -> bool)
    requires Eligible(a) == Eligible(b)
    ensures SelectIPv4(Ok(a), isPrivate) == SelectIPv4(Ok(b), isPrivate)
  {
    ScanIfacesIsPick(a, isPrivate, []);
    ScanIfacesIsPick(b, isPrivate, []);
  }

  /** An excluded interface, or one whose address lookup failed, can be removed from the
      list without changing the answer: the failure skips that interface only. */
  lemma {:induction false} SkippedIfaceIsIrrelevant(before: seq<Iface>, i: Iface, after: seq<Iface>, isPrivate: seq<byte> -> bool)
    requires Excluded(i) || i.addrs.Err?
    ensures SelectIPv4(Ok(before + [i] + after), isPrivate) == SelectIPv4(Ok(before + after), isPrivate)
  {
    SkippedContributesNothing(i);
    SilentIfaceRemoved(before, i, after);
    SelectDependsOnEligible(before + [i] + after, before + after, isPrivate);
  }

  /** A skipped interface adds no eligible address. */
  lemma SkippedContributesNothing(i: Iface)
    requires Excluded(i) || i.addrs.Err?
    ensures Eligible([i]) == []
  {
    assert Contribution(i) == [];
    assert [i][1..] == [];
  }

  /** An interface that adds no eligible address leaves the eligible list unchanged. */
  lemma {:induction false} SilentIfaceRemoved(before: seq<Iface>, i: Iface, after: seq<Iface>)
    requires Eligible([i]) == []
    ensures Eligible(before + [i] + after) == Eligible(before + after)
  {
    EligibleAppend(before + [i], after);
    EligibleAppend(before, [i]);
    EligibleAppend(before, after);
  }

  /** An address the filters drop (not an `IPNet`, no IPv4 form, loopback, link-local) can
      be removed from its interface without changing the answer. */
  lemma {:induction false} DroppedAddrIsIrrelevant(before: seq<Iface>, i: Iface, after: seq<Iface>,
                                                   a1: seq<Addr>, a: Addr, a2: seq<Addr>, isPrivate: seq<byte> -> bool)
    requires i.addrs == Ok(a1 + [a] + a2)
    requires Usable(a).None?
    ensures SelectIPv4(Ok(before + [i] + after), isPrivate) ==
            SelectIPv4(Ok(before + [i.(addrs := Ok(a1 + a2))] + after), isPrivate)
  {
    var j := i.(addrs := Ok(a1 + a2));
    UsableAddrsAppend(a1 + [a], a2);
    UsableAddrsAppend(a1, [a]);
    UsableAddrsAppend(a1, a2);
    assert UsableAddrs([a]) == [] by {
      assert [a][1..] == [];
    }
    assert Contribution(i) == Contribution(j);
    assert Eligible([i]) == Eligible([j]) by {
      assert [i][1..] == [] && [j][1..] == [];
    }
    EligibleAppend(before + [i], after);
    EligibleAppend(before, [i]);
    EligibleAppend(before + [j], after);
    EligibleAppend(before, [j]);
    SelectDependsOnEligible(before + [i] + after, before + [j] + after, isPrivate);
  }

  /** Once the interfaces scanned so far hold a non-private eligible address, no later
      interface or address affects the answer. */
  lemma NonPrivateEndsTheSearch(before: seq<Iface>, after: seq<Iface>, isPrivate: seq<byte> -> bool)
    requires exists k :: 0 <= k < |Eligible(before)| && !isPrivate(Eligible(before)[k])
    ensures SelectIPv4(Ok(before + after), isPrivate) == SelectIPv4(Ok(before), isPrivate)
  {
    var e := Eligible(before);
    FirstNonPrivateExists(e, isPrivate);
    var k :| FirstNonPrivateAt(e, isPrivate, k);
    EligibleAppend(before, after);
    ScanIfacesIsPick(before + after, isPrivate, []);
    ScanIfacesIsPick(before, isPrivate, []);
    PickAppend(e, Eligible(after), isPrivate, []);
  }

  /** A list with a non-private address has a first one. */
  lemma {:induction false} FirstNonPrivateExists(ips: seq<seq<byte>>, isPrivate: seq<byte> -> bool)
    requires exists k :: 0 <= k < |ips| && !isPrivate(ips[k])
    ensures exists k :: FirstNonPrivateAt(ips, isPrivate, k)
    decreases |ips|
  {
    if isPrivate(ips[0]) {
      var k :| 0 <= k < |ips| && !isPrivate(ips[k]);
      assert ips[1..][k - 1] == ips[k];
      FirstNonPrivateExists(ips[1..], isPrivate);
      var m :| FirstNonPrivateAt(ips[1..], isPrivate, m);
      assert FirstNonPrivateAt(ips, isPrivate, m + 1);
    } else {
      assert FirstNonPrivateAt(ips, isPrivate, 0);
    }
  }

  /** The printed form of `[a, b, c, d]` is `s`. */
  lemma FormatsAs(s: string, a: byte, b: byte, c: byte, d: byte)
    requires s == Decimal(a) + "." + Decimal(b) + "." + Decimal(c) + "." + Decimal(d)
    ensures FormatIPv4([a, b, c, d]) == s
  {
    FormatIPv4Text([a, b, c, d]);
  }

  /** The fallback prints as `127.0.0.1`. */
  lemma LoopbackText()
    ensures FormatIPv4(LoopbackIPv4) == "127.0.0.1"
  {
    assert Decimal(127) == "127" && Decimal(0) == "0" && Decimal(1) == "1";
    FormatsAs("127.0.0.1", 127, 0, 0, 1);
  }

  /** When the interface list cannot be read, the answer is `127.0.0.1`, with either
      private-range test. */
  lemma EnumerationFailureGivesLoopback(reason: string)
    ensures GetLocalIPv4(Err(reason)) == "127.0.0.1"
    ensures GetLocalIPv4Corrected(Err(reason)) == "127.0.0.1"
  {
    LoopbackText();
  }

  /** The text `s` is the printed form of `q`, so `net.ParseIP(s)` is the mapped form of `q`. */
  lemma ParsesAs(s: string, a: byte, b: byte, c: byte, d: byte)
    requires s == Decimal(a) + "." + Decimal(b) + "." + Decimal(c) + "." + Decimal(d)
    ensures ParseIP(s) == IPv4([a, b, c, d]) && ParseIPv4Bound(s) == [a, b, c, d]
  {
    var q := [a, b, c, d];
    FormatIPv4Text(q);
    ParseIPOfFormatted(q);
  }

  /** `net.ParseIP("10.0.0.0")` and its 4-byte form. */
  lemma Bound10Start()
    ensures ParseIP("10.0.0.0") == IPv4([10, 0, 0, 0]) && ParseIPv4Bound("10.0.0.0") == [10, 0, 0, 0]
  {
    assert Decimal(0) == "0" && Decimal(10) == "10";
    ParsesAs("10.0.0.0", 10, 0, 0, 0);
  }

  /** `net.ParseIP("10.255.255.255")` and its 4-byte form. */
  lemma Bound10End()
    ensures ParseIP("10.255.255.255") == IPv4([10, 255, 255, 255]) && ParseIPv4Bound("10.255.255.255") == [10, 255, 255, 255]
  {
    assert Decimal(10) == "10" && Decimal(255) == "255";
    ParsesAs("10.255.255.255", 10, 255, 255, 255);
  }

  /** `net.ParseIP("172.16.0.0")` and its 4-byte form. */
  lemma Bound172Start()
    ensures ParseIP("172.16.0.0") == IPv4([172, 16, 0, 0]) && ParseIPv4Bound("172.16.0.0") == [172, 16, 0, 0]
  {
    assert Decimal(0) == "0" && Decimal(16) == "16" && Decimal(172) == "172";
    ParsesAs("172.16.0.0", 172, 16, 0, 0);
  }

  /** `net.ParseIP("172.31.255.255")` and its 4-byte form. */
  lemma Bound172End()
    ensures ParseIP("172.31.255.255") == IPv4([172, 31, 255, 255]) && ParseIPv4Bound("172.31.255.255") == [172, 31, 255, 255]
  {
    assert Decimal(31) == "31" && Decimal(172) == "172" && Decimal(255) == "255";
    ParsesAs("172.31.255.255", 172, 31, 255, 255);
  }

  /** `net.ParseIP("192.168.0.0")` and its 4-byte form. */
  lemma Bound192Start()
    ensures ParseIP("192.168.0.0") == IPv4([192, 168, 0, 0]) && ParseIPv4Bound("192.168.0.0") == [192, 168, 0, 0]
  {
    assert Decimal(0) == "0" && Decimal(168) == "168" && Decimal(192) == "192";
    ParsesAs("192.168.0.0", 192, 168, 0, 0);
  }

  /** `net.ParseIP("192.168.255.255")` and its 4-byte form. */
  lemma Bound192End()
    ensures ParseIP("192.168.255.255") == IPv4([192, 168, 255, 255]) && ParseIPv4Bound("192.168.255.255") == [192, 168, 255, 255]
  {
    assert Decimal(168) == "168" && Decimal(192) == "192" && Decimal(255) == "255";
    ParsesAs("192.168.255.255", 192, 168, 255, 255);
  }

  /** The literals of the private-range table, read by `net.ParseIP`. */
  lemma PrivateLiterals()
    ensures PrivateIPBlocks == [
      Block(IPv4([10, 0, 0, 0]), IPv4([10, 255, 255, 255])),
      Block(IPv4([172, 16, 0, 0]), IPv4([172, 31, 255, 255])),
      Block(IPv4([192, 168, 0, 0]), IPv4([192, 168, 255, 255]))
    ]
    ensures IPv4PrivateBlocks == [
      Block([10, 0, 0, 0], [10, 255, 255, 255]),
      Block([172, 16, 0, 0], [172, 31, 255, 255]),
      Block([192, 168, 0, 0], [192, 168, 255, 255])
    ]
  {
    Bound10Start();
    Bound10End();
    Bound172Start();
    Bound172End();
    Bound192Start();
    Bound192End();
  }

  /** `isPrivateIP` tests its three blocks one after the other. */
  lemma InSomeOfThree(ip: seq<byte>, blocks: seq<Block>)
    requires |blocks| == 3
    ensures InSomeBlock(ip, blocks) <==> InBlock(ip, blocks[0]) || InBlock(ip, blocks[1]) || InBlock(ip, blocks[2])
  {
  }

  /** Against a 16-byte mapped bound, a 4-byte address sorts first only when it is all
      zeros (it is then a proper prefix of the bound), and otherwise sorts after it. */
  lemma FourBytesAgainstMapped(ip: seq<byte>, q: seq<byte>)
    requires |ip| == IPv4Len && |q| == IPv4Len
    ensures Compare(ip, IPv4(q)) == if ip == Zeros(4) then -1 else 1
  {
    var m := IPv4(q);
    assert m[..4] == Zeros(4);
    if ip == Zeros(4) {
      ComparePrefix(ip, m);
    } else {
      CompareBeyondLength(ip, m);
      ZerosSortFirst(ip);
    }
  }

  /** `isPrivateIP` as written holds of no 4-byte address, and the selection only ever
      hands it 4-byte addresses: every address counts as public. */
  lemma IsPrivateIPNeverHolds(ip: seq<byte>)
    requires |ip| == IPv4Len
    ensures !IsPrivateIP(ip)
  {
    PrivateLiterals();
    InSomeOfThree(ip, PrivateIPBlocks);
    FourBytesAgainstMapped(ip, [10, 0, 0, 0]);
    FourBytesAgainstMapped(ip, [10, 255, 255, 255]);
    FourBytesAgainstMapped(ip, [172, 16, 0, 0]);
    FourBytesAgainstMapped(ip, [172, 31, 255, 255]);
    FourBytesAgainstMapped(ip, [192, 168, 0, 0]);
    FourBytesAgainstMapped(ip, [192, 168, 255, 255]);
  }

  /** Consequence for the function as written: no candidate is ever collected, and the
      answer is the first eligible address, or `127.0.0.1` when there is none. */
  lemma AsWrittenTakesFirstEligible(ifaces: seq<Iface>)
    ensures ScanIfaces(ifaces, IsPrivateIP, []).Exhausted? ==> ScanIfaces(ifaces, IsPrivateIP, []).candidates == []
    ensures GetLocalIPv4(Ok(ifaces)) ==
      if |Eligible(ifaces)| > 0 then FormatIPv4(Eligible(ifaces)[0]) else "127.0.0.1"
  {
    LoopbackText();
    var e := Eligible(ifaces);
    if |e| > 0 {
      IsPrivateIPNeverHolds(e[0]);
      assert FirstNonPrivateAt(e, IsPrivateIP, 0);
    }
    SelectRule(ifaces, IsPrivateIP);
    ScanIfacesIsPick(ifaces, IsPrivateIP, []);
  }

  /** The RFC 1918 (section 3) private blocks 10/8, 172.16/12 and 192.168/16, by octets. */
  predicate InRfc1918(ip: seq<byte>)
    requires |ip| == IPv4Len
  {
    ip[0] == 10 || (ip[0] == 172 && 16 <= ip[1] <= 31) || (ip[0] == 192 && ip[1] == 168)
  }

  /** Between 10.0.0.0 and 10.255.255.255, bounds included: first octet 10. */
  lemma InBlock10(ip: seq<byte>)
    requires |ip| == IPv4Len
    ensures InBlock(ip, Block([10, 0, 0, 0], [10, 255, 255, 255])) <==> ip[0] == 10
  {
    Compare4(ip, [10, 0, 0, 0]);
    Compare4(ip, [10, 255, 255, 255]);
  }

  /** Between 172.16.0.0 and 172.31.255.255, bounds included: 172 then 16 to 31. */
  lemma InBlock172(ip: seq<byte>)
    requires |ip| == IPv4Len
    ensures InBlock(ip, Block([172, 16, 0, 0], [172, 31, 255, 255])) <==> ip[0] == 172 && 16 <= ip[1] <= 31
  {
    Compare4(ip, [172, 16, 0, 0]);
    Compare4(ip, [172, 31, 255, 255]);
  }

  /** Between 192.168.0.0 and 192.168.255.255, bounds included: 192 then 168. */
  lemma InBlock192(ip: seq<byte>)
    requires |ip| == IPv4Len
    ensures InBlock(ip, Block([192, 168, 0, 0], [192, 168, 255, 255])) <==> ip[0] == 192 && ip[1] == 168
  {
    Compare4(ip, [192, 168, 0, 0]);
    Compare4(ip, [192, 168, 255, 255]);
  }

  /** The corrected test classifies a 4-byte address as private exactly when it lies in one
      of the RFC 1918 blocks, bounds included. */
  lemma IsPrivateIPv4MatchesRfc1918(ip: seq<byte>)
    requires |ip| == IPv4Len
    ensures IsPrivateIPv4(ip) <==> InRfc1918(ip)
  {
    PrivateLiterals();
    InSomeOfThree(ip, IPv4PrivateBlocks);
    InBlock10(ip);
    InBlock172(ip);
    InBlock192(ip);
  }

  /** With the corrected test, a public eligible address always wins over private ones,
      whatever the interface order. */
  lemma CorrectedPrefersPublic(ifaces: seq<Iface>)
    requires exists k :: 0 <= k < |Eligible(ifaces)| && !InRfc1918(Eligible(ifaces)[k])
    ensures !InRfc1918(SelectIPv4(Ok(ifaces), IsPrivateIPv4))
  {
    var e := Eligible(ifaces);
    forall k | 0 <= k < |e|
      ensures IsPrivateIPv4(e[k]) <==> InRfc1918(e[k])
    {
      IsPrivateIPv4MatchesRfc1918(e[k]);
    }
    FirstNonPrivateExists(e, IsPrivateIPv4);
    var k :| FirstNonPrivateAt(e, IsPrivateIPv4, k);
    SelectRule(ifaces, IsPrivateIPv4);
  }
}
