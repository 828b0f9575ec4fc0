/** The local-IPv4 selection of the `network` package: `GetLocalIPv4` and its helper
    `isPrivateIP`. The two operating-system calls the package reaches through swappable
    function variables (the interface list and each interface's address list) are inputs:
    the interface list is a `Result`, and every interface carries the `Result` of its own
    address lookup. */
module Network {
  import opened Wrappers
  import opened Bytes
  import opened Strings
  import opened NetIP

  /** A `net.Addr` bound to an interface. Only a `*net.IPNet` carries an IP the selection
      looks at; its mask plays no part and is not modelled. */
  datatype Addr = IPNet(ip: seq<byte>) | OtherAddr

  /** A `net.Interface` with the two flags the selection reads, and the outcome of looking up
      its addresses. */
  datatype Iface = Iface(name: string, up: bool, loopback: bool, addrs: Result<seq<Addr>>)

  /** Where a scan stands: it met a non-private address and stops there, or it ran out of
      addresses holding the private candidates collected so far, in the order met. */
  datatype Scan = Found(ip: seq<byte>) | Exhausted(candidates: seq<seq<byte>>)

  /** The fallback answer `127.0.0.1`. */
  const LoopbackIPv4: seq<byte> := [127, 0, 0, 1]

  /** One private range, bounds included. */
  datatype Block = Block(start: seq<byte>, end: seq<byte>)

  /** `ip` lies between the block's bounds in the order of `bytes.Compare`. */
  predicate InBlock(ip: seq<byte>, b: Block)
  {
    Compare(ip, b.start) >= 0 && Compare(ip, b.end) <= 0
  }

  /** The loop of `isPrivateIP` over its blocks: true as soon as one block holds `ip`. */
  function InSomeBlock(ip: seq<byte>, blocks: seq<Block>): (r: bool)
    ensures r <==> exists k :: 0 <= k < |blocks| && InBlock(ip, blocks[k])
    decreases |blocks|
  {
    if |blocks| == 0 then false
    else if InBlock(ip, blocks[0]) then true
    else
      var r := InSomeBlock(ip, blocks[1..]);
      assert forall k :: 1 <= k < |blocks| ==> blocks[k] == blocks[1..][k - 1];
      r
  }

  /** The table of `isPrivateIP`: the RFC 1918 ranges, with bounds built by `net.ParseIP`,
      so each bound is the 16-byte IPv4-mapped form. */
  const PrivateIPBlocks: seq<Block> := [
    Block(ParseIP("10.0.0.0"), ParseIP("10.255.255.255")),
    Block(ParseIP("172.16.0.0"), ParseIP("172.31.255.255")),
    Block(ParseIP("192.168.0.0"), ParseIP("192.168.255.255"))
  ]

  /** `isPrivateIP(ip)` as written: `ip` lies inside one of `PrivateIPBlocks`. */
  predicate IsPrivateIP(ip: seq<byte>): (r: bool)
    ensures r <==> exists k :: 0 <= k < |PrivateIPBlocks| && InBlock(ip, PrivateIPBlocks[k])
  {
    InSomeBlock(ip, PrivateIPBlocks)
  }

  /** The 4-byte form of a parsed bound (`net.ParseIP(..).To4()`), `nil` when there is none. */
  function ParseIPv4Bound(s: string): seq<byte>
  {
    match To4(ParseIP(s))
    case Some(ip4) => ip4
    case None => []
  }

  /** The same RFC 1918 table with 4-byte bounds, matching the 4-byte addresses the
      selection classifies. */
  const IPv4PrivateBlocks: seq<Block> := [
    Block(ParseIPv4Bound("10.0.0.0"), ParseIPv4Bound("10.255.255.255")),
    Block(ParseIPv4Bound("172.16.0.0"), ParseIPv4Bound("172.31.255.255")),
    Block(ParseIPv4Bound("192.168.0.0"), ParseIPv4Bound("192.168.255.255"))
  ]

  /** The classification `isPrivateIP` was written to perform: `ip` lies inside one of the
      RFC 1918 ranges. */
  predicate IsPrivateIPv4(ip: seq<byte>)
  {
    InSomeBlock(ip, IPv4PrivateBlocks)
  }

  /** Interfaces the selection skips: loopback, not up, or named like a container bridge
      (the name contains `docker` or `veth`, case-sensitively, anywhere). */
  predicate Excluded(i: Iface)
  {
    i.loopback || !i.up || Contains(i.name, "docker") || Contains(i.name, "veth")
  }

  /** The filters applied to one address: it must be an `IPNet` with an IPv4 form that is
      neither loopback nor link-local (169.254/16); what survives is that 4-byte form, and
      every address passing all three filters survives. */
  function Usable(a: Addr): (r: Option<seq<byte>>)
    ensures r.Some? ==> a.IPNet? && To4(a.ip) == r
    ensures r.Some? ==> r.value[0] != 127 && !(r.value[0] == 169 && r.value[1] == 254)
    ensures a.IPNet? ==>
      var t := To4(a.ip);
      (t.Some? && t.value[0] != 127 && !(t.value[0] == 169 && t.value[1] == 254)) ==> r == t
  {
    match a
    case OtherAddr => None
    case IPNet(ip) =>
      match To4(ip)
      case None => None
      case Some(ip4) =>
        if IsLoopback(ip4) then None
        else if ip4[0] == 169 && ip4[1] == 254 then None
        else Some(ip4)
  }

  /** `cands'` extends `cands` by 4-byte addresses the classifier calls private. */
  ghost predicate ExtendsWithPrivate(cands: seq<seq<byte>>, cands': seq<seq<byte>>, isPrivate: seq<byte> -> bool)
  {
    && |cands| <= |cands'|
    && cands'[..|cands|] == cands
    && forall k :: |cands| <= k < |cands'| ==> |cands'[k]| == IPv4Len && isPrivate(cands'[k])
  }

  /** The inner loop of `GetLocalIPv4` over one interface's addresses: return the first
      usable non-private address, and append every usable private one to the candidates. */
  function ScanAddrs(addrs: seq<Addr>, isPrivate: seq<byte> -> bool, cands: seq<seq<byte>>): (r: Scan)
    ensures r.Found? ==> |r.ip| == IPv4Len && !isPrivate(r.ip)
    ensures r.Exhausted? ==> ExtendsWithPrivate(cands, r.candidates, isPrivate)
    decreases |addrs|
  {
    if |addrs| == 0 then Exhausted(cands)
    else
      match Usable(addrs[0])
      case None => ScanAddrs(addrs[1..], isPrivate, cands)
      case Some(ip4) =>
        if !isPrivate(ip4) then Found(ip4)
        else
          var r := ScanAddrs(addrs[1..], isPrivate, cands + [ip4]);
          assert r.Exhausted? ==> r.candidates[..|cands|] == r.candidates[..|cands| + 1][..|cands|];
          r
  }

  /** The outer loop of `GetLocalIPv4` over the interfaces: skip excluded interfaces and
      interfaces whose address lookup failed, scan the others in order, and stop at the
      first non-private address. */
  function ScanIfaces(ifaces: seq<Iface>, isPrivate: seq<byte> -> bool, cands: seq<seq<byte>>): (r: Scan)
    ensures r.Found? ==> |r.ip| == IPv4Len && !isPrivate(r.ip)
    ensures r.Exhausted? ==> ExtendsWithPrivate(cands, r.candidates, isPrivate)
    decreases |ifaces|
  {
    if |ifaces| == 0 then Exhausted(cands)
    else if Excluded(ifaces[0]) then ScanIfaces(ifaces[1..], isPrivate, cands)
    else
      match ifaces[0].addrs
      case Err(_) => ScanIfaces(ifaces[1..], isPrivate, cands)
      case Ok(addrs) =>
        match ScanAddrs(addrs, isPrivate, cands)
        case Found(ip) => Found(ip)
        case Exhausted(cands') =>
          var r := ScanIfaces(ifaces[1..], isPrivate, cands');
          assert r.Exhausted? ==> r.candidates[..|cands|] == r.candidates[..|cands'|][..|cands|];
          r
  }

  /** The address `GetLocalIPv4` settles on, as four bytes, for a given private-range test:
      `127.0.0.1` when the interface list cannot be read, the first non-private address when
      there is one, else the first private candidate, else `127.0.0.1`. */
  function SelectIPv4(ifaces: Result<seq<Iface>>, isPrivate: seq<byte> -> bool): (ip: seq<byte>)
    ensures |ip| == IPv4Len
    ensures ifaces.Err? ==> ip == LoopbackIPv4
  {
    match ifaces
    case Err(_) => LoopbackIPv4
    case Ok(list) =>
      match ScanIfaces(list, isPrivate, [])
      case Found(ip) => ip
      case Exhausted(cands) => if |cands| > 0 then cands[0] else LoopbackIPv4
  }

  /** `GetLocalIPv4()` as written: the selected address in dotted-decimal text. The source
      keeps candidates as text; formatting the chosen 4-byte value once gives the same string. */
  function GetLocalIPv4(ifaces: Result<seq<Iface>>): (s: string)
    ensures ParseDottedQuad(s) == Some(SelectIPv4(ifaces, IsPrivateIP))
  {
    var ip := SelectIPv4(ifaces, IsPrivateIP);
    FormatThenParse(ip);
    FormatIPv4(ip)
  }

  /** `GetLocalIPv4()` with the private-range test it was meant to have. */
  function GetLocalIPv4Corrected(ifaces: Result<seq<Iface>>): (s: string)
    ensures ParseDottedQuad(s) == Some(SelectIPv4(ifaces, IsPrivateIPv4))
  {
    var ip := SelectIPv4(ifaces, IsPrivateIPv4);
    FormatThenParse(ip);
    FormatIPv4(ip)
  }
}
