/** The parts of Go's `net.IP` the address code relies on: the 16-byte IPv4-mapped form
    produced by `net.ParseIP`, the `To4` and `IsLoopback` methods, and `String` on a
    4-byte address. Only dotted-decimal IPv4 text is modelled. */
module NetIP {
  import opened Wrappers
  import opened Bytes
  import opened Strings

  const IPv4Len: nat := 4
  const IPv6Len: nat := 16

  /** The twelve bytes that mark an IPv4 address held in 16-byte form (`::ffff:a.b.c.d`). */
  const V4InV6Prefix: seq<byte> := [0, 0, 0, 0, 0, 0, 0, 0, 0, 0, 0xff, 0xff]

  /** The IPv6 loopback address `::1`. */
  const IPv6Loopback: seq<byte> := [0, 0, 0, 0, 0, 0, 0, 0, 0, 0, 0, 0, 0, 0, 0, 1]

  /** `net.IPv4(a, b, c, d)`: the 16-byte IPv4-mapped form of the octets `q`. */
  function IPv4(q: seq<byte>): (ip: seq<byte>)
    requires |q| == IPv4Len
    ensures |ip| == IPv6Len && ip[..12] == V4InV6Prefix && ip[12..] == q
  {
    V4InV6Prefix + q
  }

  /** `ip.To4()`: a 4-byte IP unchanged, the last four bytes of an IPv4-mapped 16-byte IP,
      and `nil` (here `None`) for everything else. */
  function To4(ip: seq<byte>): (r: Option<seq<byte>>)
    ensures r.Some? ==> |r.value| == IPv4Len
  {
    if |ip| == IPv4Len then Some(ip)
    else if |ip| == IPv6Len && ip[..12] == V4InV6Prefix then Some(ip[12..])
    else None
  }

  /** `To4` succeeds with `v` exactly on the two forms of the IPv4 address `v`. */
  lemma To4Inverse(ip: seq<byte>, v: seq<byte>)
    ensures To4(ip) == Some(v) <==> |v| == IPv4Len && (ip == v || ip == IPv4(v))
  {
    if |ip| == IPv6Len && ip[..12] == V4InV6Prefix {
      assert ip == ip[..12] + ip[12..];
    }
  }

  /** `ip.IsLoopback()`: first octet 127 for an IPv4 address in either form, otherwise
      equality with `::1`. */
  predicate IsLoopback(ip: seq<byte>)
  {
    match To4(ip)
    case Some(ip4) => ip4[0] == 127
    case None => ip == IPv6Loopback
  }

  /** The decimal text of an octet, as `IP.String` prints it: no sign, no leading zero. */
  function Decimal(n: byte): (s: string)
    ensures 1 <= |s| <= 3 && AllDigits(s)
    ensures |s| > 1 ==> s[0] != '0'
    ensures DigitsValue(s) == n as int
  {
    var v := n as int;
    if v < 10 then
      var s := [DigitChar(v)];
      DigitsValue1(s);
      s
    else if v < 100 then
      var s := [DigitChar(v / 10), DigitChar(v % 10)];
      DigitsValue2(s);
      s
    else
      var s := [DigitChar(v / 100), DigitChar(v / 10 % 10), DigitChar(v % 10)];
      DigitsValue3(s);
      s
  }

  /** One field of a dotted-decimal IPv4 literal, under the rules of Go's parser: one or
      more decimal digits, no leading zero, value at most 255. */
  function ParseOctet(s: string): Option<byte>
  {
    if |s| == 0 || !AllDigits(s) || (|s| > 1 && s[0] == '0') then None
    else if DigitsValue(s) > 255 then None
    else Some(DigitsValue(s) as byte)
  }

  /** The digits of an octet parse back to the octet. */
  lemma OctetRoundTrip(n: byte)
    ensures ParseOctet(Decimal(n)) == Some(n)
  {
  }

  /** A field that parses is exactly the decimal text of its value: the parser accepts one
      spelling per octet. */
  lemma OctetCanonical(s: string, n: byte)
    requires ParseOctet(s) == Some(n)
    ensures s == Decimal(n)
  {
    if |s| >= 4 {
      DigitsValueFourOrMore(s);
    } else if |s| == 3 {
      ThreeDigitsCanonical(s, n);
    } else if |s| == 2 {
      TwoDigitsCanonical(s, n);
    } else {
      DigitsValue1(s);
    }
  }

  /** `OctetCanonical` for three-digit fields. */
  lemma ThreeDigitsCanonical(s: string, n: byte)
    requires |s| == 3 && ParseOctet(s) == Some(n)
    ensures s == Decimal(n)
  {
    DigitsValue3(s);
    var d0, d1, d2 := DigitValue(s[0]), DigitValue(s[1]), DigitValue(s[2]);
    assert n as int == d0 * 100 + d1 * 10 + d2 && 1 <= d0;
    assert n as int / 100 == d0 && n as int / 10 % 10 == d1 && n as int % 10 == d2;
    assert Decimal(n) == [DigitChar(d0), DigitChar(d1), DigitChar(d2)];
  }

  /** `OctetCanonical` for two-digit fields. */
  lemma TwoDigitsCanonical(s: string, n: byte)
    requires |s| == 2 && ParseOctet(s) == Some(n)
    ensures s == Decimal(n)
  {
    DigitsValue2(s);
    var d0, d1 := DigitValue(s[0]), DigitValue(s[1]);
    assert n as int == d0 * 10 + d1 && 1 <= d0;
    assert n as int / 10 == d0 && n as int % 10 == d1;
    assert Decimal(n) == [DigitChar(d0), DigitChar(d1)];
  }

  /** `ip.String()` for a 4-byte IP: the four octets in decimal, separated by dots. */
  function FormatIPv4(q: seq<byte>): string
    requires |q| == IPv4Len
  {
    Join([Decimal(q[0]), Decimal(q[1]), Decimal(q[2]), Decimal(q[3])], '.')
  }

  /** The printed form spelled out: four decimal fields and three dots. */
  lemma FormatIPv4Text(q: seq<byte>)
    requires |q| == IPv4Len
    ensures FormatIPv4(q) == Decimal(q[0]) + "." + Decimal(q[1]) + "." + Decimal(q[2]) + "." + Decimal(q[3])
  {
    var f := [Decimal(q[0]), Decimal(q[1]), Decimal(q[2]), Decimal(q[3])];
    var f1, f2, f3 := f[1..], f[1..][1..], f[1..][1..][1..];
    assert f3 == [Decimal(q[3])] && Join(f3, '.') == Decimal(q[3]);
    assert Join(f2, '.') == Decimal(q[2]) + "." + Decimal(q[3]);
    assert Join(f1, '.') == Decimal(q[1]) + "." + (Decimal(q[2]) + "." + Decimal(q[3]));
    assert Join(f, '.') == Decimal(q[0]) + "." + (Decimal(q[1]) + "." + (Decimal(q[2]) + "." + Decimal(q[3])));
  }

  /** A dotted-decimal IPv4 literal: exactly four fields, each accepted by `ParseOctet`. */
  function ParseDottedQuad(s: string): (r: Option<seq<byte>>)
    ensures r.Some? ==> |r.value| == IPv4Len
  {
    var fields := Split(s, '.');
    if |fields| != 4 then None
    else
      match (ParseOctet(fields[0]), ParseOctet(fields[1]), ParseOctet(fields[2]), ParseOctet(fields[3]))
      case (Some(a), Some(b), Some(c), Some(d)) => Some([a, b, c, d])
      case _ => None
  }

  /** Printing an address and parsing the text gives the address back. */
  lemma {:induction false} FormatThenParse(q: seq<byte>)
    requires |q| == IPv4Len
    ensures ParseDottedQuad(FormatIPv4(q)) == Some(q)
  {
    var fields := [Decimal(q[0]), Decimal(q[1]), Decimal(q[2]), Decimal(q[3])];
    forall k | 0 <= k < |fields|
      ensures '.' !in fields[k]
    {
      assert AllDigits(fields[k]);
    }
    SplitJoin(fields, '.');
    OctetRoundTrip(q[0]);
    OctetRoundTrip(q[1]);
    OctetRoundTrip(q[2]);
    OctetRoundTrip(q[3]);
    assert [q[0], q[1], q[2], q[3]] == q;
  }

  /** Text that parses is exactly the printed form of its address: the literal syntax has
      one spelling per address. */
  lemma {:induction false} ParseThenFormat(s: string)
    requires ParseDottedQuad(s).Some?
    ensures s == FormatIPv4(ParseDottedQuad(s).value)
  {
    var q := ParseDottedQuad(s).value;
    var fields := Split(s, '.');
    JoinSplit(s, '.');
    OctetCanonical(fields[0], q[0]);
    OctetCanonical(fields[1], q[1]);
    OctetCanonical(fields[2], q[2]);
    OctetCanonical(fields[3], q[3]);
    assert fields == [Decimal(q[0]), Decimal(q[1]), Decimal(q[2]), Decimal(q[3])];
  }

  /** `net.ParseIP(s)` on dotted-decimal IPv4 text: the 16-byte IPv4-mapped form of the
      address, or `nil` (the empty slice) when `s` is not a valid literal. */
  function ParseIP(s: string): (ip: seq<byte>)
    ensures ip == [] || (|ip| == IPv6Len && ip[..12] == V4InV6Prefix)
  {
    match ParseDottedQuad(s)
    case Some(q) => IPv4(q)
    case None => []
  }

  /** Parsing the printed form of `q` gives the 16-byte mapped form of `q`, whose `To4` is `q`. */
  lemma ParseIPOfFormatted(q: seq<byte>)
    requires |q| == IPv4Len
    ensures ParseIP(FormatIPv4(q)) == IPv4(q)
    ensures To4(ParseIP(FormatIPv4(q))) == Some(q)
  {
    FormatThenParse(q);
  }
}
