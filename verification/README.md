# Local IPv4 selection (`network` package), modelled in Dafny

The `network` package picks the host's local IPv4 address for a service to advertise.
`GetLocalIPv4` walks the host's interfaces in order. It skips loopback interfaces, interfaces that
are down, and interfaces whose name contains `docker` or `veth`. It walks each remaining
interface's addresses in order and drops any address that is not an `*net.IPNet`, that has no IPv4
form, or that lies in 127/8 or 169.254/16. It returns the first address that `isPrivateIP` calls
non-private. Failing that, it returns the first private candidate, and failing that `127.0.0.1`.
The same fallback applies when the interface list cannot be read. A failed address lookup on one
interface skips only that interface.

The model is purely functional:

- `wrappers.dfy`: `Option` for Go's `nil`, and `Result` for a `(value, error)` return.
- `bytes.dfy`: the `byte` type and `bytes.Compare`. The order is lexicographic, and a proper prefix sorts first.
- `strings.dfy`: `strings.Contains`, splitting and joining on a separator, and decimal digits.
- `netip.dfy`: the parts of `net.IP` the package uses:
  - the 16-byte IPv4-mapped form built by `net.ParseIP`;
  - `To4` and `IsLoopback`;
  - `String` on a 4-byte IP, as dotted decimal;
  - `net.ParseIP` on dotted-decimal text, following Go's rules: four fields, no leading zeros, each at most 255.
- `network.dfy`: the package itself:
  - `isPrivateIP` and its block table;
  - the address filters;
  - the two nested loops as recursive scans;
  - `GetLocalIPv4`.
- `network_properties.dfy`: a flat reference for the selection, plus the lemmas that relate the nested scan to it. The reference lists the eligible addresses in interface-then-address order and picks from that list in one pass.
- `network_scenarios.dfy`: the cases of `TestGetLocalIPv4`.

The two operating-system calls are package-level function variables in the source, so they can be
replaced. In the model they are input data. The interface list is a `Result<seq<Iface>>`, and each
`Iface` carries the `Result` of its own address lookup. The traversal is parameterised by the
private-range test (`isPrivate: seq<byte> -> bool`). This lets the same lemmas cover both
`GetLocalIPv4` as written and `GetLocalIPv4Corrected`, which uses the private-range test the code
was meant to have (see Findings).

## Model

| member | source | states |
|---|---|---|
| Bytes.Compare | network/ip_utils.go:84 | `bytes.Compare` answers -1, 0 or +1, and 0 exactly when the two byte strings are equal |
| Bytes.CompareLessIsLexLess | network/ip_utils.go:84 | `Compare` answers -1 exactly when the strings agree up to some position and then the first one ends or has the smaller byte, so a proper prefix sorts first |
| Bytes.CompareAntisymmetric | network/ip_utils.go:84 | swapping the operands of `bytes.Compare` negates its answer |
| Bytes.ComparePrefix | network/ip_utils.go:84 | a proper prefix compares below the longer string |
| Strings.Contains | network/ip_utils.go:30 | `strings.Contains(name, sub)` holds exactly when `sub` occurs at some position of `name`; the match is case-sensitive and can be at any position |
| NetIP.To4Inverse | network/ip_utils.go:45 | `To4` yields `v` exactly for the 4-byte form `v` and for the 16-byte IPv4-mapped form of `v`, and `v` then has 4 bytes |
| NetIP.FormatThenParse | network/ip_utils.go:57 | the dotted-decimal text that `NetIP.FormatIPv4` (`ip4.String()`) prints for a 4-byte IP parses back to the same IP |
| NetIP.ParseThenFormat | network/ip_utils.go:78-80 | text accepted as an IPv4 literal is exactly the printed form of its address, so there is one spelling per address |
| NetIP.OctetCanonical | network/ip_utils.go:78-80 | an accepted literal field is exactly the decimal text of its value: no leading zeros and at most three digits |
| NetIP.ParseIP | network/ip_utils.go:78-80 | `net.ParseIP` yields either nil or a 16-byte value that starts with the IPv4-mapped prefix |
| NetIP.ParseIPOfFormatted | network/ip_utils.go:78-80 | parsing the text of an address gives its 16-byte mapped form, and `To4` of that gives the address back |
| Network.InSomeBlock | network/ip_utils.go:83-88 | the block loop of `isPrivateIP` answers true exactly when some block has `Compare(ip, start) >= 0` and `Compare(ip, end) <= 0` |
| Network.Usable | network/ip_utils.go:40-53 | an address survives exactly when it is an `IPNet` with a `To4` form outside 127/8 (the `NetIP.IsLoopback` test on a 4-byte IP) and 169.254/16, and what survives is that `To4` form |
| Network.IsPrivateIP | network/ip_utils.go:73-89 | `isPrivateIP` as written holds exactly when `ip` lies, under `bytes.Compare`, between the bounds of one of the three blocks built with `net.ParseIP`; `NetworkProperties.IsPrivateIPNeverHolds` shows this is never so for a 4-byte address |
| Network.ScanAddrs | network/ip_utils.go:39-61 | the address loop stops only at a 4-byte address the test calls non-private; otherwise it keeps the earlier candidates and adds only 4-byte private ones |
| Network.ScanIfaces | network/ip_utils.go:27-62 | the interface loop has the same two outcomes as the address loop |
| Network.SelectIPv4 | network/ip_utils.go:20-69 | the chosen address always has 4 bytes, and it is 127.0.0.1 when the interface list cannot be read; `NetworkProperties.SelectRule` states the rest of the choice: the first non-private address, else the first candidate, else 127.0.0.1 |
| Network.GetLocalIPv4 | network/ip_utils.go:19-70 | the returned text is a valid dotted-decimal IPv4 literal that parses to the selected 4-byte address |
| Network.GetLocalIPv4Corrected | network/ip_utils.go:19-70 | the same promise for the selection that uses the corrected private-range test |
| NetworkProperties.UsableAddrs | network/ip_utils.go:39-53 | every address kept from an interface has 4 bytes and is neither in 127/8 nor in 169.254/16 |
| NetworkProperties.Contribution | network/ip_utils.go:29-37 | an interface that `Network.Excluded` rejects (loopback, down, or a name containing `docker` or `veth`) contributes no address, and neither does one whose address lookup failed |
| NetworkProperties.Eligible | network/ip_utils.go:27-53 | every eligible address, in interface-then-address order, has 4 bytes and is neither in 127/8 nor in 169.254/16 |
| NetworkProperties.Pick | network/ip_utils.go:55-60 | the reference selection over a flat list: the first non-private address wins; if every address is private, all of them become candidates, in order |
| NetworkProperties.PickAppend | network/ip_utils.go:27-62 | the selection over two consecutive parts moves on to the second part only when the first part has no winner, and keeps the first part's candidates |
| NetworkProperties.ScanAddrsIsPick | network/ip_utils.go:39-61 | the address loop equals the reference selection over the interface's usable addresses |
| NetworkProperties.ScanIfacesIsPick | network/ip_utils.go:27-62 | the nested loops equal the reference selection over all eligible addresses |
| NetworkProperties.SelectRule | network/ip_utils.go:55-69 | for any private-range test, the result is the first non-private eligible address if there is one; otherwise it is the first eligible address, and with no eligible address it is 127.0.0.1 |
| NetworkProperties.SelectIsEligible | network/ip_utils.go:19-70 | the result is 127.0.0.1 or one of the eligible addresses |
| NetworkProperties.EnumerationFailureGivesLoopback | network/ip_utils.go:20-23 | when the interface list cannot be read, the answer is the text `127.0.0.1` |
| NetworkProperties.SkippedIfaceIsIrrelevant | network/ip_utils.go:29-37 | removing an excluded interface, or one whose address lookup failed, from anywhere in the list leaves the answer unchanged |
| NetworkProperties.DroppedAddrIsIrrelevant | network/ip_utils.go:39-53 | removing a filtered-out address from anywhere in an interface's list leaves the answer unchanged |
| NetworkProperties.NonPrivateEndsTheSearch | network/ip_utils.go:55-58 | once the interfaces scanned so far hold a non-private eligible address, appending any further interfaces leaves the answer unchanged |
| NetworkProperties.FourBytesAgainstMapped | network/ip_utils.go:84 | a 4-byte address compares below a 16-byte mapped bound only when it is 0.0.0.0, and above it otherwise |
| NetworkProperties.IsPrivateIPNeverHolds | network/ip_utils.go:73-89 | `isPrivateIP` as written is false for every 4-byte address |
| NetworkProperties.AsWrittenTakesFirstEligible | network/ip_utils.go:56-69 | as written, no private candidate is ever collected, and the answer is the first eligible address or `127.0.0.1` |
| NetworkProperties.PrivateLiterals | network/ip_utils.go:78-80 | the table's bounds are the 16-byte mapped forms of the RFC 1918 limits, and their `To4` forms are the 4-byte limits |
| NetworkProperties.IsPrivateIPv4MatchesRfc1918 | network/ip_utils.go:73-89 | the corrected test holds exactly for 10/8, 172.16/12 and 192.168/16, bounds included |
| NetworkProperties.CorrectedPrefersPublic | network/ip_utils.go:55-58 | with the corrected test, if any eligible address is outside RFC 1918, the answer is outside RFC 1918 too |
| NetworkScenarios.PublicAddressReturned | network/ip_utils_test.go:22-42 | eth0 with 203.0.113.1 yields `203.0.113.1` |
| NetworkScenarios.PrivateAddressReturned | network/ip_utils_test.go:43-63 | eth0 with 192.168.1.100 yields `192.168.1.100` |
| NetworkScenarios.MultiNicAsWrittenReturnsPrivate | network/ip_utils_test.go:64-99 | eth0 with 192.168.1.100 followed by eth1 with 203.0.113.1 yields `192.168.1.100`, not the expected `203.0.113.1` |
| NetworkScenarios.MultiNicCorrectedReturnsPublic | network/ip_utils_test.go:64-99 | the same interfaces yield `203.0.113.1` with the corrected test |
| NetworkScenarios.EnumerationFailureReturnsLoopback | network/ip_utils_test.go:100-108 | a failing interface lookup yields `127.0.0.1` |
| NetworkScenarios.DockerInterfaceSkipped | network/ip_utils_test.go:109-144 | docker0 with 172.17.0.1 followed by eth0 with 192.168.1.100 yields `192.168.1.100` |
| NetworkScenarios.LoopbackInterfaceSkipped | network/ip_utils_test.go:145-165 | a loopback-flagged lo with 127.0.0.1 yields `127.0.0.1` |
| NetworkScenarios.BoundsAreInclusive | network/ip_utils.go:78-80 | with the corrected test, the six RFC 1918 bounds are private and the addresses just outside them are not; with the test as written, none of them is private |

## Left out

- `version/version.go`. It only assembles build metadata from link-time variables and the runtime, and formats it with `fmt` and `encoding/json`. It also prints to stdout and registers HTTP routes. None of this is decision logic.
- The operating-system calls `net.Interfaces()` and `(*net.Interface).Addrs()`. They are the inputs of the model. The test file's swapping of the package-level function variables is therefore not modelled.
- Interface flags are two booleans, `up` and `loopback`, rather than Go's `net.Flags` bit mask. Only those two bits are read.
- The `Mask` of an `*net.IPNet` and the concrete types of other `net.Addr` values (`OtherAddr`). Neither affects the selection.
- A nil `*net.IPNet` inside a `net.Addr` (a typed nil). The type assertion at network/ip_utils.go:40 succeeds on it, and `ipNet.IP` at line 45 then dereferences nil, so the source panics. `Addr` has no value for it, so `GetLocalIPv4` is total where the source is not. `(*net.Interface).Addrs()` never returns such a value; only a replaced `interfaceAddrs` can.
- `net.ParseIP` on IPv6 text, such as `::ffff:10.0.0.1`. The model returns nil for every string that is not a dotted-decimal IPv4 literal. The package only parses IPv4 literals.
- `IP.String` on IPs other than 4 bytes. The package calls it only on the result of `To4`.
- The source keeps private candidates as text (`ip4.String()`). The model keeps the 4-byte values and formats the chosen one at the end, which gives the same string.
- Concurrency. The function is reentrant, keeps no state and only reads its inputs.

## Findings

| source | as written | input that shows it | evidently intended | confidence | as-written member | corrected member |
|---|---|---|---|---|---|---|
| network/ip_utils.go:78-84 | The block bounds come from `net.ParseIP`, which yields the 16-byte IPv4-mapped form. The value being classified is the 4-byte `ip4` from `To4`. Under `bytes.Compare`, every 4-byte value other than 0.0.0.0 sorts after both bounds, and 0.0.0.0 sorts before both. So `isPrivateIP` is always false, and every address counts as public. | 192.168.1.100 is classified as not private. The multi-NIC case (eth0 with 192.168.1.100, then eth1 with 203.0.113.1) returns `192.168.1.100`, but the case expects `203.0.113.1`. | An RFC 1918 (section 3) classification: compare against the 4-byte bounds (`net.ParseIP(..).To4()`), so that public addresses are preferred over private ones. | high (proved; not executed) | NetworkProperties.IsPrivateIPNeverHolds | NetworkProperties.IsPrivateIPv4MatchesRfc1918 |

Two members exhibit the as-written behaviour. `NetworkProperties.AsWrittenTakesFirstEligible` shows that the private candidate list is always empty. `NetworkScenarios.MultiNicAsWrittenReturnsPrivate` shows the failing multi-NIC case.

`Network.IsPrivateIPv4` is the corrected test, and `Network.GetLocalIPv4Corrected` is the selection that uses it. `NetworkScenarios.MultiNicCorrectedReturnsPublic` and `NetworkProperties.CorrectedPrefersPublic` show the intended preference for public addresses. The lemmas about the traversal (`SelectRule`, `SkippedIfaceIsIrrelevant`, `DroppedAddrIsIrrelevant`, `NonPrivateEndsTheSearch`, `SelectIsEligible`) hold for either test.
