# BGP dual-ISP simulator: address arithmetic and configuration checks

This project models, in Dafny, the core of the BGP dual-ISP network
simulator in `src/App.jsx`. The simulator is a teaching game. Two ISPs each
own a private address block: ISP A has 10.0.0.0/8 with AS 65001, and ISP B
has 172.16.0.0/12 with AS 65002. The player does four things:

- configures iBGP in each ISP, with an AS number and a router ID;
- configures the eBGP peering link between the ISPs, a /30 taken from
  192.168.0.0/16;
- connects thirty customer zones;
- chooses for each zone a network address inside its ISP's block, large
  enough for the zone's hosts.

The model has seven modules, beside a small `Wrappers` module for `Option`:

- `Bits`: powers of two and bitwise AND/OR on naturals.
- `Text`: the JavaScript string operations the core uses. These are
  `split`, `join`, `parseInt` (base 10, and with no radix, where a `0x`
  prefix selects base 16), the white space `parseInt` skips, decimal and
  binary renderings, and `padStart`.
- `Address`: the JavaScript 32-bit operators and the IPv4 helpers
  `ipToLong`, `longToIp`, `isIpInSubnet`, the prefix mask, and the binary
  renderings `octetToBinary`, `ipToBinary` and `cidrToBinaryMask`. It also
  defines the dotted-quad pattern `/^(\d{1,3}\.){3}\d{1,3}$/` that the
  validators test.
- `AsPolicy`: the AS classifier `getAsType` and the AS input field.
- `Subnet`: `calculateSubnet`. The specification function is `SubnetOf`.
  The method `CalculateSubnet`, with the preview loop `PreviewHosts`, is
  proved equal to it. Lemmas give the layout of the record: network,
  broadcast, usable hosts, preview and membership.
- `Validators`: the ordered, fail-fast checks of the three configuration
  handlers (iBGP, eBGP and zone connection), written as functions from the
  values each handler reads to the first failing step. Lemmas state
  exactly when each check succeeds.
- `Lab`: the simulator's state as the class `Simulator`. The React state
  that the handlers read or write is held in fields: the two ISPs' data
  and configuration, the peering configuration, the zones, the selected
  zone, and the zone input's address and prefix. The score, the active
  tab, the help panel, the list expansion and `inputIspSource` are not
  modelled (see "Left out"). Each handler is a method that runs its
  validator and writes the outcome. The class invariant `Valid` states:
  - each ISP keeps its fixed block and prefix;
  - its AS is the same in its data and its configuration, and its class
    is the one `getAsType` gives that AS;
  - the peering link's prefix field is 30, and a configured link is a
    two-host /30 inside 192.168.0.0/16;
  - there are thirty zones, each belonging to its fixed ISP;
  - an online zone's subnet lies inside its own ISP's block and has
    enough hosts;
  - the selected zone, if any, is a position in the list;
  - the input prefix is in 8..30.

JavaScript numbers are modelled as mathematical integers. A bit operator's
32-bit result is held as its unsigned bit pattern (`u32`). Shift counts are
taken modulo 32, as in JavaScript.

The model follows the code, including where it is more permissive
than a reader might expect:

- `getAsType` classifies every number at or above 65536 as 4-byte, with no
  upper bound.
- `ipToLong` does not reject parts above 255. The dotted-quad pattern
  admits parts up to 999. Such parts wrap and spill into the neighbouring
  bytes (`Address.FirstOctetWraps`).
- `isIpInSubnet` with prefix 0 compares all 32 bits, because the shift
  count wraps. It does not match every address (`Address.MaskOfPrefixZero`).

## Model

| member | source | states |
|---|---|---|
| AsPolicy.AsTypeRanges | src/App.jsx:16-22 | each AS class is exactly its range: public 1..64511, private 64512..65534, reserved 0 and 65535, 4-byte from 65536 up; only negative numbers are Invalid, so the classes are disjoint and total |
| AsPolicy.SixteenBitClasses | src/App.jsx:16-19 | the three 16-bit classes together are exactly the numbers 0..65535 |
| AsPolicy.GetAsType | src/App.jsx:16-22 | the classifier; its ranges are stated by AsTypeRanges |
| AsPolicy.AsFromInput | src/App.jsx:548-549 | the stored AS is '' exactly when the base-10 parse is NaN or below 1; otherwise it is the parsed number, which is at least 1 |
| AsPolicy.AsFromDecimal | src/App.jsx:548-550 | a positive number typed in decimal is stored as itself and is never classified Invalid |
| AsPolicy.InputAsType | src/App.jsx:549-550 | an AS derived from input is classified Invalid exactly when it is '' |
| Text.JoinSplit | src/App.jsx:27 | the pieces of a split contain no separator, and joining them restores the text |
| Text.SplitJoin | src/App.jsx:36-41 | splitting separator-free parts after joining them gives back the parts |
| Text.ParseIntDecimal | src/App.jsx:29-32 | the decimal text of every natural parses back to it in base 10, and passes the radix-less `NaN` test |
| Text.ShortDigitsParse | src/App.jsx:28 | one to three digits pass the radix-less `NaN` test and parse in base 10 to their value, which is below 1000 |
| Text.ParsesAsNumberBase10 | src/App.jsx:28-32 | a part that passes the radix-less NaN test also has a base-10 value |
| Text.Split | src/App.jsx:27 | `split` on one character always gives at least one part |
| Text.ParseInt | src/App.jsx:29-32 | `parseInt(s, 10)`; its read-back of decimal text is stated by ParseIntDecimal |
| Text.ParsesAsNumber | src/App.jsx:28 | the radix-less NaN test; ParseIntAnyRadix succeeds exactly when it passes |
| Text.ParseIntAnyRadix | src/App.jsx:925 | `parseInt` with no radix is a number exactly when the radix-less NaN test passes |
| Text.HexTextParses | src/App.jsx:925 | "0x" and hexadecimal digits read as their base-16 value with no radix, but as 0 in base 10 |
| Text.ParseIntAnyRadixDecimal | src/App.jsx:925 | decimal text reads the same with and without a radix |
| Address.IpToLong | src/App.jsx:26-33 | `ipToLong`; its failure cases are stated by IpToLongFailures, its round trip by LongToIpRoundTrip |
| Address.LongToIp | src/App.jsx:35-42 | `longToIp`; its parts are stated by LongToIpParts |
| Address.IpToLongOfBytes | src/App.jsx:26-33 | the dotted quad of four byte values converts to the base-256 number they spell |
| Address.IpToLongOfValues | src/App.jsx:29-32 | four parts with base-10 values combine as the shifts and ORs of `ipToLong`, with no range check on the parts |
| Address.ShiftDropsHighByte | src/App.jsx:29 | a left shift by 24 keeps only the low byte of its operand |
| Address.MatchesIpPattern | src/App.jsx:577 | the dotted-quad pattern; its consequences are stated by PatternParses |
| Address.Mask | src/App.jsx:45 | the prefix mask; its shape is stated by MaskOfPrefix and MaskOfPrefixZero |
| Address.IsIpInSubnet | src/App.jsx:44-47 | `isIpInSubnet`; its meaning is stated by InSubnetIff and MembershipIsRange |
| Address.OctetToBinary | src/App.jsx:83-85 | `octetToBinary`; its value is stated by OctetToBinaryValue |
| Address.IpToBinary | src/App.jsx:87-91 | `ipToBinary`; its shape is stated by IpToBinaryShape and IpToBinaryOfLong |
| Address.CidrToBinaryMask | src/App.jsx:93-101 | `cidrToBinaryMask`; its shape is stated by CidrToBinaryMaskShape |
| Address.LongToIpRoundTrip | src/App.jsx:26-42 | every 32-bit value survives `longToIp` followed by `ipToLong` |
| Address.LongToIpParts | src/App.jsx:35-42 | `longToIp` gives four parts, the decimal texts of the value's bytes, most significant first |
| Address.IpToLongFailures | src/App.jsx:26-28 | `ipToLong` gives a result exactly when there are four parts and none of them is `NaN` to the radix-less `parseInt`; a result means every part has a base-10 value |
| Address.FirstOctetWraps | src/App.jsx:26-33 | a first part 256 above a byte is accepted and reads as the byte alone, so parts above 255 are not rejected |
| Address.PatternParses | src/App.jsx:577-578 | text matching the dotted-quad pattern always converts, each part to its digit value (up to 999) |
| Address.LongToIpMatchesPattern | src/App.jsx:35-42 | the text of every 32-bit value matches the dotted-quad pattern |
| Address.MaskOfPrefix | src/App.jsx:45 | for prefixes 1..32 the mask has the prefix's leading bits set, and its complement is 2^(32-cidr) - 1 |
| Address.MaskOfPrefixZero | src/App.jsx:45 | with prefix 0 the shift count wraps, and the mask is all ones |
| Address.AndMask | src/App.jsx:53-54 | masking with a 1..32 prefix rounds the value down to a multiple of 2^(32-cidr) |
| Address.InSubnetIff | src/App.jsx:44-47 | containment in a 1..32 prefix holds exactly when the two values have the same quotient by the block size |
| Address.OctetToBinaryValue | src/App.jsx:83-85 | an octet text that parses to a byte renders as eight binary digits whose value is that byte |
| Address.IpToBinaryShape | src/App.jsx:87-91 | "Invalid IP" for any number of parts other than four; otherwise at least 35 characters |
| Address.IpToBinaryOfLong | src/App.jsx:83-91 | the binary rendering of `longToIp(v)` is four groups of eight bits, each spelling the matching byte of v |
| Address.CidrToBinaryMaskShape | src/App.jsx:93-101 | fails exactly outside 0..32; otherwise 35 characters with dots after every eighth bit, and bit j is '1' exactly when j is below the prefix |
| Subnet.MapRange | src/App.jsx:62-66 | the preview has the requested length, and entry i is the text of start + i |
| Subnet.SubnetOf | src/App.jsx:49-78 | null exactly when the address does not convert or the prefix is outside 1..30; otherwise the record computed from the address value |
| Subnet.CalculateSubnet | src/App.jsx:49-78 | the method returns the record the specification function gives |
| Subnet.SubnetFromLong | src/App.jsx:53-77 | from a converted address, the method builds the specified record |
| Subnet.PreviewHosts | src/App.jsx:62-66 | the loop pushes the texts of the first `maxDisplayableHosts` usable hosts, in order |
| Subnet.NetworkRoundsDown | src/App.jsx:53-54 | the network is the address with its 32 - cidr host bits cleared |
| Subnet.NetworkAligned | src/App.jsx:53-54 | the network is aligned on the block size, in the address's block, and at most size - 1 below the address |
| Subnet.NetworkIdempotent | src/App.jsx:53-54 | masking an aligned network again leaves it unchanged |
| Subnet.BroadcastFillsHostBits | src/App.jsx:55 | the broadcast of an aligned network is the network plus 2^(32-cidr) - 1 |
| Subnet.UsableRange | src/App.jsx:57-60 | in a block of at least four addresses the usable hosts run from network + 1 to broadcast - 1, and there are size - 2 of them |
| Subnet.RecordLayout | src/App.jsx:57-77 | the record holds the block's ends, size - 2 hosts, the first and last host, and a preview of min(size - 2, 256) consecutive hosts from network + 1 |
| Subnet.BlockOfAddress | src/App.jsx:53-55 | the network rounds the address down to the block size, and the broadcast lies size - 1 above it |
| Subnet.SubnetOfLayout | src/App.jsx:49-78 | network ≤ address ≤ broadcast, the block has 2^(32-cidr) addresses, totalHosts = 2^(32-cidr) - 2 ≥ 2, and the address is in the subnet of its network |
| Subnet.PreviewLength | src/App.jsx:63-66 | the preview holds min(totalHosts, 256) entries |
| Subnet.FirstHostReadsBack | src/App.jsx:57-71 | the first host text converts back to network + 1 |
| Subnet.LastHostReadsBack | src/App.jsx:58-72 | the last host text converts back to broadcast - 1 |
| Subnet.SubnetOfAligned | src/App.jsx:53-54 | the network of a record is a multiple of the block size |
| Subnet.Slash30Hosts | src/App.jsx:60 | a /30 has exactly two usable hosts |
| Subnet.MembershipIsRange | src/App.jsx:44-47 | against an aligned network, membership is exactly the range from network to broadcast |
| Subnet.PreviewInsideBlock | src/App.jsx:62-66 | every preview entry converts to a value strictly between network and broadcast, inside the subnet |
| Subnet.RecomputeOnNetwork | src/App.jsx:49-78 | recomputing on the record's own network address with the same prefix gives the same record |
| Validators.InBlockRange | src/App.jsx:44-47 | against an aligned block, `isIpInSubnet` of a converted address is the range of 2^(32-cidr) addresses from the block |
| Validators.PeeringRangeValue | src/App.jsx:8-9 | the peering range text converts to 192.168.0.0 as a value |
| Validators.IbgpCheck | src/App.jsx:571-582 | the AS error is reported exactly when the AS is refused, before the router ID is looked at; success means the router ID matches the pattern and converts |
| Validators.IbgpAccepts | src/App.jsx:571-582 | iBGP comes up exactly for a public, private or 4-byte AS and a router ID matching the pattern |
| Validators.EbgpCheck | src/App.jsx:600-634 | success yields the /30 subnet of the link address inside 192.168.0.0/16, whose remote AS is ISP B's and not ISP A's |
| Validators.EbgpAccepts | src/App.jsx:600-634 | the link is accepted exactly when both iBGP sessions are up, the address is a dotted quad inside 192.168.0.0/16, the prefix is 30, and the remote AS equals ISP B's AS and differs from ISP A's |
| Validators.EbgpLink | src/App.jsx:613-640 | an accepted link has two hosts and contains the address, and the whole /30 lies inside 192.168.0.0/16 |
| Validators.ZoneCheck | src/App.jsx:665-702 | success requires BGP to be ready and the address to match the pattern, and yields the subnet of the input, which has enough hosts, for an address inside the ISP's block |
| Validators.EbgpLinkRejections | src/App.jsx:600-621 | the eBGP checks fail first on readiness, then on the pattern, then on the /30-in-range test: each error is reported exactly when its step fails and the earlier steps pass |
| Validators.EbgpAsRejections | src/App.jsx:623-634 | with a valid link, the remote-AS mismatch is reported exactly when the remote AS is not ISP B's, and self-peering exactly when it is ISP B's and also ISP A's |
| Validators.InPeeringRange | src/App.jsx:615-618 | a dotted quad is in 192.168.0.0/16 exactly when its value lies in the range's 2^16 numbers |
| Validators.ZoneRejections | src/App.jsx:665-702 | the zone checks fail in the order BGP offline, bad format, bad prefix or unconvertible address, wrong ISP block, not a network ID, too few hosts: each error is reported exactly when its step fails and every earlier step passes |
| Validators.HostAddressRejected | src/App.jsx:687-696 | a host address inside an aligned ISP block (10.1.1.5/24 in 10.0.0.0/8, say) is refused as not being a network ID, not as being outside the block |
| Validators.ZoneAccepts | src/App.jsx:665-702 | a zone is accepted exactly when BGP is ready, the address matches the pattern, the prefix is 1..30, the address is in the ISP block and is the text of its own network, and 2^(32-cidr) - 2 ≥ hostsRequired |
| Validators.AcceptedZoneConditions | src/App.jsx:665-702 | an accepted zone meets every condition of the guard chain |
| Validators.ConditionsAcceptZone | src/App.jsx:665-702 | with BGP ready, an address meeting every condition is accepted |
| Validators.ZoneCidrRejected | src/App.jsx:673-679 | once the pattern matches, the subnet step fails exactly for a prefix outside 1..30 |
| Validators.ZoneAcceptedIsNetwork | src/App.jsx:688-699 | an accepted zone address is the canonical text of an aligned network value, with 2^(32-cidr) - 2 ≥ hostsRequired hosts |
| Validators.NetworkZoneAccepted | src/App.jsx:665-702 | conversely, with BGP ready, the text of an aligned value inside the block is accepted when the prefix leaves enough hosts |
| Lab.IspABlockValue | src/App.jsx:12 | ISP A's block text converts to 10.0.0.0 as a value |
| Lab.IspBBlockValue | src/App.jsx:13 | ISP B's block text converts to 172.16.0.0 as a value |
| Lab.BlockAligned | src/App.jsx:12-13 | each ISP block is aligned on its size and ends where it is stated to |
| Lab.AcceptedZoneInsideBlock | src/App.jsx:681-699 | a zone accepted with a prefix of /8 or longer lies wholly inside its ISP's block, from network to broadcast |
| Lab.RemoteAsFromInput | src/App.jsx:925 | the stored remote AS is '' exactly when the radix-less parse is NaN or 0; otherwise it is the parsed non-zero number |
| Lab.RemoteAsFromDecimal | src/App.jsx:925 | a positive AS typed in decimal is stored as itself, the same value an ISP's AS field stores for that text |
| Lab.Simulator.constructor | src/App.jsx:451-486 | the initial state: both iBGP sessions pending with their ISP's AS and class, the link pending with ISP B's AS as remote AS, thirty fresh zones, and no selection |
| Lab.Simulator.ChangeAsNumber | src/App.jsx:547-562 | the typed AS replaces the ISP's AS in its data and configuration, with its class; iBGP goes back to pending; for ISP B the link's remote AS follows; the other ISP is unchanged |
| Lab.Simulator.EditRouterId | src/App.jsx:852 | a router ID edit sets the ID and puts that ISP's iBGP back to pending |
| Lab.Simulator.ConfigureIbgp | src/App.jsx:566-585 | the ISP's iBGP becomes configured exactly when the iBGP check passes, and in error with the first failing step otherwise; the other ISP is unchanged |
| Lab.Simulator.EditPeeringIp | src/App.jsx:914 | a link address edit sets the address and puts the link back to pending |
| Lab.Simulator.EditPeeringRemoteAs | src/App.jsx:925 | a remote AS edit stores the parsed AS and puts the link back to pending |
| Lab.Simulator.ConfigureEbgp | src/App.jsx:596-652 | on success the link is configured with its /30 and the first zone is selected; otherwise it is in error with the first failing check, and the selection is unchanged; the invariant keeps a configured link inside 192.168.0.0/16 |
| Lab.Simulator.LinkUp | src/App.jsx:636-651 | the link is configured with the accepted subnet, and zone 0 is selected |
| Lab.Simulator.LinkDown | src/App.jsx:600-634 | the link is in error with the reason, and nothing else changes |
| Lab.Simulator.SelectZone | src/App.jsx:1245 | the clicked zone becomes the selection |
| Lab.Simulator.SetZoneInput | src/App.jsx:1016-1030 | the zone address and prefix inputs take the typed values |
| Lab.Simulator.UpdateZoneStatus | src/App.jsx:503-516 | only the zone at the index changes; it takes status, message and configuration, with the new subnet and its hosts when one is given, and otherwise keeps its old subnet with an empty host list |
| Lab.Simulator.ConnectZone | src/App.jsx:656-713 | with no selection nothing changes; otherwise only the selected zone changes, keeping its ISP and host requirement, with the inputs as its configuration; it goes online only when BGP is ready and the address matches the pattern, and exactly when the zone check accepts, carrying that subnet, its host list and a message with the ISP's AS and LOCAL_PREF (the invariant keeps the subnet inside the ISP's block); otherwise it goes to error with the first failing check |

## Left out

- The user interface, the score, the help panel, the tabs and the automatic tab switches. Message texts are kept as tags that carry the facts they report.
- The standalone subnet calculator panel (src/App.jsx:339-352). It only feeds typed values to `calculateSubnet`, which is modelled.
- `generateBaseZoneDefinitions`: `Math.random` chooses each zone's required hosts and class. The host requirements are a constructor parameter. Display-only fields (name, colour, position, class) are not modelled.
- `resetGame` (src/App.jsx:518-545): it rebuilds the initial state the constructor describes.
- `inputIspSource` (src/App.jsx:486, 493, 964): it is written when a zone is selected but never read by the handlers. `handleConnectZone` uses the zone's own ISP.
- The LOCAL_PREF edit (src/App.jsx:863) and the effect that copies a selected zone's configuration into the inputs (src/App.jsx:489-494).
- Zones are selected by position in the list rather than by their `id`. Ids are 1..30 in list order, so `findIndex` finds the same zone.
- Floating-point behaviour: AS numbers and parsed parts beyond 2^53 are not modelled, nor is `parseInt` reading exponent notation from numbers that render as "1e21".
- The block texts of the ISPs are held as the values `ipToLong` gives them (`Lab.IspABlockValue`, `Lab.IspBBlockValue`). The peering range is held the same way (`Validators.PeeringRangeValue`).
- `cidrToBinaryMask` throws a RangeError for prefixes outside 0..32. The model returns `None` instead.
- Lab.Simulator.Valid: the invariant does not repeat the validators' outcomes (a matched pattern, the subnet record, the block test). It keeps their consequences: a configured link is a two-host /30 inside 192.168.0.0/16, and an online zone lies inside its ISP's block with enough hosts. Each handler's `ensures` ties its outcome to the validator for that call.
- Lab.Simulator.SetZoneInput: requires a prefix in 8..30, the range of the slider that sets it (src/App.jsx:1026-1028). The zone invariant relies on this. With a prefix of 7, the checks would accept 10.0.0.0/7, which reaches past ISP A's block to 11.255.255.255.
- Lab.Simulator.UpdateZoneStatus: requires an online status to come with a subnet inside the zone's ISP block. Its only caller, `handleConnectZone`, guarantees this.
