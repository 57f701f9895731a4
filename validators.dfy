/**
 * The ordered, fail-fast checks behind the simulator's three configuration
 * buttons: iBGP (src/App.jsx:566-594), the eBGP peering link (596-652) and
 * connecting a customer zone (656-713).  Each check is a function from the
 * values its handler reads to the first failing step, or to success; the
 * state the handlers then update lives in module Lab.
 */
module Validators {
  import opened Wrappers
  import opened Bits
  import opened Text
  import opened Address
  import opened AsPolicy
  import opened Subnet

  // ---------------------------------------------------------------------
  // address blocks

  /** `isIpInSubnet(ipToLong(ip), blockLong, cidr)` as the handlers call
      it, where blockLong is `ipToLong` of the block's text: a null address
      takes part in the bit operators as 0. */
  predicate InBlock(ip: string, blockLong: u32, cidr: int) {
    IsIpInSubnet(Operand(IpToLong(ip)), blockLong, cidr)
  }

  /** Against an aligned block, membership is the range of 2^(32 - cidr)
      addresses starting at the block. */
  lemma InBlockRange(ip: string, blockLong: u32, cidr: int)
    requires IpToLong(ip).Some?
    requires 1 <= cidr <= 30 && blockLong % Pow2(32 - cidr) == 0
    ensures InBlock(ip, blockLong, cidr) <==> blockLong <= IpToLong(ip).value < blockLong + Pow2(32 - cidr)
  {
    MembershipIsRange(blockLong, IpToLong(ip).value, cidr);
  }

  /** The range eBGP links are taken from, 192.168.0.0/16 (src/App.jsx:8-9),
      the last of the three private blocks of RFC 1918, section 3.  The
      handler converts the text on every call; the model uses the value,
      which `PeeringRangeValue` shows the conversion yields. */
  const PeeringRangeIp: string := "192.168.0.0"
  const PeeringRangeLong: u32 := 0xC0A8_0000
  const PeeringRangeCidr: int := 16

  /** The only prefix length an eBGP link may have. */
  const LinkCidr: int := 30

  lemma PeeringRangeValue()
    ensures IpToLong(PeeringRangeIp) == Some(PeeringRangeLong)
  {
    assert Decimal(192) == "192" by {
      assert Decimal(19) == "19";
    }
    assert Decimal(168) == "168" by {
      assert Decimal(16) == "16";
    }
    assert PeeringRangeIp == Join([Decimal(192), Decimal(168), Decimal(0), Decimal(0)], '.');
    IpToLongOfBytes(192, 168, 0, 0, PeeringRangeLong);
  }

  // ---------------------------------------------------------------------
  // iBGP

  datatype BgpStatus = Pending | Configured | Error

  datatype IbgpOutcome = BadAs | BadRouterId | IbgpOk

  /** Step 1 of `handleConfigureIBGP` (src/App.jsx:572): the AS is refused
      when it is '' or 0, or its stored class is Invalid or Reserved. */
  predicate AsRefused(asNumber: AsField, asType: AsType) {
    asNumber == Empty || asNumber == Num(0) || asType == Invalid || asType == Reserved
  }

  /** The checks of `handleConfigureIBGP` (src/App.jsx:571-582): the AS
      first, then the router ID, which must match the dotted-quad pattern
      and convert. */
  function IbgpCheck(asNumber: AsField, asType: AsType, routerId: string): (r: IbgpOutcome)
    ensures AsRefused(asNumber, asType) <==> r == BadAs
    ensures r == IbgpOk ==> MatchesIpPattern(routerId) && IpToLong(routerId).Some?
  {
    if AsRefused(asNumber, asType) then BadAs
    else if !MatchesIpPattern(routerId) || IpToLong(routerId).None? then BadRouterId
    else IbgpOk
  }

  /** With the class stored next to the AS, iBGP comes up exactly for a
      public, private or 4-byte AS and a router ID that matches the
      pattern: the null test after the pattern never fires. */
  lemma IbgpAccepts(asNumber: AsField, routerId: string)
    ensures IbgpCheck(asNumber, AsTypeOf(asNumber), routerId) == IbgpOk
            <==> asNumber.Num? && GetAsType(asNumber.n) in {Public16, Private16, FourByte} && MatchesIpPattern(routerId)
  {
    if MatchesIpPattern(routerId) {
      PatternParses(routerId);
    }
  }

  // ---------------------------------------------------------------------
  // eBGP

  datatype EbgpOutcome =
    | NotReady
    | BadLinkFormat
    | NotPeeringLink
    | RemoteAsMismatch
    | SelfPeering
    | EbgpOk(link: SubnetInfo)

  /** `parseInt(remoteAs) === as` for two stored AS fields: '' parses to
      `NaN`, which equals nothing, and '' itself equals no number. */
  predicate RemoteAsIs(remoteAs: AsField, asNumber: AsField) {
    remoteAs.Num? && asNumber == Num(remoteAs.n)
  }

  /** The checks of `handleConfigureEBGP` (src/App.jsx:600-634): iBGP up in
      both systems, the pattern, a /30 inside 192.168.0.0/16, the remote AS
      equal to ISP B's AS, and then different from ISP A's AS. */
  function EbgpCheck(statusA: BgpStatus, statusB: BgpStatus, ip: string, cidr: int,
                     remoteAs: AsField, localAs: AsField, peerAs: AsField): (r: EbgpOutcome)
    ensures r.EbgpOk? ==> SubnetOf(ip, cidr) == Some(r.link) && cidr == LinkCidr
    ensures r.EbgpOk? ==> MatchesIpPattern(ip) && InBlock(ip, PeeringRangeLong, PeeringRangeCidr)
    ensures r.EbgpOk? ==> RemoteAsIs(remoteAs, peerAs) && !RemoteAsIs(remoteAs, localAs)
  {
    if statusA != Configured || statusB != Configured then NotReady
    else if !MatchesIpPattern(ip) then BadLinkFormat
    else
      var subnetData := SubnetOf(ip, cidr);
      if subnetData.None? || cidr != LinkCidr || !InBlock(ip, PeeringRangeLong, PeeringRangeCidr) then NotPeeringLink
      else if !RemoteAsIs(remoteAs, peerAs) then RemoteAsMismatch
      else if RemoteAsIs(remoteAs, localAs) then SelfPeering
      else EbgpOk(subnetData.value)
  }

  /** The link is accepted exactly when both iBGP sessions are configured,
      the address is a dotted quad inside 192.168.0.0/16, the prefix is
      30, and the remote AS is ISP B's AS and not ISP A's. */
  lemma EbgpAccepts(statusA: BgpStatus, statusB: BgpStatus, ip: string, cidr: int,
                    remoteAs: AsField, localAs: AsField, peerAs: AsField)
    ensures EbgpCheck(statusA, statusB, ip, cidr, remoteAs, localAs, peerAs).EbgpOk?
            <==> && statusA == Configured && statusB == Configured
                 && MatchesIpPattern(ip) && IpToLong(ip).Some?
                 && 0xC0A8_0000 <= IpToLong(ip).value < 0xC0A9_0000
                 && cidr == 30
                 && remoteAs.Num? && peerAs == remoteAs && localAs != remoteAs
  {
    if MatchesIpPattern(ip) {
      InPeeringRange(ip);
    }
  }

  /** A dotted quad lies in 192.168.0.0/16 exactly when its value is in
      the range's 2^16 numbers. */
  lemma InPeeringRange(ip: string)
    requires MatchesIpPattern(ip)
    ensures IpToLong(ip).Some?
    ensures InBlock(ip, PeeringRangeLong, PeeringRangeCidr)
            <==> 0xC0A8_0000 <= IpToLong(ip).value < 0xC0A9_0000
  {
    PatternParses(ip);
    Pow2Values();
    InBlockRange(ip, PeeringRangeLong, PeeringRangeCidr);
  }

  /** The eBGP checks on readiness and on the link address report their
      error exactly when that step fails and every earlier step passes,
      in the order of src/App.jsx:600-621. */
  lemma EbgpLinkRejections(statusA: BgpStatus, statusB: BgpStatus, ip: string, cidr: int,
                           remoteAs: AsField, localAs: AsField, peerAs: AsField)
    ensures var r := EbgpCheck(statusA, statusB, ip, cidr, remoteAs, localAs, peerAs);
            var ready := statusA == Configured && statusB == Configured;
            var link := SubnetOf(ip, cidr).Some? && cidr == LinkCidr && InBlock(ip, PeeringRangeLong, PeeringRangeCidr);
            && (r == NotReady <==> !ready)
            && (r == BadLinkFormat <==> ready && !MatchesIpPattern(ip))
            && (r == NotPeeringLink <==> ready && MatchesIpPattern(ip) && !link)
  {
  }

  /** Once the link is valid, the AS checks report their error exactly
      when that step fails and the earlier one passes
      (src/App.jsx:623-634). */
  lemma EbgpAsRejections(statusA: BgpStatus, statusB: BgpStatus, ip: string, cidr: int,
                         remoteAs: AsField, localAs: AsField, peerAs: AsField)
    ensures var r := EbgpCheck(statusA, statusB, ip, cidr, remoteAs, localAs, peerAs);
            var ready := statusA == Configured && statusB == Configured;
            var link := SubnetOf(ip, cidr).Some? && cidr == LinkCidr && InBlock(ip, PeeringRangeLong, PeeringRangeCidr);
            var asOk := ready && MatchesIpPattern(ip) && link && RemoteAsIs(remoteAs, peerAs);
            && (r == RemoteAsMismatch <==> ready && MatchesIpPattern(ip) && link && !RemoteAsIs(remoteAs, peerAs))
            && (r == SelfPeering <==> asOk && RemoteAsIs(remoteAs, localAs))
  {
  }

  /** A four-address block holding a value of 192.168.0.0/16 lies wholly
      inside the range, which is itself aligned on four. */
  lemma QuadInsidePeeringRange(n: int, v: int)
    requires n % 4 == 0 && n <= v < n + 4
    requires 0xC0A8_0000 <= v < 0xC0A9_0000
    ensures 0xC0A8_0000 <= n && n + 3 < 0xC0A9_0000
  {
    var k := n / 4;
    assert n == 4 * k;
  }

  /** An accepted link is the /30 around the address, with two usable hosts,
      and the whole block lies inside 192.168.0.0/16. */
  lemma EbgpLink(statusA: BgpStatus, statusB: BgpStatus, ip: string, cidr: int,
                 remoteAs: AsField, localAs: AsField, peerAs: AsField)
    requires EbgpCheck(statusA, statusB, ip, cidr, remoteAs, localAs, peerAs).EbgpOk?
    ensures var link := EbgpCheck(statusA, statusB, ip, cidr, remoteAs, localAs, peerAs).link;
            && link.totalHosts == 2
            && link.networkLong <= IpToLong(ip).value <= link.broadcastLong
            && 0xC0A8_0000 <= link.networkLong && link.broadcastLong < 0xC0A9_0000
  {
    EbgpAccepts(statusA, statusB, ip, cidr, remoteAs, localAs, peerAs);
    var link := SubnetOf(ip, 30).value;
    SubnetOfLayout(ip, 30);
    SubnetOfAligned(ip, 30);
    assert Pow2(2) == 4;
    QuadInsidePeeringRange(link.networkLong, IpToLong(ip).value);
  }

  // ---------------------------------------------------------------------
  // customer zones

  datatype ZoneError = BgpOffline | BadIpFormat | BadCidrOrRange | WrongIspBlock | NotNetworkId | TooFewHosts

  datatype ZoneOutcome = ZoneRejected(error: ZoneError) | ZoneAccepted(data: SubnetInfo)

  /** The checks of `handleConnectZone` (src/App.jsx:665-702): BGP ready, the
      pattern, a subnet, the address inside the zone's ISP block, the
      address equal to its network address, and enough usable hosts. */
  function ZoneCheck(ready: bool, ip: string, cidr: int, blockLong: u32, blockCidr: int, hostsRequired: int): (r: ZoneOutcome)
    ensures r.ZoneAccepted? ==> SubnetOf(ip, cidr) == Some(r.data) && r.data.totalHosts >= hostsRequired
    ensures r.ZoneAccepted? ==> ready && MatchesIpPattern(ip) && InBlock(ip, blockLong, blockCidr)
  {
    if !ready then ZoneRejected(BgpOffline)
    else if !MatchesIpPattern(ip) then ZoneRejected(BadIpFormat)
    else
      var subnetData := SubnetOf(ip, cidr);
      if subnetData.None? then ZoneRejected(BadCidrOrRange)
      else if !InBlock(ip, blockLong, blockCidr) then ZoneRejected(WrongIspBlock)
      else if subnetData.value.networkAddress != ip then ZoneRejected(NotNetworkId)
      else if subnetData.value.totalHosts < hostsRequired then ZoneRejected(TooFewHosts)
      else ZoneAccepted(subnetData.value)
  }

  /** Each zone error is reported exactly when its step fails and every
      earlier step passes, in the order of src/App.jsx:665-702. */
  lemma ZoneRejections(ready: bool, ip: string, cidr: int, blockLong: u32, blockCidr: int, hostsRequired: int)
    ensures var r := ZoneCheck(ready, ip, cidr, blockLong, blockCidr, hostsRequired);
            var d := SubnetOf(ip, cidr);
            var formatOk := ready && MatchesIpPattern(ip);
            var subnetOk := formatOk && d.Some?;
            var blockOk := subnetOk && InBlock(ip, blockLong, blockCidr);
            var networkOk := blockOk && d.value.networkAddress == ip;
            && (r == ZoneRejected(BgpOffline) <==> !ready)
            && (r == ZoneRejected(BadIpFormat) <==> ready && !MatchesIpPattern(ip))
            && (r == ZoneRejected(BadCidrOrRange) <==> formatOk && d.None?)
            && (r == ZoneRejected(WrongIspBlock) <==> subnetOk && !InBlock(ip, blockLong, blockCidr))
            && (r == ZoneRejected(NotNetworkId) <==> blockOk && d.value.networkAddress != ip)
            && (r == ZoneRejected(TooFewHosts) <==> networkOk && d.value.totalHosts < hostsRequired)
  {
  }

  /** A host address (one that is not the first of its block) inside an
      aligned ISP block is refused as not being a network ID, not as lying outside
      the block: 10.1.1.5/24 in 10.0.0.0/8, say. */
  lemma HostAddressRejected(v: u32, cidr: int, blockLong: u32, blockCidr: int, hostsRequired: int)
    requires 1 <= cidr <= 30 && v % Pow2(32 - cidr) != 0
    requires 1 <= blockCidr <= 30 && blockLong % Pow2(32 - blockCidr) == 0
    requires blockLong <= v < blockLong + Pow2(32 - blockCidr)
    ensures ZoneCheck(true, LongToIp(v), cidr, blockLong, blockCidr, hostsRequired) == ZoneRejected(NotNetworkId)
  {
    var ip := LongToIp(v);
    LongToIpMatchesPattern(v);
    LongToIpRoundTrip(v);
    InBlockRange(ip, blockLong, blockCidr);
    NetworkRoundsDown(v, cidr);
    var n := NetworkOf(v, cidr);
    LongToIpRoundTrip(n);
    assert LongToIp(n) != ip;
  }

  /** A zone is accepted exactly when BGP is ready, the address matches the
      pattern, the prefix is in 1..30, the address lies in the ISP block, it
      is the text of its own network, and the block has enough hosts. */
  lemma ZoneAccepts(ready: bool, ip: string, cidr: int, blockLong: u32, blockCidr: int, hostsRequired: int)
    ensures ZoneCheck(ready, ip, cidr, blockLong, blockCidr, hostsRequired).ZoneAccepted?
            <==> && ready && MatchesIpPattern(ip) && IpToLong(ip).Some?
                 && 1 <= cidr <= 30
                 && InBlock(ip, blockLong, blockCidr)
                 && LongToIp(NetworkOf(IpToLong(ip).value, cidr)) == ip
                 && Pow2(32 - cidr) - 2 >= hostsRequired
  {
    if ZoneCheck(ready, ip, cidr, blockLong, blockCidr, hostsRequired).ZoneAccepted? {
      AcceptedZoneConditions(ready, ip, cidr, blockLong, blockCidr, hostsRequired);
    } else if && ready && MatchesIpPattern(ip) && IpToLong(ip).Some? && 1 <= cidr <= 30
              && InBlock(ip, blockLong, blockCidr)
              && LongToIp(NetworkOf(IpToLong(ip).value, cidr)) == ip
              && Pow2(32 - cidr) - 2 >= hostsRequired {
      ConditionsAcceptZone(ip, cidr, blockLong, blockCidr, hostsRequired);
      assert false;
    }
  }

  /** The conditions an accepted zone meets. */
  lemma AcceptedZoneConditions(ready: bool, ip: string, cidr: int, blockLong: u32, blockCidr: int, hostsRequired: int)
    requires ZoneCheck(ready, ip, cidr, blockLong, blockCidr, hostsRequired).ZoneAccepted?
    ensures && ready && MatchesIpPattern(ip) && IpToLong(ip).Some? && 1 <= cidr <= 30
            && InBlock(ip, blockLong, blockCidr)
            && LongToIp(NetworkOf(IpToLong(ip).value, cidr)) == ip
            && Pow2(32 - cidr) - 2 >= hostsRequired
  {
    ZoneAcceptedIsNetwork(ready, ip, cidr, blockLong, blockCidr, hostsRequired);
  }

  /** The conditions under which a zone is accepted once BGP is ready. */
  lemma ConditionsAcceptZone(ip: string, cidr: int, blockLong: u32, blockCidr: int, hostsRequired: int)
    requires MatchesIpPattern(ip) && IpToLong(ip).Some? && 1 <= cidr <= 30
    requires InBlock(ip, blockLong, blockCidr)
    requires LongToIp(NetworkOf(IpToLong(ip).value, cidr)) == ip
    requires Pow2(32 - cidr) - 2 >= hostsRequired
    ensures ZoneCheck(true, ip, cidr, blockLong, blockCidr, hostsRequired).ZoneAccepted?
  {
    SubnetOfLayout(ip, cidr);
  }

  /** Once the pattern matches, the subnet step fails only for a prefix
      outside 1..30: the address always converts. */
  lemma ZoneCidrRejected(ip: string, cidr: int, blockLong: u32, blockCidr: int, hostsRequired: int)
    requires MatchesIpPattern(ip)
    ensures ZoneCheck(true, ip, cidr, blockLong, blockCidr, hostsRequired) == ZoneRejected(BadCidrOrRange)
            <==> cidr < 1 || cidr > 30
  {
    PatternParses(ip);
  }

  /** An accepted zone address is the canonical text of an aligned network
      value, and the subnet has 2^(32 - cidr) - 2 >= hostsRequired hosts. */
  lemma ZoneAcceptedIsNetwork(ready: bool, ip: string, cidr: int, blockLong: u32, blockCidr: int, hostsRequired: int)
    requires ZoneCheck(ready, ip, cidr, blockLong, blockCidr, hostsRequired).ZoneAccepted?
    ensures var d := ZoneCheck(ready, ip, cidr, blockLong, blockCidr, hostsRequired).data;
            && 1 <= cidr <= 30
            && ip == LongToIp(d.networkLong)
            && IpToLong(ip) == Some(d.networkLong)
            && d.networkLong % Pow2(32 - cidr) == 0
            && d.totalHosts == Pow2(32 - cidr) - 2 >= hostsRequired
  {
    var v := IpToLong(ip).value;
    BlockOfAddress(v, cidr);
    SubnetOfLayout(ip, cidr);
    LongToIpRoundTrip(NetworkOf(v, cidr));
  }

  /** Conversely, the canonical text of an aligned value inside the block is
      accepted when BGP is ready and the prefix leaves enough hosts. */
  lemma NetworkZoneAccepted(v: u32, cidr: int, blockLong: u32, blockCidr: int, hostsRequired: int)
    requires 1 <= cidr <= 30 && v % Pow2(32 - cidr) == 0
    requires InBlock(LongToIp(v), blockLong, blockCidr)
    requires Pow2(32 - cidr) - 2 >= hostsRequired
    ensures ZoneCheck(true, LongToIp(v), cidr, blockLong, blockCidr, hostsRequired).ZoneAccepted?
  {
    var ip := LongToIp(v);
    LongToIpMatchesPattern(v);
    LongToIpRoundTrip(v);
    NetworkIdempotent(v, cidr);
    SubnetOfLayout(ip, cidr);
  }
}
