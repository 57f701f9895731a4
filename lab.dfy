/**
 * The simulator's state and the handlers that change it
 * (src/App.jsx:450-713): the data and BGP configuration of the two ISPs,
 * the eBGP peering link, the customer zones and the zone inputs.  The React
 * state setters become fields of one object; each handler is a method that
 * runs its validator (module Validators) and writes the outcome.
 */
module Lab {
  import opened Wrappers
  import opened Bits
  import opened Text
  import opened Address
  import opened AsPolicy
  import opened Subnet
  import opened Validators

  datatype IspId = A | B

  /** What the handlers read of an ISP's data: its address block, held as
      the value `ipToLong` gives its text, the prefix length, and its AS. */
  datatype IspData = IspData(block: u32, cidr: int, asNumber: AsField)

  /** The initial ISPs (src/App.jsx:12-13): 10.0.0.0/8 with AS 65001 and
      172.16.0.0/12 with AS 65002, the first two private blocks of RFC 1918,
      section 3. */
  const IspABlockText: string := "10.0.0.0"
  const IspABlock: u32 := 0x0A00_0000
  const IspACidr: int := 8
  const IspAAs: int := 65001
  const IspBBlockText: string := "172.16.0.0"
  const IspBBlock: u32 := 0xAC10_0000
  const IspBCidr: int := 12
  const IspBAs: int := 65002

  /** ISP A's block value is what `ipToLong` makes of its text. */
  lemma IspABlockValue()
    ensures IpToLong(IspABlockText) == Some(IspABlock)
  {
    assert Decimal(10) == "10";
    assert IspABlockText == Join([Decimal(10), Decimal(0), Decimal(0), Decimal(0)], '.');
    IpToLongOfBytes(10, 0, 0, 0, IspABlock);
  }

  /** ISP B's block value is what `ipToLong` makes of its text. */
  lemma IspBBlockValue()
    ensures IpToLong(IspBBlockText) == Some(IspBBlock)
  {
    assert Decimal(172) == "172" by {
      assert Decimal(17) == "17";
    }
    assert Decimal(16) == "16";
    assert IspBBlockText == Join([Decimal(172), Decimal(16), Decimal(0), Decimal(0)], '.');
    IpToLongOfBytes(172, 16, 0, 0, IspBBlock);
  }

  /** The first value after an ISP's block: 11.0.0.0 for 10.0.0.0/8 and
      172.32.0.0 for 172.16.0.0/12. */
  function BlockEnd(id: IspId): int {
    if id == A then 0x0B00_0000 else 0xAC20_0000
  }

  /** Each block is aligned on its own size, which is 2^(32 - cidr). */
  lemma BlockAligned(id: IspId)
    ensures BlockOf(id) % Pow2(32 - BlockCidrOf(id)) == 0
    ensures BlockEnd(id) == BlockOf(id) + Pow2(32 - BlockCidrOf(id))
  {
    Pow2Values();
    if id == A {
      DivModUnique(IspABlock, Pow2(24), 10, 0);
    } else {
      assert Pow2(20) == 0x10_0000 by {
        assert Pow2(4) == 16;
        Pow2Add(16, 4);
      }
      DivModUnique(IspBBlock, Pow2(20), 0xAC1, 0);
    }
  }

  /** A multiple of s inside a block that ends on a multiple of s leaves
      room for s values before the block ends. */
  lemma AlignedRoom(v: int, s: int, end: int)
    requires s >= 1 && v % s == 0 && end % s == 0
    requires 0 <= v < end
    ensures v + s <= end
  {
    MultipleOf(v, s);
    MultipleOf(end, s);
    var t, e := v / s, end / s;
    DivBelow(v, s, e);
    if e - t - 1 > 0 {
      MulAtLeast(e - t - 1, s);
    }
    assert e * s - (t + 1) * s == (e - t - 1) * s;
  }

  /** A multiple of p * q is a multiple of p. */
  lemma FactorDivides(x: int, p: int, q: int)
    requires p >= 1 && q >= 1 && x % (p * q) == 0
    ensures x % p == 0
  {
    var n := x / (p * q);
    MultipleOf(x, p * q);
    assert x == (n * q) * p;
    DivModUnique(x, p, n * q, 0);
  }

  /** Alignment on 2^j implies alignment on every smaller power of two. */
  lemma AlignedOnSmaller(x: int, k: nat, j: nat)
    requires k <= j && x % Pow2(j) == 0
    ensures x % Pow2(k) == 0
  {
    Pow2Add(k, j - k);
    FactorDivides(x, Pow2(k), Pow2(j - k));
  }

  /** An aligned block of 2^(32 - cidr) values starting inside an ISP's
      block, with a prefix at least as long as the ISP's, ends inside it. */
  lemma AlignedInsideBlock(n: int, cidr: int, id: IspId)
    requires BlockCidrOf(id) <= cidr <= 30 && n % Pow2(32 - cidr) == 0
    requires BlockOf(id) <= n < BlockEnd(id)
    ensures n + Pow2(32 - cidr) - 1 < BlockEnd(id)
  {
    BlockAligned(id);
    AlignedOnSmaller(BlockEnd(id), 32 - cidr, 32 - BlockCidrOf(id));
    AlignedRoom(n, Pow2(32 - cidr), BlockEnd(id));
  }

  /** No multiple of 2^21 lies in 172.16.0.0/12, so ISP B has no aligned
      block of a prefix shorter than its own. */
  lemma NoCoarseBlockInB(v: int)
    requires IspBBlock <= v < BlockEnd(B)
    ensures v % Pow2(21) == v - 0xAC00_0000 >= 0x10_0000
  {
    assert Pow2(21) == 0x20_0000 by {
      Pow2Values();
      assert Pow2(5) == 32;
      Pow2Add(16, 5);
    }
    DivModUnique(v, 0x20_0000, 0x560, v - 0xAC00_0000);
  }

  /** A zone accepted with a prefix of /8 or longer (the least the zone
      slider offers) lies wholly inside its ISP's block. */
  lemma AcceptedZoneInsideBlock(ready: bool, ip: string, cidr: int, id: IspId, hostsRequired: int)
    requires MinZoneCidr <= cidr
    requires ZoneCheck(ready, ip, cidr, BlockOf(id), BlockCidrOf(id), hostsRequired).ZoneAccepted?
    ensures var d := ZoneCheck(ready, ip, cidr, BlockOf(id), BlockCidrOf(id), hostsRequired).data;
            BlockOf(id) <= d.networkLong && d.broadcastLong < BlockEnd(id)
  {
    ZoneAcceptedIsNetwork(ready, ip, cidr, BlockOf(id), BlockCidrOf(id), hostsRequired);
    var d := ZoneCheck(ready, ip, cidr, BlockOf(id), BlockCidrOf(id), hostsRequired).data;
    SubnetOfLayout(ip, cidr);
    assert d.broadcastLong == d.networkLong + Pow2(32 - cidr) - 1;
    BlockAligned(id);
    InBlockRange(ip, BlockOf(id), BlockCidrOf(id));
    if cidr < BlockCidrOf(id) {
      AlignedOnSmaller(d.networkLong, 21, 32 - cidr);
      NoCoarseBlockInB(d.networkLong);
      assert false;
    }
    AlignedInsideBlock(d.networkLong, cidr, id);
  }

  /** The range of the zone prefix slider (src/App.jsx:1026-1028). */
  const MinZoneCidr: int := 8
  const MaxZoneCidr: int := 30

  /** The number of customer zones, the first half served by ISP A
      (src/App.jsx:108-110). */
  const ZoneCount: nat := 30

  /** LOCAL_PREF before any policy edit (src/App.jsx:469, 474). */
  const DefaultLocalPref: int := 100

  /** Messages are kept as the facts they report, not as text. */
  datatype IbgpNote = Blank | EditPending | AsChanged | IbgpRefused(reason: IbgpOutcome) | IbgpUp(localPref: int, asNumber: AsField)

  datatype IspConfig = IspConfig(routerId: string, iBGPStatus: BgpStatus, message: IbgpNote,
                                 asNumber: AsField, asType: AsType, localPref: int)

  datatype PeeringNote = Intro | LinkEditPending | EbgpRefused(reason: EbgpOutcome) | Peered(localAs: AsField, remoteAs: AsField)

  datatype PeeringConfig = PeeringConfig(ip: string, cidr: int, remoteAs: AsField, status: BgpStatus,
                                         message: PeeringNote, realData: Option<SubnetInfo>)

  datatype ZoneStatus = Offline | Online | Faulted

  datatype ZoneNote = Waiting | Rejected(error: ZoneError) | Connected(isp: IspId, asNumber: AsField, localPref: int)

  datatype ZoneConfig = ZoneConfig(ip: string, cidr: int, ispSource: IspId)

  /** The subnet a zone was connected with, tagged with the prefix. */
  datatype RealData = RealData(subnet: SubnetInfo, cidr: int)

  datatype Zone = Zone(ispId: IspId, hostsRequired: int, status: ZoneStatus, message: ZoneNote,
                       config: ZoneConfig, realData: Option<RealData>, houseIps: seq<string>)

  /** The ISP serving zone i (0-based) in the generated list. */
  function ZoneIsp(i: nat): IspId {
    if i < 15 then A else B
  }

  /** A zone as `generateBaseZoneDefinitions` creates it (src/App.jsx:108-126),
      with the random host requirement passed in. */
  function FreshZone(i: nat, hostsRequired: int): Zone {
    Zone(ZoneIsp(i), hostsRequired, Offline, Waiting, ZoneConfig("", 24, ZoneIsp(i)), None, [])
  }

  /** The AS stored for the remote peer after an edit of its field
      (src/App.jsx:925): `parseInt(value) || ''` with no radix, so `NaN`
      and 0 become ''. */
  function RemoteAsFromInput(value: string): (a: AsField)
    ensures a.Num? ==> a.n != 0 && ParseIntAnyRadix(value) == Some(a.n)
    ensures a.Empty? <==> !ParsesAsNumber(value) || ParseIntAnyRadix(value) == Some(0)
  {
    var n := ParseIntAnyRadix(value);
    if n.None? || n.value == 0 then Empty else Num(n.value)
  }

  /** A positive AS typed in decimal is stored as itself, the same value
      the AS field of an ISP stores for that text. */
  lemma RemoteAsFromDecimal(n: nat)
    requires n >= 1
    ensures RemoteAsFromInput(Decimal(n)) == Num(n) == AsFromInput(Decimal(n))
  {
    ParseIntAnyRadixDecimal(n);
    AsFromDecimal(n);
  }

  /** A link subnet with two hosts, wholly inside 192.168.0.0/16. */
  predicate LinkInsideRange(link: SubnetInfo) {
    link.totalHosts == 2 && 0xC0A8_0000 <= link.networkLong && link.broadcastLong < 0xC0A9_0000
  }

  /** The address block of an ISP. */
  function BlockOf(id: IspId): u32 {
    if id == A then IspABlock else IspBBlock
  }

  /** The prefix length of an ISP's block. */
  function BlockCidrOf(id: IspId): int {
    if id == A then IspACidr else IspBCidr
  }

  /** What an online zone carries: the subnet it was connected with, tagged
      with its own prefix, and that subnet's host list; its configuration
      names its own ISP, the subnet lies inside that ISP's block and has
      room for the zone's hosts. */
  predicate OnlineZoneHolds(z: Zone) {
    && z.realData.Some?
    && z.realData.value.cidr == z.config.cidr
    && z.config.ispSource == z.ispId
    && z.houseIps == z.realData.value.subnet.houseIps
    && SubnetInsideIsp(z.realData.value.subnet, z.ispId, z.hostsRequired)
  }

  /** A subnet lies inside an ISP's block and has at least the required
      number of usable hosts. */
  predicate SubnetInsideIsp(d: SubnetInfo, id: IspId, hostsRequired: int) {
    BlockOf(id) <= d.networkLong && d.broadcastLong < BlockEnd(id) && d.totalHosts >= hostsRequired
  }

  class Simulator {
    var ispAData: IspData
    var ispBData: IspData
    var ispAConfig: IspConfig
    var ispBConfig: IspConfig
    var peering: PeeringConfig
    var zones: seq<Zone>
    var selectedZone: Option<nat>
    var inputIp: string
    var inputCidr: int

    /** The data of one ISP. */
    function DataOf(id: IspId): IspData
      reads this`ispAData, this`ispBData
    {
      if id == A then ispAData else ispBData
    }

    /** The BGP configuration of one ISP. */
    function ConfigOf(id: IspId): IspConfig
      reads this`ispAConfig, this`ispBConfig
    {
      if id == A then ispAConfig else ispBConfig
    }

    /** `isBGPReady` (src/App.jsx:496-500). */
    predicate IsBgpReady()
      reads this`ispAConfig, this`ispBConfig, this`peering
    {
      ispAConfig.iBGPStatus == Configured && ispBConfig.iBGPStatus == Configured && peering.status == Configured
    }

    ghost predicate Valid()
      reads this
    {
      IspsValid() && PeeringValid() && ZonesValid() && SelectionValid() && MinZoneCidr <= inputCidr <= MaxZoneCidr
    }

    /** The blocks never change, the AS is the same in data and
        configuration, and the stored class is the class of the stored AS. */
    ghost predicate IspsValid()
      reads this`ispAData, this`ispBData, this`ispAConfig, this`ispBConfig
    {
      && ispAData.block == IspABlock && ispAData.cidr == IspACidr
      && ispBData.block == IspBBlock && ispBData.cidr == IspBCidr
      && ispAData.asNumber == ispAConfig.asNumber && ispBData.asNumber == ispBConfig.asNumber
      && ispAConfig.asType == AsTypeOf(ispAConfig.asNumber)
      && ispBConfig.asType == AsTypeOf(ispBConfig.asNumber)
    }

    /** The link is a /30, and a configured link holds a subnet with two
        hosts lying inside 192.168.0.0/16. */
    ghost predicate PeeringValid()
      reads this`peering
    {
      && peering.cidr == LinkCidr
      && (peering.status == Configured ==> peering.realData.Some? && LinkInsideRange(peering.realData.value))
    }

    /** The zone list keeps its shape, and every online zone carries its
        subnet. */
    ghost predicate ZonesValid()
      reads this`zones
    {
      && |zones| == ZoneCount
      && (forall i :: 0 <= i < |zones| ==> zones[i].ispId == ZoneIsp(i))
      && (forall i :: 0 <= i < |zones| && zones[i].status == Online ==> OnlineZoneHolds(zones[i]))
    }

    ghost predicate SelectionValid()
      reads this`zones, this`selectedZone
    {
      selectedZone.Some? ==> selectedZone.value < |zones|
    }

    /** The initial state (src/App.jsx:451-486), with the zones' random host
        requirements passed in. */
    constructor (hostsRequired: seq<int>)
      requires |hostsRequired| == ZoneCount
      ensures Valid()
      ensures ispAConfig == IspConfig("", Pending, Blank, Num(IspAAs), Private16, DefaultLocalPref)
      ensures ispBConfig == IspConfig("", Pending, Blank, Num(IspBAs), Private16, DefaultLocalPref)
      ensures peering == PeeringConfig("", LinkCidr, Num(IspBAs), Pending, Intro, None)
      ensures zones == seq(ZoneCount, i requires 0 <= i < ZoneCount => FreshZone(i, hostsRequired[i]))
      ensures selectedZone == None && inputIp == "" && inputCidr == 24
    {
      ispAData := IspData(IspABlock, IspACidr, Num(IspAAs));
      ispBData := IspData(IspBBlock, IspBCidr, Num(IspBAs));
      ispAConfig := IspConfig("", Pending, Blank, Num(IspAAs), GetAsType(IspAAs), DefaultLocalPref);
      ispBConfig := IspConfig("", Pending, Blank, Num(IspBAs), GetAsType(IspBAs), DefaultLocalPref);
      peering := PeeringConfig("", LinkCidr, Num(IspBAs), Pending, Intro, None);
      zones := seq(ZoneCount, i requires 0 <= i < ZoneCount => FreshZone(i, hostsRequired[i]));
      selectedZone := None;
      inputIp := "";
      inputCidr := 24;
    }

    /** `handleASNumberChange` (src/App.jsx:547-562): the typed AS replaces the
        ISP's AS in its data and configuration, iBGP goes back to pending,
        and a change of ISP B's AS is copied into the link's remote AS. */
    method ChangeAsNumber(id: IspId, value: string)
      requires Valid()
      modifies this`ispAData, this`ispBData, this`ispAConfig, this`ispBConfig, this`peering
      ensures Valid()
      ensures var newAs := AsFromInput(value);
              && ConfigOf(id) == old(ConfigOf(id)).(asNumber := newAs, asType := AsTypeOf(newAs),
                                                    iBGPStatus := Pending, message := AsChanged)
              && DataOf(id) == old(DataOf(id)).(asNumber := newAs)
              && peering == if id == B then old(peering).(remoteAs := newAs) else old(peering)
      ensures var other := if id == A then B else A;
              ConfigOf(other) == old(ConfigOf(other)) && DataOf(other) == old(DataOf(other))
    {
      var newAs := AsFromInput(value);
      var newAsType := if newAs == Empty then Invalid else GetAsType(newAs.n);
      if id == A {
        ispAConfig := ispAConfig.(asNumber := newAs, asType := newAsType, iBGPStatus := Pending, message := AsChanged);
        ispAData := ispAData.(asNumber := newAs);
      } else {
        ispBConfig := ispBConfig.(asNumber := newAs, asType := newAsType, iBGPStatus := Pending, message := AsChanged);
        ispBData := ispBData.(asNumber := newAs);
        peering := peering.(remoteAs := newAs);
      }
    }

    /** The router ID field (src/App.jsx:852): a new value puts iBGP back to
        pending. */
    method EditRouterId(id: IspId, value: string)
      requires Valid()
      modifies this`ispAConfig, this`ispBConfig
      ensures Valid()
      ensures ConfigOf(id) == old(ConfigOf(id)).(routerId := value, iBGPStatus := Pending, message := EditPending)
      ensures var other := if id == A then B else A;
              ConfigOf(other) == old(ConfigOf(other))
    {
      if id == A {
        ispAConfig := ispAConfig.(routerId := value, iBGPStatus := Pending, message := EditPending);
      } else {
        ispBConfig := ispBConfig.(routerId := value, iBGPStatus := Pending, message := EditPending);
      }
    }

    /** `handleConfigureIBGP` (src/App.jsx:566-585): iBGP is configured when
        the checks pass and in error otherwise; nothing else changes. */
    method ConfigureIbgp(id: IspId)
      requires Valid()
      modifies this`ispAConfig, this`ispBConfig
      ensures Valid()
      ensures var c := old(ConfigOf(id));
              var r := IbgpCheck(c.asNumber, c.asType, c.routerId);
              ConfigOf(id) == c.(iBGPStatus := if r == IbgpOk then Configured else Error,
                                 message := if r == IbgpOk then IbgpUp(c.localPref, old(DataOf(id)).asNumber)
                                            else IbgpRefused(r))
      ensures var other := if id == A then B else A;
              ConfigOf(other) == old(ConfigOf(other))
    {
      var config := ConfigOf(id);
      var r := IbgpCheck(config.asNumber, config.asType, config.routerId);
      var updated := if r == IbgpOk then config.(iBGPStatus := Configured, message := IbgpUp(config.localPref, DataOf(id).asNumber))
                     else config.(iBGPStatus := Error, message := IbgpRefused(r));
      if id == A {
        ispAConfig := updated;
      } else {
        ispBConfig := updated;
      }
    }

    /** The link address field (src/App.jsx:914). */
    method EditPeeringIp(value: string)
      requires Valid()
      modifies this`peering
      ensures Valid()
      ensures peering == old(peering).(ip := value, status := Pending, message := LinkEditPending)
    {
      peering := peering.(ip := value, status := Pending, message := LinkEditPending);
    }

    /** The remote AS field (src/App.jsx:925). */
    method EditPeeringRemoteAs(value: string)
      requires Valid()
      modifies this`peering
      ensures Valid()
      ensures peering == old(peering).(remoteAs := RemoteAsFromInput(value), status := Pending, message := LinkEditPending)
    {
      peering := peering.(remoteAs := RemoteAsFromInput(value), status := Pending, message := LinkEditPending);
    }

    /** `handleConfigureEBGP` (src/App.jsx:596-652): on success the link is
        configured with its /30 as `realData` and the first zone is
        selected; on the first failing check it is in error. */
    method ConfigureEbgp()
      requires Valid()
      modifies this`peering, this`selectedZone
      ensures Valid()
      ensures var p := old(peering);
              var a := old(ispAConfig);
              var b := old(ispBConfig);
              var r := EbgpCheck(a.iBGPStatus, b.iBGPStatus, p.ip, p.cidr, p.remoteAs, a.asNumber, b.asNumber);
              && (r.EbgpOk? ==> && peering == p.(status := Configured, message := Peered(a.asNumber, p.remoteAs),
                                                 realData := Some(r.link))
                                && selectedZone == Some(0))
              && (!r.EbgpOk? ==> peering == p.(status := Error, message := EbgpRefused(r))
                                 && selectedZone == old(selectedZone))
    {
      var r := EbgpCheck(ispAConfig.iBGPStatus, ispBConfig.iBGPStatus, peering.ip, peering.cidr,
                         peering.remoteAs, ispAConfig.asNumber, ispBConfig.asNumber);
      if r.EbgpOk? {
        EbgpLink(ispAConfig.iBGPStatus, ispBConfig.iBGPStatus, peering.ip, peering.cidr,
                 peering.remoteAs, ispAConfig.asNumber, ispBConfig.asNumber);
        LinkUp(r.link);
      } else {
        LinkDown(r);
      }
    }

    /** The success branch of `handleConfigureEBGP` (src/App.jsx:636-651):
        the link is configured with its subnet and the first zone is
        selected. */
    method LinkUp(link: SubnetInfo)
      requires Valid() && LinkInsideRange(link)
      modifies this`peering, this`selectedZone
      ensures Valid()
      ensures peering == old(peering).(status := Configured, message := Peered(ispAConfig.asNumber, old(peering).remoteAs),
                                       realData := Some(link))
      ensures selectedZone == Some(0)
    {
      peering := peering.(status := Configured, message := Peered(ispAConfig.asNumber, peering.remoteAs),
                          realData := Some(link));
      selectedZone := Some(0);
    }

    /** A failing check of `handleConfigureEBGP` (src/App.jsx:600-634): the
        link is in error with the reason, and nothing else changes. */
    method LinkDown(reason: EbgpOutcome)
      requires Valid()
      modifies this`peering
      ensures Valid()
      ensures peering == old(peering).(status := Error, message := EbgpRefused(reason))
    {
      peering := peering.(status := Error, message := EbgpRefused(reason));
    }

    /** Selecting a zone on the map. */
    method SelectZone(index: nat)
      requires Valid() && index < |zones|
      modifies this`selectedZone
      ensures Valid() && selectedZone == Some(index)
    {
      selectedZone := Some(index);
    }

    /** The zone address and prefix inputs (src/App.jsx:1016, 1030); the
        prefix comes from a slider over 8..30. */
    method SetZoneInput(ip: string, cidr: int)
      requires Valid() && MinZoneCidr <= cidr <= MaxZoneCidr
      modifies this`inputIp, this`inputCidr
      ensures Valid() && inputIp == ip && inputCidr == cidr
    {
      inputIp := ip;
      inputCidr := cidr;
    }

    /** `updateZoneStatus` (src/App.jsx:503-516): only the zone at `index`
        changes; it takes the status, message and configuration, and the
        subnet and its host list when one is given; without one it keeps
        its old subnet and its host list becomes empty. */
    method UpdateZoneStatus(index: nat, status: ZoneStatus, message: ZoneNote, config: ZoneConfig, data: Option<SubnetInfo>)
      requires Valid() && index < |zones|
      requires status == Online ==> && data.Some? && config.ispSource == zones[index].ispId
                                    && SubnetInsideIsp(data.value, zones[index].ispId, zones[index].hostsRequired)
      modifies this`zones
      ensures Valid()
      ensures |zones| == |old(zones)|
      ensures forall j :: 0 <= j < |zones| && j != index ==> zones[j] == old(zones)[j]
      ensures var z := old(zones)[index];
              && zones[index].ispId == z.ispId && zones[index].hostsRequired == z.hostsRequired
              && zones[index].status == status && zones[index].message == message && zones[index].config == config
      ensures data.Some? ==> zones[index].realData == Some(RealData(data.value, config.cidr))
                             && zones[index].houseIps == data.value.houseIps
      ensures data.None? ==> zones[index].realData == old(zones)[index].realData && zones[index].houseIps == []
    {
      var z := zones[index];
      var updated := z.(status := status, message := message, config := config,
                        realData := if data.Some? then Some(RealData(data.value, config.cidr)) else z.realData,
                        houseIps := if data.Some? then data.value.houseIps else []);
      zones := zones[index := updated];
    }

    /** `handleConnectZone` (src/App.jsx:656-713): without a selected zone
        nothing happens; otherwise the selected zone goes online with the
        subnet when every check passes, and to error with the first failing
        check otherwise. */
    method ConnectZone()
      requires Valid()
      modifies this`zones
      ensures Valid()
      ensures selectedZone.None? ==> zones == old(zones)
      ensures selectedZone.Some? ==>
                var index := selectedZone.value;
                var z := old(zones)[index];
                var data := old(DataOf(z.ispId));
                var r := ZoneCheck(old(IsBgpReady()), old(inputIp), old(inputCidr), data.block, data.cidr, z.hostsRequired);
                && |zones| == |old(zones)|
                && (forall j :: 0 <= j < |zones| && j != index ==> zones[j] == old(zones)[j])
                && zones[index].ispId == z.ispId && zones[index].hostsRequired == z.hostsRequired
                && zones[index].config == ZoneConfig(inputIp, inputCidr, z.ispId)
                && (zones[index].status == Online <==> r.ZoneAccepted?)
                && (zones[index].status == Online ==> old(IsBgpReady()) && MatchesIpPattern(inputIp))
                && (r.ZoneAccepted? ==> && zones[index].realData == Some(RealData(r.data, inputCidr))
                                        && zones[index].houseIps == r.data.houseIps
                                        && zones[index].message == Connected(z.ispId, data.asNumber,
                                                                             old(ConfigOf(z.ispId)).localPref))
                && (r.ZoneRejected? ==> zones[index].status == Faulted && zones[index].message == Rejected(r.error)
                                        && zones[index].realData == z.realData && zones[index].houseIps == [])
    {
      if selectedZone.None? {
        return;
      }
      var index := selectedZone.value;
      var zone := zones[index];
      var data := DataOf(zone.ispId);
      var newConfig := ZoneConfig(inputIp, inputCidr, zone.ispId);
      var r := ZoneCheck(IsBgpReady(), inputIp, inputCidr, data.block, data.cidr, zone.hostsRequired);
      if r.ZoneRejected? {
        UpdateZoneStatus(index, Faulted, Rejected(r.error), newConfig, None);
      } else {
        var localPref := ConfigOf(zone.ispId).localPref;
        assert data.block == BlockOf(zone.ispId) && data.cidr == BlockCidrOf(zone.ispId);
        AcceptedZoneInsideBlock(IsBgpReady(), inputIp, inputCidr, zone.ispId, zone.hostsRequired);
        UpdateZoneStatus(index, Online, Connected(zone.ispId, data.asNumber, localPref), newConfig, Some(r.data));
      }
    }
  }
}
