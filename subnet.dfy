/**
 * The subnet calculator `calculateSubnet` (src/App.jsx:49-78): from an
 * address text and a prefix length in 1..30 it derives the network and
 * broadcast addresses, the first and last usable host, the usable host
 * count and a preview of at most 256 host addresses.
 */
module Subnet {
  import opened Wrappers
  import opened Bits
  import opened Text
  import opened Address

  /** The record `calculateSubnet` returns. */
  datatype SubnetInfo = SubnetInfo(
    networkAddress: string,
    broadcastAddress: string,
    firstHost: string,
    lastHost: string,
    totalHosts: int,
    networkLong: u32,
    broadcastLong: u32,
    houseIps: seq<string>)

  /** The preview holds at most this many host addresses. */
  const MaxDisplayableHosts: nat := 256

  /** `(ipLong & mask) >>> 0`. */
  function NetworkOf(ipLong: u32, cidr: int): u32 {
    ToUint32(BitAnd(ipLong, Mask(cidr)))
  }

  /** `(networkLong | ~mask) >>> 0`. */
  function BroadcastOf(networkLong: u32, cidr: int): u32 {
    ToUint32(BitOr(networkLong, BitNot(Mask(cidr))))
  }

  /** `(networkLong + 1) >>> 0`, the first usable host. */
  function FirstHostOf(networkLong: u32): u32 {
    ToUint32(networkLong as int + 1)
  }

  /** `(broadcastLong - 1) >>> 0`, the last usable host. */
  function LastHostOf(broadcastLong: u32): u32 {
    ToUint32(broadcastLong as int - 1)
  }

  /** `Math.max(0, usableEnd > usableStart ? usableEnd - usableStart + 1 : 0)`. */
  function UsableCount(usableStart: u32, usableEnd: u32): nat {
    if usableEnd > usableStart then usableEnd - usableStart + 1 else 0
  }

  function Min(a: int, b: int): int {
    if a < b then a else b
  }

  /** The values f(start), f(start + 1), ..., f(start + count - 1), in order. */
  function MapRange<T>(f: int -> T, start: int, count: nat): (list: seq<T>)
    ensures |list| == count
    ensures forall i :: 0 <= i < count ==> list[i] == f(start + i)
  {
    seq(count, i requires 0 <= i < count => f(start + i))
  }

  /** Appending the next value extends a range list by one. */
  lemma MapRangeStep<T>(f: int -> T, start: int, count: nat)
    ensures MapRange(f, start, count) + [f(start + count)] == MapRange(f, start, count + 1)
  {
  }

  /** The record `calculateSubnet` assembles from the two ends of the
      block; `text` renders an address (the simulator passes `LongToIp`),
      so that the layout lemmas below hold whatever the rendering. */
  function SubnetRecord(text: int -> string, networkLong: u32, broadcastLong: u32): SubnetInfo {
    var usableStart := FirstHostOf(networkLong);
    var usableEnd := LastHostOf(broadcastLong);
    var hosts := UsableCount(usableStart, usableEnd);
    SubnetInfo(text(networkLong), text(broadcastLong), text(usableStart), text(usableEnd),
               hosts, networkLong, broadcastLong, MapRange(text, usableStart, Min(hosts, MaxDisplayableHosts)))
  }

  /** The record for an address value that passed the guard. */
  function SubnetOfLong(ipLong: u32, cidr: int): SubnetInfo {
    var networkLong := NetworkOf(ipLong, cidr);
    SubnetRecord(LongToIp, networkLong, BroadcastOf(networkLong, cidr))
  }

  /** `calculateSubnet` as a value: `None` (null) exactly when the address
      does not convert or the prefix is outside 1..30. */
  function SubnetOf(ip: string, cidr: int): (r: Option<SubnetInfo>)
    ensures r.None? <==> IpToLong(ip).None? || cidr < 1 || cidr > 30
    ensures r.Some? ==> r.value == SubnetOfLong(IpToLong(ip).value, cidr)
  {
    var ipLong := IpToLong(ip);
    if ipLong.None? || cidr < 1 || cidr > 30 then None
    else Some(SubnetOfLong(ipLong.value, cidr))
  }

  /** `calculateSubnet`, with the preview built by the source's push loop. */
  method CalculateSubnet(ip: string, cidr: int) returns (r: Option<SubnetInfo>)
    ensures r == SubnetOf(ip, cidr)
  {
    var ipLong := IpToLong(ip);
    if ipLong.None? || cidr < 1 || cidr > 30 {
      return None;
    }
    var info := SubnetFromLong(ipLong.value, cidr);
    r := Some(info);
  }

  /** The part of `calculateSubnet` after the guard. */
  method SubnetFromLong(ipLong: u32, cidr: int) returns (info: SubnetInfo)
    ensures info == SubnetOfLong(ipLong, cidr)
  {
    var networkLong := NetworkOf(ipLong, cidr);
    var broadcastLong := BroadcastOf(networkLong, cidr);
    var usableStart := FirstHostOf(networkLong);
    var usableEnd := LastHostOf(broadcastLong);
    var hosts := UsableCount(usableStart, usableEnd);
    var houseIps := PreviewHosts(usableStart, Min(hosts, MaxDisplayableHosts));
    info := SubnetInfo(LongToIp(networkLong), LongToIp(broadcastLong), LongToIp(usableStart),
                       LongToIp(usableEnd), hosts, networkLong, broadcastLong, houseIps);
  }

  /** The loop of `calculateSubnet` that pushes the preview texts. */
  method PreviewHosts(usableStart: u32, maxDisplayableHosts: nat) returns (houseIps: seq<string>)
    ensures houseIps == MapRange(LongToIp, usableStart, maxDisplayableHosts)
  {
    houseIps := [];
    var i: nat := 0;
    while i < maxDisplayableHosts
      invariant i <= maxDisplayableHosts
      invariant houseIps == MapRange(LongToIp, usableStart, i)
    {
      MapRangeStep(LongToIp, usableStart, i);
      houseIps := houseIps + [LongToIp(usableStart as int + i)];
      i := i + 1;
    }
  }

  // ---------------------------------------------------------------------
  // network and broadcast

  /** The network is the address with its 32 - cidr host bits cleared. */
  lemma NetworkRoundsDown(v: u32, cidr: int)
    requires 1 <= cidr <= 32
    ensures NetworkOf(v, cidr) == v - v % Pow2(32 - cidr)
  {
    AndMask(v, cidr);
    ToUint32Of(BitAnd(v, Mask(cidr)));
  }

  /** The network is a multiple of the block size, in the same block as v,
      and v lies at most size - 1 above it. */
  lemma NetworkAligned(v: u32, cidr: int)
    requires 1 <= cidr <= 32
    ensures var size := Pow2(32 - cidr);
            && NetworkOf(v, cidr) % size == 0
            && NetworkOf(v, cidr) / size == v / size
            && NetworkOf(v, cidr) <= v < NetworkOf(v, cidr) + size
  {
    var size := Pow2(32 - cidr);
    NetworkRoundsDown(v, cidr);
    RoundDown(v, 32 - cidr);
    assert 0 <= v % size < size;
  }

  /** Masking an aligned network again changes nothing. */
  lemma NetworkIdempotent(networkLong: u32, cidr: int)
    requires 1 <= cidr <= 32 && networkLong % Pow2(32 - cidr) == 0
    ensures NetworkOf(networkLong, cidr) == networkLong
  {
    NetworkRoundsDown(networkLong, cidr);
  }

  /** OR-ing k low bits into a multiple of 2^k adds them. */
  lemma OrAligned(x: u32, k: nat, low: nat)
    requires k <= 32 && x % Pow2(k) == 0 && low < Pow2(k)
    ensures BitOr(x, low) == x + low
  {
    var size := Pow2(k);
    var q := x / size;
    DivNoLarger(x, size);
    MultipleOf(x, size);
    assert q < Pow2(32 - k) by {
      Pow2Split(k);
      DivBelow(x, size, Pow2(32 - k));
    }
    OrShifted(q, low, k);
  }

  /** The broadcast address of an aligned network sets all host bits. */
  lemma BroadcastFillsHostBits(networkLong: u32, cidr: int)
    requires 1 <= cidr <= 32 && networkLong % Pow2(32 - cidr) == 0
    ensures BroadcastOf(networkLong, cidr) == networkLong + Pow2(32 - cidr) - 1
  {
    MaskOfPrefix(cidr);
    OrAligned(networkLong, 32 - cidr, Pow2(32 - cidr) - 1);
    ToUint32Of(BitOr(networkLong, BitNot(Mask(cidr))));
  }

  /** For prefixes 1..30 a block holds at least four addresses. */
  lemma BlockAtLeastFour(cidr: int)
    requires 1 <= cidr <= 30
    ensures Pow2(32 - cidr) >= 4
  {
    Pow2Monotone(2, 32 - cidr);
    assert Pow2(2) == 4;
  }

  /** The host range of a block of at least four addresses: the first and
      last usable hosts sit just inside network and broadcast, and there
      are size - 2 of them. */
  lemma UsableRange(networkLong: u32, broadcastLong: u32, size: int)
    requires size >= 4 && broadcastLong == networkLong + size - 1
    ensures FirstHostOf(networkLong) == networkLong + 1
    ensures LastHostOf(broadcastLong) == broadcastLong - 1 == networkLong + size - 2
    ensures UsableCount(FirstHostOf(networkLong), LastHostOf(broadcastLong)) == size - 2
  {
    ToUint32Of(networkLong + 1);
    ToUint32Of(broadcastLong - 1);
  }

  // ---------------------------------------------------------------------
  // the record of a block

  /** The record of a block of size >= 4 with the given ends: the usable
      hosts are the size - 2 addresses strictly between the ends, and the
      preview lists the first min(size - 2, 256) of them in order. */
  lemma RecordLayout(text: int -> string, n: u32, b: u32, size: int)
    requires size >= 4 && b == n + size - 1
    ensures var s := SubnetRecord(text, n, b);
            && s.networkLong == n && s.broadcastLong == b
            && s.networkAddress == text(n) && s.broadcastAddress == text(b)
            && s.totalHosts == size - 2
            && s.firstHost == text(n + 1) && s.lastHost == text(b - 1)
            && |s.houseIps| == Min(size - 2, MaxDisplayableHosts)
            && forall i :: 0 <= i < |s.houseIps| ==> s.houseIps[i] == text(n + 1 + i)
  {
    UsableRange(n, b, size);
  }

  /** The ends of the block an address falls in: the network is the
      address rounded down to a multiple of 2^(32 - cidr), and the
      broadcast lies size - 1 above it. */
  lemma BlockOfAddress(v: u32, cidr: int)
    requires 1 <= cidr <= 30
    ensures var size := Pow2(32 - cidr);
            var n := NetworkOf(v, cidr);
            && n == v - v % size && n % size == 0
            && n <= v < n + size
            && BroadcastOf(n, cidr) == n + size - 1
  {
    NetworkRoundsDown(v, cidr);
    NetworkAligned(v, cidr);
    BroadcastFillsHostBits(NetworkOf(v, cidr), cidr);
  }

  /** The layout for an address text: network and broadcast bound the
      address, the block has 2^(32 - cidr) addresses, and `isIpInSubnet`
      holds between the address and the network. */
  lemma SubnetOfLayout(ip: string, cidr: int)
    requires IpToLong(ip).Some? && 1 <= cidr <= 30
    ensures var s := SubnetOf(ip, cidr).value;
            var v := IpToLong(ip).value;
            var size := Pow2(32 - cidr);
            && s.networkLong <= v <= s.broadcastLong
            && s.broadcastLong - s.networkLong == size - 1
            && s.totalHosts == size - 2 >= 2
            && IsIpInSubnet(v, s.networkLong, cidr)
  {
    var v := IpToLong(ip).value;
    var size := Pow2(32 - cidr);
    var n := NetworkOf(v, cidr);
    BlockOfAddress(v, cidr);
    BlockAtLeastFour(cidr);
    RecordLayout(LongToIp, n, BroadcastOf(n, cidr), size);
    InSubnetIff(v, n, cidr);
    QuotientIsRange(v, n, size);
  }

  /** The preview of the record for an address text holds
      min(totalHosts, 256) entries. */
  lemma PreviewLength(ip: string, cidr: int)
    requires IpToLong(ip).Some? && 1 <= cidr <= 30
    ensures var s := SubnetOf(ip, cidr).value;
            |s.houseIps| == Min(s.totalHosts, MaxDisplayableHosts)
  {
    var v := IpToLong(ip).value;
    var n := NetworkOf(v, cidr);
    BlockOfAddress(v, cidr);
    BlockAtLeastFour(cidr);
    RecordLayout(LongToIp, n, BroadcastOf(n, cidr), Pow2(32 - cidr));
  }

  /** The first usable host of the record reads back as network + 1. */
  lemma FirstHostReadsBack(ip: string, cidr: int)
    requires IpToLong(ip).Some? && 1 <= cidr <= 30
    ensures var s := SubnetOf(ip, cidr).value;
            IpToLong(s.firstHost) == Some(s.networkLong + 1)
  {
    var v := IpToLong(ip).value;
    var n := NetworkOf(v, cidr);
    BlockOfAddress(v, cidr);
    BlockAtLeastFour(cidr);
    RecordLayout(LongToIp, n, BroadcastOf(n, cidr), Pow2(32 - cidr));
    LongToIpRoundTrip(n + 1);
  }

  /** The last usable host of the record reads back as broadcast - 1. */
  lemma LastHostReadsBack(ip: string, cidr: int)
    requires IpToLong(ip).Some? && 1 <= cidr <= 30
    ensures var s := SubnetOf(ip, cidr).value;
            IpToLong(s.lastHost) == Some(s.broadcastLong - 1)
  {
    var v := IpToLong(ip).value;
    var n := NetworkOf(v, cidr);
    var b := BroadcastOf(n, cidr);
    BlockOfAddress(v, cidr);
    BlockAtLeastFour(cidr);
    RecordLayout(LongToIp, n, b, Pow2(32 - cidr));
    LongToIpRoundTrip(b - 1);
  }

  /** The network of the record for an address text is a multiple of the
      block size. */
  lemma SubnetOfAligned(ip: string, cidr: int)
    requires IpToLong(ip).Some? && 1 <= cidr <= 30
    ensures SubnetOf(ip, cidr).value.networkLong % Pow2(32 - cidr) == 0
  {
    BlockOfAddress(IpToLong(ip).value, cidr);
  }

  /** A /30 has exactly two usable hosts. */
  lemma Slash30Hosts(ip: string)
    requires IpToLong(ip).Some?
    ensures SubnetOf(ip, 30).value.totalHosts == 2
  {
    SubnetOfLayout(ip, 30);
    assert Pow2(2) == 4;
  }

  /** In a block aligned on size, the values with the network's quotient
      are exactly those from the network up to size - 1 above it. */
  lemma QuotientIsRange(x: nat, network: nat, size: nat)
    requires size >= 1 && network % size == 0
    ensures x / size == network / size <==> network <= x <= network + size - 1
  {
    var q := network / size;
    assert network == q * size;
    if network <= x <= network + size - 1 {
      DivModUnique(x, size, q, x - network);
    }
    if x / size == q {
      assert x == q * size + x % size;
    }
  }

  /** An address belongs to a block (in the sense of `isIpInSubnet`)
      exactly when it lies between the block's network and broadcast. */
  lemma MembershipIsRange(n: u32, x: u32, cidr: int)
    requires 1 <= cidr <= 30 && n % Pow2(32 - cidr) == 0
    ensures IsIpInSubnet(x, n, cidr) <==> n <= x <= n + Pow2(32 - cidr) - 1
  {
    InSubnetIff(x, n, cidr);
    QuotientIsRange(x, n, Pow2(32 - cidr));
  }

  /** Every address in the preview is a host of the block: it reads back
      as a value strictly between network and broadcast. */
  lemma PreviewInsideBlock(ip: string, cidr: int, i: nat)
    requires SubnetOf(ip, cidr).Some? && i < |SubnetOf(ip, cidr).value.houseIps|
    ensures var s := SubnetOf(ip, cidr).value;
            var h := IpToLong(s.houseIps[i]);
            h.Some? && s.networkLong < h.value < s.broadcastLong && IsIpInSubnet(h.value, s.networkLong, cidr)
  {
    var v := IpToLong(ip).value;
    var size := Pow2(32 - cidr);
    var n := NetworkOf(v, cidr);
    BlockOfAddress(v, cidr);
    BlockAtLeastFour(cidr);
    RecordLayout(LongToIp, n, BroadcastOf(n, cidr), size);
    var x := n + 1 + i;
    LongToIpRoundTrip(x);
    MembershipIsRange(n, x, cidr);
  }

  /** Recomputing on the network address with the same prefix gives the
      same record. */
  lemma RecomputeOnNetwork(ip: string, cidr: int)
    requires SubnetOf(ip, cidr).Some?
    ensures SubnetOf(SubnetOf(ip, cidr).value.networkAddress, cidr) == SubnetOf(ip, cidr)
  {
    var v := IpToLong(ip).value;
    var network := NetworkOf(v, cidr);
    NetworkAligned(v, cidr);
    NetworkIdempotent(network, cidr);
    LongToIpRoundTrip(network);
  }
}
