/**
 * IPv4 address arithmetic of the simulator (src/App.jsx, lines 26-101):
 * dotted-quad text to and from an unsigned 32-bit value, prefix masks,
 * prefix containment, the dotted-quad pattern the validators test, and
 * the binary renderings.  CIDR prefix masks are those of RFC 4632,
 * section 3.1.
 *
 * JavaScript bit operators work on 32-bit two's-complement integers; a
 * 32-bit result is represented here by its bit pattern read as unsigned
 * (equal patterns are equal int32 values, and `>>> 0` reads a pattern as
 * unsigned), so every operator below returns a u32.
 */
module Address {
  import opened Wrappers
  import opened Bits
  import opened Text

  // ---------------------------------------------------------------------
  // JavaScript 32-bit operators

  /** ToUint32: the value modulo 2^32 (Dafny's % never returns a negative). */
  function ToUint32(n: int): u32 {
    n % Modulus32
  }

  /** `a << s`; the shift count is taken modulo 32. */
  function ShiftLeft(a: int, s: int): u32 {
    (ToUint32(a) * Pow2(s % 32)) % Modulus32
  }

  /** `a >>> s`; the shift count is taken modulo 32. */
  function ShiftRightUnsigned(a: int, s: int): u32 {
    DivNoLarger(ToUint32(a), Pow2(s % 32));
    ToUint32(a) / Pow2(s % 32)
  }

  /** `a & b`. */
  function BitAnd(a: int, b: int): u32 {
    Pow2Word();
    And(ToUint32(a), ToUint32(b), 32)
  }

  /** `a | b`. */
  function BitOr(a: int, b: int): u32 {
    Pow2Word();
    Or(ToUint32(a), ToUint32(b), 32)
  }

  /** `~a`. */
  function BitNot(a: int): u32 {
    Modulus32 - 1 - ToUint32(a)
  }

  lemma DivNoLarger(x: nat, d: nat)
    requires d >= 1
    ensures 0 <= x / d <= x
  {
    if d > 1 && x > 0 {
      assert x / d * d <= x;
      MulAtLeast(d, x / d + 1);
    }
  }

  lemma ToUint32Of(v: u32)
    ensures ToUint32(v) == v
  {
  }

  lemma ShiftRightOf(v: u32, s: nat)
    requires s < 32
    ensures ShiftRightUnsigned(v, s) == v / Pow2(s)
  {
    ToUint32Of(v);
    assert s % 32 == s;
  }

  lemma ShiftLeftOf(a: nat, s: nat)
    requires s < 32 && a * Pow2(s) < Modulus32
    ensures ShiftLeft(a, s) == a * Pow2(s)
  {
    assert a < Modulus32 by {
      if a > 0 {
        MulAtLeast(a, Pow2(s));
      }
    }
    ToUint32Of(a);
    assert s % 32 == s;
    ToUint32Of(a * Pow2(s));
  }

  lemma BitAndOf(a: u32, b: u32)
    ensures BitAnd(a, b) == And(a, b, 32)
  {
    ToUint32Of(a);
    ToUint32Of(b);
  }

  lemma BitOrOf(a: u32, b: u32)
    ensures BitOr(a, b) == Or(a, b, 32)
  {
    ToUint32Of(a);
    ToUint32Of(b);
  }

  /** A parse result used as an operand of a bit operator: `NaN` and `null` become 0. */
  function Operand(x: Option<int>): int {
    match x
    case None => 0
    case Some(n) => n
  }

  // ---------------------------------------------------------------------
  // ipToLong, longToIp

  /** `ipToLong` (src/App.jsx:26-33): `None` (null) unless the text splits on
      '.' into exactly four parts that each parse as a number; each part's
      base-10 value is shifted into its byte and the four are OR-ed.  Parts
      above 255 or below 0 are not rejected: they wrap and spill into the
      neighbouring bytes exactly as the 32-bit operators do. */
  function IpToLong(ip: string): Option<u32> {
    var parts := Split(ip, '.');
    if |parts| != 4 || exists i :: 0 <= i < 4 && !ParsesAsNumber(parts[i]) then None
    else
      var p0, p1, p2, p3 := Operand(ParseInt(parts[0])), Operand(ParseInt(parts[1])),
                            Operand(ParseInt(parts[2])), Operand(ParseInt(parts[3]));
      Some(ToUint32(BitOr(BitOr(BitOr(ShiftLeft(p0, 24), ShiftLeft(p1, 16)), ShiftLeft(p2, 8)), p3)))
  }

  /** `longToIp` (src/App.jsx:35-42): the four bytes, most significant first,
      in decimal, joined by '.'. */
  function LongToIp(long: int): string {
    Join([Decimal(BitAnd(ShiftRightUnsigned(long, 24), 0xFF)),
          Decimal(BitAnd(ShiftRightUnsigned(long, 16), 0xFF)),
          Decimal(BitAnd(ShiftRightUnsigned(long, 8), 0xFF)),
          Decimal(BitAnd(long, 0xFF))], '.')
  }

  /** The i-th byte of v, most significant first. */
  function OctetOf(v: u32, i: nat): nat
    requires i < 4
  {
    if i == 0 then v / 0x100_0000
    else if i == 1 then v / 0x1_0000 % 256
    else if i == 2 then v / 256 % 256
    else v % 256
  }

  /** The text `longToIp` produces: the decimal bytes joined by '.'. */
  function DottedQuad(v: u32): string {
    Join([Decimal(OctetOf(v, 0)), Decimal(OctetOf(v, 1)), Decimal(OctetOf(v, 2)), Decimal(OctetOf(v, 3))], '.')
  }

  lemma AndByte(x: nat)
    ensures BitAnd(x, 0xFF) == ToUint32(x) % 256
  {
    var y := ToUint32(x);
    assert BitAnd(x, 0xFF) == And(y, 255, 32);
    assert And(y, 255, 32) == y % 256 by {
      Pow2Values();
      AndLowOnes(y, 8, 32);
    }
  }

  lemma ByteOfUint32(x: nat)
    ensures ToUint32(x) % 256 == x % 256
  {
  }

  lemma LowByte(x: nat)
    ensures BitAnd(x, 0xFF) == x % 256
  {
    AndByte(x);
    ByteOfUint32(x);
  }

  lemma ByteAt(v: u32, s: nat)
    requires s < 32
    ensures BitAnd(ShiftRightUnsigned(v, s), 0xFF) == v / Pow2(s) % 256
  {
    var x := ShiftRightUnsigned(v, s);
    assert x == v / Pow2(s) by {
      ShiftRightOf(v, s);
    }
    LowByte(x);
  }

  lemma Octet0(v: u32)
    ensures BitAnd(ShiftRightUnsigned(v, 24), 0xFF) == OctetOf(v, 0)
  {
    ByteAt(v, 24);
    Pow2Values();
    var x := v / 0x100_0000;
    assert x < 256 by {
      DivBelow(v, 0x100_0000, 256);
    }
    ModSmall(x, 256);
  }

  lemma Octet1(v: u32)
    ensures BitAnd(ShiftRightUnsigned(v, 16), 0xFF) == OctetOf(v, 1)
  {
    ByteAt(v, 16);
    Pow2Values();
  }

  lemma Octet2(v: u32)
    ensures BitAnd(ShiftRightUnsigned(v, 8), 0xFF) == OctetOf(v, 2)
  {
    ByteAt(v, 8);
    Pow2Values();
  }

  /** `longToIp` renders the four bytes of a 32-bit value. */
  lemma LongToIpBytes(v: u32)
    ensures LongToIp(v) == DottedQuad(v)
  {
    Octet0(v);
    Octet1(v);
    Octet2(v);
    LowByte(v);
  }

  /** A value below 2^(32-k), shifted left by k, leaves room for k low bits. */
  lemma ShiftedBelow(h: nat, k: nat)
    requires k <= 32 && h < Pow2(32 - k)
    ensures h * Pow2(k) + Pow2(k) <= Modulus32
  {
    var p, q := Pow2(k), Pow2(32 - k);
    Pow2Split(k);
    MulLeq(h + 1, q, p);
    assert (h + 1) * p == h * p + p;
  }

  lemma Pow2Split(k: nat)
    requires k <= 32
    ensures Pow2(32 - k) * Pow2(k) == Modulus32
  {
    Pow2Add(32 - k, k);
    assert 32 - k + k == 32;
    Pow2Values();
  }

  lemma MulLeq(a: nat, b: nat, c: nat)
    requires a <= b
    ensures a * c <= b * c
  {
  }

  /** `h << k` for a value that fits. */
  lemma ShiftLeftFits(h: nat, k: nat)
    requires k < 32 && h < Pow2(32 - k)
    ensures ShiftLeft(h, k) == h * Pow2(k)
  {
    ShiftedBelow(h, k);
    ShiftLeftOf(h, k);
  }

  /** OR-ing bits below 2^k into a value shifted left by k adds them. */
  lemma OrShifted(h: nat, low: nat, k: nat)
    requires k <= 32 && h < Pow2(32 - k) && low < Pow2(k)
    ensures BitOr(h * Pow2(k), low) == h * Pow2(k) + low
  {
    ShiftedBelow(h, k);
    Pow2Values();
    BitOrOf(h * Pow2(k), low);
    AndShiftedDisjoint(h, low, k, 32);
    OrDisjoint(h * Pow2(k), low, 32);
  }

  lemma ShiftBytes(o0: nat, o1: nat, o2: nat)
    requires o0 < 256 && o1 < 256 && o2 < 256
    ensures ShiftLeft(o0, 24) == o0 * 0x100_0000
    ensures ShiftLeft(o1, 16) == o1 * 0x1_0000
    ensures ShiftLeft(o2, 8) == o2 * 256
  {
    Pow2Values();
    ShiftLeftFits(o0, 24);
    ShiftLeftFits(o1, 16);
    ShiftLeftFits(o2, 8);
  }

  lemma OrAt24(o0: nat, y: nat)
    requires o0 < 256 && y < 0x100_0000
    ensures BitOr(o0 * 0x100_0000, y) == o0 * 0x100_0000 + y
  {
    Pow2Values();
    OrShifted(o0, y, 24);
  }

  lemma OrAt16(h: nat, y: nat)
    requires h < 0x1_0000 && y < 0x1_0000
    ensures BitOr(h * 0x1_0000, y) == h * 0x1_0000 + y
  {
    Pow2Values();
    OrShifted(h, y, 16);
  }

  lemma OrAt8(h: nat, y: nat)
    requires h < 0x100_0000 && y < 256
    ensures BitOr(h * 256, y) == h * 256 + y
  {
    Pow2Values();
    OrShifted(h, y, 8);
  }

  /** Four bytes shifted into place and OR-ed make the base-256 number they spell. */
  lemma CombineBytes(o0: nat, o1: nat, o2: nat, o3: nat)
    requires o0 < 256 && o1 < 256 && o2 < 256 && o3 < 256
    ensures BitOr(BitOr(BitOr(ShiftLeft(o0, 24), ShiftLeft(o1, 16)), ShiftLeft(o2, 8)), o3)
            == o0 * 0x100_0000 + o1 * 0x1_0000 + o2 * 256 + o3
  {
    ShiftBytes(o0, o1, o2);
    var h1 := o0 * 256 + o1;
    var h2 := h1 * 256 + o2;
    var x1 := BitOr(ShiftLeft(o0, 24), ShiftLeft(o1, 16));
    assert x1 == h1 * 0x1_0000 by {
      OrAt24(o0, o1 * 0x1_0000);
    }
    var x2 := BitOr(x1, ShiftLeft(o2, 8));
    assert x2 == h2 * 256 by {
      OrAt16(h1, o2 * 256);
    }
    assert BitOr(x2, o3) == h2 * 256 + o3 by {
      OrAt8(h2, o3);
    }
  }

  /** The text of four byte values splits back into their decimal texts,
      each of which parses as its value. */
  lemma QuadParts(o0: nat, o1: nat, o2: nat, o3: nat)
    requires o0 < 256 && o1 < 256 && o2 < 256 && o3 < 256
    ensures Split(Join([Decimal(o0), Decimal(o1), Decimal(o2), Decimal(o3)], '.'), '.')
            == [Decimal(o0), Decimal(o1), Decimal(o2), Decimal(o3)]
  {
    DecimalNoDot(o0);
    DecimalNoDot(o1);
    DecimalNoDot(o2);
    DecimalNoDot(o3);
    QuadSplit(Decimal(o0), Decimal(o1), Decimal(o2), Decimal(o3));
  }

  lemma QuadSplit(a: string, b: string, c: string, d: string)
    requires '.' !in a && '.' !in b && '.' !in c && '.' !in d
    ensures Split(Join([a, b, c, d], '.'), '.') == [a, b, c, d]
  {
    var parts := [a, b, c, d];
    assert NoSeparator(parts, '.');
    SplitJoin(parts, '.');
  }

  lemma DecimalNoDot(n: nat)
    ensures '.' !in Decimal(n)
  {
    DecimalRoundTrip(n);
    var d := Decimal(n);
    assert forall j :: 0 <= j < |d| ==> d[j] != '.';
  }

  /** Four '.'-free parts that parse as four bytes make the base-256 number they spell. */
  lemma IpToLongOfParts(a: string, b: string, c: string, d: string, o0: nat, o1: nat, o2: nat, o3: nat, n: int)
    requires o0 < 256 && o1 < 256 && o2 < 256 && o3 < 256
    requires n == o0 * 0x100_0000 + o1 * 0x1_0000 + o2 * 256 + o3
    requires Split(Join([a, b, c, d], '.'), '.') == [a, b, c, d]
    requires ParsesAsNumber(a) && ParsesAsNumber(b) && ParsesAsNumber(c) && ParsesAsNumber(d)
    requires ParseInt(a) == Some(o0) && ParseInt(b) == Some(o1) && ParseInt(c) == Some(o2) && ParseInt(d) == Some(o3)
    ensures IpToLong(Join([a, b, c, d], '.')) == Some(n)
  {
    var parts := [a, b, c, d];
    assert forall i :: 0 <= i < 4 ==> ParsesAsNumber(parts[i]);
    assert BitOr(BitOr(BitOr(ShiftLeft(o0, 24), ShiftLeft(o1, 16)), ShiftLeft(o2, 8)), o3) == n by {
      CombineBytes(o0, o1, o2, o3);
    }
    ToUint32Of(n);
  }

  /** A dotted quad of four byte values is read back as exactly their number. */
  lemma IpToLongOfBytes(o0: nat, o1: nat, o2: nat, o3: nat, n: int)
    requires o0 < 256 && o1 < 256 && o2 < 256 && o3 < 256
    requires n == o0 * 0x100_0000 + o1 * 0x1_0000 + o2 * 256 + o3
    ensures IpToLong(Join([Decimal(o0), Decimal(o1), Decimal(o2), Decimal(o3)], '.')) == Some(n)
  {
    QuadParts(o0, o1, o2, o3);
    ParseIntDecimal(o0);
    ParseIntDecimal(o1);
    ParseIntDecimal(o2);
    ParseIntDecimal(o3);
    IpToLongOfParts(Decimal(o0), Decimal(o1), Decimal(o2), Decimal(o3), o0, o1, o2, o3, n);
  }

  /** `ipToLong` fails unless the text has exactly four '.'-separated
      parts; a result means every part has a base-10 value. */
  lemma IpToLongFailures(ip: string)
    ensures IpToLong(ip).Some? <==>
              |Split(ip, '.')| == 4 && forall i :: 0 <= i < 4 ==> ParsesAsNumber(Split(ip, '.')[i])
    ensures IpToLong(ip).Some? ==> forall i :: 0 <= i < 4 ==> ParseInt(Split(ip, '.')[i]).Some?
  {
    if IpToLong(ip).Some? {
      var parts := Split(ip, '.');
      forall i | 0 <= i < 4 ensures ParseInt(parts[i]).Some? {
        ParsesAsNumberBase10(parts[i]);
      }
    }
  }

  /** Four '.'-free parts with base-10 values p0..p3 combine as the
      shifts and ORs of `ipToLong`. */
  lemma IpToLongOfValues(a: string, b: string, c: string, d: string, p0: int, p1: int, p2: int, p3: int)
    requires Split(Join([a, b, c, d], '.'), '.') == [a, b, c, d]
    requires ParsesAsNumber(a) && ParsesAsNumber(b) && ParsesAsNumber(c) && ParsesAsNumber(d)
    requires ParseInt(a) == Some(p0) && ParseInt(b) == Some(p1) && ParseInt(c) == Some(p2) && ParseInt(d) == Some(p3)
    ensures IpToLong(Join([a, b, c, d], '.'))
            == Some(ToUint32(BitOr(BitOr(BitOr(ShiftLeft(p0, 24), ShiftLeft(p1, 16)), ShiftLeft(p2, 8)), p3)))
  {
    var parts := [a, b, c, d];
    assert forall i :: 0 <= i < 4 ==> ParsesAsNumber(parts[i]);
  }

  /** A first part above 255 is not rejected: 256 more than a byte reads
      back as the byte alone, because the shift drops the high bits. */
  lemma FirstOctetWraps(o0: nat, o1: nat, o2: nat, o3: nat)
    requires o0 < 256 && o1 < 256 && o2 < 256 && o3 < 256
    ensures IpToLong(Join([Decimal(o0 + 256), Decimal(o1), Decimal(o2), Decimal(o3)], '.'))
            == IpToLong(Join([Decimal(o0), Decimal(o1), Decimal(o2), Decimal(o3)], '.'))
  {
    DecimalNoDot(o0 + 256);
    DecimalNoDot(o1);
    DecimalNoDot(o2);
    DecimalNoDot(o3);
    QuadParts(o0, o1, o2, o3);
    QuadSplit(Decimal(o0 + 256), Decimal(o1), Decimal(o2), Decimal(o3));
    ParseIntDecimal(o0 + 256);
    ParseIntDecimal(o0);
    ParseIntDecimal(o1);
    ParseIntDecimal(o2);
    ParseIntDecimal(o3);
    IpToLongOfValues(Decimal(o0 + 256), Decimal(o1), Decimal(o2), Decimal(o3), o0 + 256, o1, o2, o3);
    IpToLongOfValues(Decimal(o0), Decimal(o1), Decimal(o2), Decimal(o3), o0, o1, o2, o3);
    ShiftDropsHighByte(o0);
  }

  /** Shifting left by 24 keeps only the low byte of the operand. */
  lemma ShiftDropsHighByte(o: nat)
    requires o < 256
    ensures ShiftLeft(o + 256, 24) == ShiftLeft(o, 24)
  {
    Pow2Values();
    ToUint32Of(o + 256);
    ToUint32Of(o);
    assert (o + 256) * 0x100_0000 == o * 0x100_0000 + Modulus32;
    ModSmall(o * 0x100_0000, Modulus32);
  }

  /** The four bytes of a 32-bit value, read as base-256 digits, give the value back. */
  lemma OctetsOf(v: u32)
    ensures forall i :: 0 <= i < 4 ==> OctetOf(v, i) < 256
    ensures OctetOf(v, 0) * 0x100_0000 + OctetOf(v, 1) * 0x1_0000 + OctetOf(v, 2) * 256 + OctetOf(v, 3) == v
  {
    var a, r3 := v / 256, v % 256;
    var b, r2 := a / 256, a % 256;
    var c, r1 := b / 256, b % 256;
    assert v == a * 256 + r3;
    assert a == b * 256 + r2;
    assert b == c * 256 + r1;
    assert v == c * 0x100_0000 + r1 * 0x1_0000 + r2 * 256 + r3;
    DivModUnique(v, 0x100_0000, c, r1 * 0x1_0000 + r2 * 256 + r3);
    DivModUnique(v, 0x1_0000, b, r2 * 256 + r3);
  }

  /** Every 32-bit value survives `longToIp` followed by `ipToLong`. */
  lemma LongToIpRoundTrip(v: u32)
    ensures IpToLong(LongToIp(v)) == Some(v)
  {
    LongToIpBytes(v);
    IpToLongOfQuad(v);
  }

  lemma IpToLongOfQuad(v: u32)
    ensures IpToLong(DottedQuad(v)) == Some(v)
  {
    OctetsOf(v);
    IpToLongOfBytes(OctetOf(v, 0), OctetOf(v, 1), OctetOf(v, 2), OctetOf(v, 3), v);
  }

  /** The text of a 32-bit value has four parts, the decimal texts of its bytes. */
  lemma LongToIpParts(v: u32)
    ensures |Split(LongToIp(v), '.')| == 4
    ensures forall i :: 0 <= i < 4 ==> Split(LongToIp(v), '.')[i] == Decimal(OctetOf(v, i)) && OctetOf(v, i) < 256
  {
    LongToIpBytes(v);
    OctetsOf(v);
    var o0, o1, o2, o3 := OctetOf(v, 0), OctetOf(v, 1), OctetOf(v, 2), OctetOf(v, 3);
    QuadParts(o0, o1, o2, o3);
    var parts := Split(LongToIp(v), '.');
    forall i | 0 <= i < 4
      ensures parts[i] == Decimal(OctetOf(v, i))
    {
    }
  }

  // ---------------------------------------------------------------------
  // the dotted-quad pattern /^(\d{1,3}\.){3}\d{1,3}$/

  /** The validators' pattern: exactly four '.'-separated runs of one to
      three ASCII digits and nothing else. */
  predicate MatchesIpPattern(s: string) {
    var parts := Split(s, '.');
    |parts| == 4 && forall i :: 0 <= i < 4 ==> 1 <= |parts[i]| <= 3 && AllDigits(parts[i])
  }

  /** Text that matches the pattern always has an `ipToLong` value; each part
      is at most 999, so the pattern admits bytes above 255. */
  lemma PatternParses(s: string)
    requires MatchesIpPattern(s)
    ensures IpToLong(s).Some?
    ensures forall i :: 0 <= i < 4 ==> ParseInt(Split(s, '.')[i]) == Some(DigitsValue(Split(s, '.')[i]))
  {
    var parts := Split(s, '.');
    forall i | 0 <= i < 4
      ensures ParsesAsNumber(parts[i]) && ParseInt(parts[i]) == Some(DigitsValue(parts[i]))
    {
      ShortDigitsParse(parts[i]);
    }
  }

  /** `longToIp` always produces text that matches the pattern. */
  lemma LongToIpMatchesPattern(v: u32)
    ensures MatchesIpPattern(LongToIp(v))
  {
    LongToIpParts(v);
    var parts := Split(LongToIp(v), '.');
    forall i | 0 <= i < 4 ensures 1 <= |parts[i]| <= 3 && AllDigits(parts[i]) {
      DecimalRoundTrip(OctetOf(v, i));
    }
  }

  // ---------------------------------------------------------------------
  // masks and containment

  /** `~((1 << (32 - cidr)) - 1)` (src/App.jsx:45, 53).  JavaScript takes the
      shift count modulo 32, so a prefix of 0 yields the all-ones mask. */
  function Mask(cidr: int): u32 {
    BitNot(ShiftLeft(1, 32 - cidr) - 1)
  }

  /** For prefixes 1..32 the mask has the prefix's leading bits set and the
      other 32 - prefix bits clear. */
  lemma MaskOfPrefix(cidr: int)
    requires 1 <= cidr <= 32
    ensures Mask(cidr) == HighOnes(32 - cidr, 32)
    ensures BitNot(Mask(cidr)) == Pow2(32 - cidr) - 1
  {
    var k := 32 - cidr;
    var low := Pow2(k) - 1;
    assert ShiftLeft(1, k) - 1 == low by {
      OneShifted(k);
    }
    assert low < Modulus32 by {
      Pow2Monotone(k, 31);
      Pow2Split(1);
    }
    BitNotOf(low);
    BitNotOf(Modulus32 - 1 - low);
    Pow2Word();
  }

  lemma OneShifted(k: nat)
    requires k < 32
    ensures ShiftLeft(1, k) == Pow2(k)
  {
    Pow2Monotone(1, 32 - k);
    ShiftLeftFits(1, k);
  }

  lemma BitNotOf(x: u32)
    ensures BitNot(x) == Modulus32 - 1 - x
  {
    ToUint32Of(x);
  }

  /** The shift-by-32 edge of the same expression: prefix 0 gives all ones,
      not the empty mask RFC 4632 assigns to /0. */
  lemma MaskOfPrefixZero()
    ensures Mask(0) == Modulus32 - 1
  {
    assert ShiftLeft(1, 32) == 1 by {
      assert 32 % 32 == 0;
      ToUint32Of(1);
    }
    BitNotOf(0);
  }

  /** Applying a 1..32 prefix mask clears the host bits. */
  lemma AndMask(a: u32, cidr: int)
    requires 1 <= cidr <= 32
    ensures BitAnd(a, Mask(cidr)) == a - a % Pow2(32 - cidr)
  {
    MaskOfPrefix(cidr);
    AndHighBits(a, 32 - cidr, Mask(cidr));
  }

  lemma AndHighBits(a: u32, k: nat, m: u32)
    requires k <= 32 && m == HighOnes(k, 32)
    ensures BitAnd(a, m) == a - a % Pow2(k)
  {
    BitAndOf(a, m);
    AndHighOnes(a, k, 32);
    Pow2Word();
    ModSmall(a, Modulus32);
  }

  /** `isIpInSubnet` (src/App.jsx:44-47): the two values agree on the
      masked (network) bits. */
  predicate IsIpInSubnet(ipLong: int, networkLong: int, cidr: int) {
    var mask := Mask(cidr);
    BitAnd(ipLong, mask) == BitAnd(networkLong, mask)
  }

  /** Containment in a 1..32 prefix means equal quotients by the block size. */
  lemma InSubnetIff(ip: u32, network: u32, cidr: int)
    requires 1 <= cidr <= 32
    ensures IsIpInSubnet(ip, network, cidr) <==> ip / Pow2(32 - cidr) == network / Pow2(32 - cidr)
  {
    AndMask(ip, cidr);
    AndMask(network, cidr);
    SameBlock(ip, network, Pow2(32 - cidr));
  }

  /** Two numbers rounded down to a multiple of m agree exactly when their quotients by m do. */
  lemma SameBlock(x: nat, y: nat, m: nat)
    requires m > 0
    ensures x - x % m == y - y % m <==> x / m == y / m
  {
    assert x - x % m == (x / m) * m;
    assert y - y % m == (y / m) * m;
    if (x / m) * m == (y / m) * m {
      DivModUnique((x / m) * m, m, x / m, 0);
      DivModUnique((y / m) * m, m, y / m, 0);
    }
  }

  // ---------------------------------------------------------------------
  // binary renderings

  /** `octetToBinary` (src/App.jsx:83-85): the base-10 parse of the text in
      binary, left-padded with '0' to eight characters (`NaN` gives
      "00000NaN", a negative number keeps its '-'). */
  function OctetToBinary(octet: string): string {
    PadStart(NumberToBinary(ParseInt(octet)), 8, '0')
  }

  /** `ipToBinary` (src/App.jsx:87-91): "Invalid IP" unless there are exactly
      four '.'-separated parts; otherwise each part in binary, joined by '.'. */
  function IpToBinary(ip: string): string {
    var parts := Split(ip, '.');
    if |parts| != 4 then "Invalid IP"
    else Join([OctetToBinary(parts[0]), OctetToBinary(parts[1]),
               OctetToBinary(parts[2]), OctetToBinary(parts[3])], '.')
  }

  /** `cidrToBinaryMask` (src/App.jsx:93-101): `repeat` throws a RangeError
      for a negative count, so prefixes outside 0..32 give `None`. */
  function CidrToBinaryMask(cidr: int): Option<string> {
    if cidr < 0 || 32 - cidr < 0 then None
    else
      var mask := Repeat('1', cidr) + Repeat('0', 32 - cidr);
      Some(Join([mask[0..8], mask[8..16], mask[16..24], mask[24..32]], '.'))
  }

  /** A four-part join written out. */
  lemma Join4(a: string, b: string, c: string, d: string, sep: char)
    ensures Join([a, b, c, d], sep) == a + [sep] + b + [sep] + c + [sep] + d
  {
    assert [a, b, c, d][1..] == [b, c, d];
    assert [b, c, d][1..] == [c, d];
    assert [c, d][1..] == [d];
    assert Join([c, d], sep) == c + [sep] + d;
    assert Join([b, c, d], sep) == b + [sep] + (c + [sep] + d);
    assert Join([a, b, c, d], sep) == a + [sep] + (b + [sep] + (c + [sep] + d));
  }

  /** In four dot-joined groups of eight, bit j sits at position j + j / 8. */
  lemma GroupedBit(m: string, j: nat)
    requires |m| == 32 && j < 32
    ensures var s := Join([m[0..8], m[8..16], m[16..24], m[24..32]], '.');
            |s| == 35 && s[8] == '.' && s[17] == '.' && s[26] == '.' && s[j + j / 8] == m[j]
  {
    var a, b, c, d := m[0..8], m[8..16], m[16..24], m[24..32];
    Join4(a, b, c, d, '.');
    var s := a + "." + b + "." + c + "." + d;
    if j < 8 {
      assert s[j] == a[j];
    } else if j < 16 {
      assert s[j + 1] == b[j - 8];
    } else if j < 24 {
      assert s[j + 2] == c[j - 16];
    } else {
      assert s[j + 3] == d[j - 24];
    }
  }

  /** `cidrToBinaryMask` fails exactly outside 0..32; otherwise it is 35
      characters, dots after every eighth bit, and bit j (0 = most
      significant) is '1' exactly when j is below the prefix length. */
  lemma CidrToBinaryMaskShape(cidr: int)
    ensures CidrToBinaryMask(cidr).None? <==> cidr < 0 || cidr > 32
    ensures CidrToBinaryMask(cidr).Some? ==>
              var s := CidrToBinaryMask(cidr).value;
              |s| == 35 && s[8] == '.' && s[17] == '.' && s[26] == '.' &&
              forall j :: 0 <= j < 32 ==> s[j + j / 8] == if j < cidr then '1' else '0'
  {
    if 0 <= cidr <= 32 {
      var m := Repeat('1', cidr) + Repeat('0', 32 - cidr);
      GroupedBit(m, 0);
      forall j | 0 <= j < 32
        ensures CidrToBinaryMask(cidr).value[j + j / 8] == if j < cidr then '1' else '0'
      {
        GroupedBit(m, j);
      }
    }
  }

  /** An octet text that parses to a byte value renders as eight binary
      digits spelling that value. */
  lemma OctetToBinaryValue(t: string, o: int)
    requires ParseInt(t) == Some(o) && 0 <= o < 256
    ensures |OctetToBinary(t)| == 8 && IsBinaryText(OctetToBinary(t))
    ensures BitsValue(OctetToBinary(t)) == o
  {
    Pow2Values();
    BinaryDigitsRoundTrip(o, 8);
    LeadingZeros(8 - |BinaryDigits(o)|, BinaryDigits(o));
  }

  /** `ipToBinary` answers "Invalid IP" exactly for text that is not four
      '.'-separated parts; four parts give at least 35 characters. */
  lemma IpToBinaryShape(ip: string)
    ensures |Split(ip, '.')| != 4 ==> IpToBinary(ip) == "Invalid IP"
    ensures |Split(ip, '.')| == 4 ==> |IpToBinary(ip)| >= 35
  {
    var parts := Split(ip, '.');
    if |parts| == 4 {
      Join4(OctetToBinary(parts[0]), OctetToBinary(parts[1]), OctetToBinary(parts[2]), OctetToBinary(parts[3]), '.');
    }
  }

  /** The binary rendering of `longToIp(v)` is four groups of eight bits,
      each spelling the corresponding byte of v. */
  lemma IpToBinaryOfLong(v: u32)
    ensures var parts := Split(LongToIp(v), '.');
            |parts| == 4 &&
            IpToBinary(LongToIp(v)) == Join([OctetToBinary(parts[0]), OctetToBinary(parts[1]),
                                             OctetToBinary(parts[2]), OctetToBinary(parts[3])], '.') &&
            forall i :: 0 <= i < 4 ==>
              |OctetToBinary(parts[i])| == 8 && IsBinaryText(OctetToBinary(parts[i])) &&
              BitsValue(OctetToBinary(parts[i])) == OctetOf(v, i)
  {
    LongToIpParts(v);
    var parts := Split(LongToIp(v), '.');
    forall i | 0 <= i < 4
      ensures |OctetToBinary(parts[i])| == 8 && IsBinaryText(OctetToBinary(parts[i]))
      ensures BitsValue(OctetToBinary(parts[i])) == OctetOf(v, i)
    {
      ParseIntDecimal(OctetOf(v, i));
      OctetToBinaryValue(parts[i], OctetOf(v, i));
    }
  }
}
