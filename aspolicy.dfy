/**
 * AS numbers: the range classifier `getAsType` (src/App.jsx:16-22) and the
 * AS input field, which holds either a number or the empty string.  The
 * private range 64512-65534 is the one RFC 6996, section 5, reserves for
 * private use; 0 and 65535 are reserved numbers.
 */
module AsPolicy {
  import opened Wrappers
  import opened Text

  datatype AsType = Public16 | Private16 | Reserved | FourByte | Invalid

  /** `getAsType`: the first matching range wins. */
  function GetAsType(asNumber: int): AsType {
    if 1 <= asNumber <= 64511 then Public16
    else if 64512 <= asNumber <= 65534 then Private16
    else if asNumber == 0 || asNumber == 65535 then Reserved
    else if asNumber >= 65536 then FourByte
    else Invalid
  }

  /** Every number falls in exactly one class, and each class is the range
      it names; the 4-byte class has no upper bound. */
  lemma AsTypeRanges(n: int)
    ensures GetAsType(n) == Public16 <==> 1 <= n <= 64511
    ensures GetAsType(n) == Private16 <==> 64512 <= n <= 65534
    ensures GetAsType(n) == Reserved <==> n == 0 || n == 65535
    ensures GetAsType(n) == FourByte <==> n >= 65536
    ensures GetAsType(n) == Invalid <==> n < 0
  {
  }

  /** The 16-bit classes cover exactly the numbers that fit in two bytes. */
  lemma SixteenBitClasses(n: int)
    ensures GetAsType(n) in {Public16, Private16, Reserved} <==> 0 <= n < 0x1_0000
  {
  }

  /** The AS field of a configuration: a number, or '' after bad input. */
  datatype AsField = Empty | Num(n: int)

  /** The class the configuration stores next to its AS field ('' is Invalid). */
  function AsTypeOf(a: AsField): AsType {
    match a
    case Empty => Invalid
    case Num(n) => GetAsType(n)
  }

  /** The AS value `handleASNumberChange` derives from the typed text
      (src/App.jsx:548-549): base-10 `parseInt`, and '' for `NaN` or a
      number below 1. */
  function AsFromInput(value: string): (a: AsField)
    ensures a.Num? ==> a.n >= 1 && ParseInt(value) == Some(a.n)
    ensures a.Empty? <==> ParseInt(value).None? || ParseInt(value).value < 1
  {
    var num := ParseInt(value);
    if num.None? || num.value < 1 then Empty else Num(num.value)
  }

  /** A positive number typed in decimal is stored as that number, and
      never lands in the Invalid class or on the reserved 0. */
  lemma AsFromDecimal(n: nat)
    requires n >= 1
    ensures AsFromInput(Decimal(n)) == Num(n)
    ensures AsTypeOf(AsFromInput(Decimal(n))) != Invalid
  {
    ParseIntDecimal(n);
  }

  /** Input-derived AS values are classified Invalid exactly when empty. */
  lemma InputAsType(value: string)
    ensures AsTypeOf(AsFromInput(value)) == Invalid <==> AsFromInput(value).Empty?
  {
  }
}
