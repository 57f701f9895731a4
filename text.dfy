/**
 * The JavaScript string and number built-ins the address code relies on:
 * `String.prototype.split` and `Array.prototype.join` on one separator
 * character, `parseInt`, `Number.prototype.toString` in bases 10 and 2,
 * `padStart` and `repeat`.
 */
module Text {
  import opened Wrappers
  import opened Bits

  predicate IsDigit(c: char) {
    '0' <= c <= '9'
  }

  predicate IsHexDigit(c: char) {
    IsDigit(c) || 'a' <= c <= 'f' || 'A' <= c <= 'F'
  }

  predicate AllDigits(s: string) {
    forall i :: 0 <= i < |s| ==> IsDigit(s[i])
  }

  /** The white space and line terminators that `parseInt` skips before a
      number: tab, vertical tab, form feed, U+FEFF, every Unicode space
      separator (category Zs), and LF, CR, U+2028, U+2029. */
  predicate IsJsSpace(c: char) {
    c == '\t' || c == '\U{000B}' || c == '\U{000C}' || c == '\U{FEFF}'
    || c == ' ' || c == '\U{00A0}' || c == '\U{1680}' || '\U{2000}' <= c <= '\U{200A}'
    || c == '\U{202F}' || c == '\U{205F}' || c == '\U{3000}'
    || c == '\n' || c == '\r' || c == '\U{2028}' || c == '\U{2029}'
  }

  function DigitChar(d: nat): (c: char)
    requires d < 10
    ensures IsDigit(c)
  {
    ('0' as int + d) as char
  }

  function DigitValue(c: char): (d: nat)
    requires IsDigit(c)
    ensures d < 10 && DigitChar(d) == c
  {
    c as int - '0' as int
  }

  // ---------------------------------------------------------------------
  // split and join on one separator character

  /** `s.split(sep)`: the maximal separator-free pieces, in order. */
  function Split(s: string, sep: char): (parts: seq<string>)
    ensures |parts| >= 1
  {
    if |s| == 0 then [""]
    else
      var rest := Split(s[1..], sep);
      if s[0] == sep then [""] + rest else [[s[0]] + rest[0]] + rest[1..]
  }

  /** `parts.join(sep)`. */
  function Join(parts: seq<string>, sep: char): string {
    if |parts| == 0 then ""
    else if |parts| == 1 then parts[0]
    else parts[0] + [sep] + Join(parts[1..], sep)
  }

  predicate NoSeparator(parts: seq<string>, sep: char) {
    forall i :: 0 <= i < |parts| ==> sep !in parts[i]
  }

  lemma {:induction false} SplitNoSeparatorPrefix(a: string, t: string, sep: char)
    requires sep !in a
    ensures Split(a + t, sep) == [a + Split(t, sep)[0]] + Split(t, sep)[1..]
  {
    var st := Split(t, sep);
    if |a| > 0 {
      SplitNoSeparatorPrefix(a[1..], t, sep);
      assert (a + t)[0] == a[0] != sep;
      assert (a + t)[1..] == a[1..] + t;
      assert [a[0]] + (a[1..] + st[0]) == a + st[0];
    } else {
      assert a + t == t && a + st[0] == st[0];
    }
  }

  /** Splitting a joined list gives the list back when no piece holds the separator. */
  lemma {:induction false} SplitJoin(parts: seq<string>, sep: char)
    requires |parts| >= 1 && NoSeparator(parts, sep)
    ensures Split(Join(parts, sep), sep) == parts
  {
    if |parts| == 1 {
      SplitNoSeparatorPrefix(parts[0], "", sep);
      assert parts[0] + "" == parts[0];
    } else {
      SplitJoin(parts[1..], sep);
      var rest := Join(parts[1..], sep);
      SplitNoSeparatorPrefix(parts[0], [sep] + rest, sep);
      assert ([sep] + rest)[1..] == rest;
      assert Split([sep] + rest, sep) == [""] + parts[1..];
      assert parts[0] + [sep] + rest == parts[0] + ([sep] + rest);
      assert parts[0] + "" == parts[0];
      assert [parts[0]] + parts[1..] == parts;
    }
  }

  /** Splitting never loses or adds characters: joining the pieces restores the text. */
  lemma {:induction false} JoinSplit(s: string, sep: char)
    ensures NoSeparator(Split(s, sep), sep)
    ensures Join(Split(s, sep), sep) == s
  {
    if |s| > 0 {
      JoinSplit(s[1..], sep);
      var rest := Split(s[1..], sep);
      if s[0] == sep {
        assert Split(s, sep)[1..] == rest;
      } else {
        var parts := Split(s, sep);
        assert parts[1..] == rest[1..];
        assert parts[0] == [s[0]] + rest[0];
        if |rest| == 1 {
          assert Join(parts, sep) == [s[0]] + rest[0];
        } else {
          assert Join(rest, sep) == rest[0] + [sep] + Join(rest[1..], sep);
        }
        assert s == [s[0]] + s[1..];
      }
    }
  }

  // ---------------------------------------------------------------------
  // decimal text

  /** `String(n)` for a non-negative integer: decimal digits, no leading zero. */
  function Decimal(n: nat): string {
    if n < 10 then [DigitChar(n)] else Decimal(n / 10) + [DigitChar(n % 10)]
  }

  /** The value of a string of decimal digits. */
  function DigitsValue(s: string): nat
    requires AllDigits(s)
  {
    if |s| == 0 then 0 else DigitsValue(s[..|s| - 1]) * 10 + DigitValue(s[|s| - 1])
  }

  /** Decimal text reads back as the number it renders, with at most three
      digits below 1000. */
  lemma {:induction false} DecimalRoundTrip(n: nat)
    ensures AllDigits(Decimal(n)) && |Decimal(n)| >= 1
    ensures DigitsValue(Decimal(n)) == n
    ensures n < 10 ==> |Decimal(n)| == 1
    ensures n < 100 ==> |Decimal(n)| <= 2
    ensures n < 1000 ==> |Decimal(n)| <= 3
  {
    if n >= 10 {
      DecimalRoundTrip(n / 10);
      var d := Decimal(n);
      assert d[..|d| - 1] == Decimal(n / 10);
    }
  }

  // ---------------------------------------------------------------------
  // parseInt

  function TrimStart(s: string): string {
    if |s| > 0 && IsJsSpace(s[0]) then TrimStart(s[1..]) else s
  }

  /** The text after an optional leading sign. */
  function Unsigned(t: string): string {
    if |t| > 0 && (t[0] == '+' || t[0] == '-') then t[1..] else t
  }

  /** The longest prefix made of decimal digits. */
  function DigitPrefix(s: string): (d: string)
    ensures AllDigits(d) && |d| <= |s|
  {
    if |s| > 0 && IsDigit(s[0]) then [s[0]] + DigitPrefix(s[1..]) else ""
  }

  /** `parseInt(s, 10)`: skips leading whitespace, reads an optional sign and
      the longest run of decimal digits, ignores the rest; `None` is `NaN`. */
  function ParseInt(s: string): Option<int> {
    var t := TrimStart(s);
    var digits := DigitPrefix(Unsigned(t));
    var magnitude: int := if |digits| == 0 then 0 else DigitsValue(digits);
    if |digits| == 0 then None
    else if t[0] == '-' then Some(-magnitude)
    else Some(magnitude)
  }

  /** A `0x` or `0X` prefix, which selects base 16 when no radix is given. */
  predicate HasHexPrefix(u: string) {
    |u| >= 2 && u[0] == '0' && (u[1] == 'x' || u[1] == 'X')
  }

  /** `!isNaN(parseInt(s))` with the radix left out: after a `0x` or `0X`
      prefix one hexadecimal digit is needed, otherwise one decimal digit. */
  predicate ParsesAsNumber(s: string) {
    var u := Unsigned(TrimStart(s));
    if HasHexPrefix(u) then |u| > 2 && IsHexDigit(u[2])
    else |u| > 0 && IsDigit(u[0])
  }

  predicate AllHexDigits(s: string) {
    forall i :: 0 <= i < |s| ==> IsHexDigit(s[i])
  }

  function HexDigitValue(c: char): (d: nat)
    requires IsHexDigit(c)
    ensures d < 16
  {
    if IsDigit(c) then DigitValue(c)
    else if 'a' <= c <= 'f' then c as int - 'a' as int + 10
    else c as int - 'A' as int + 10
  }

  /** The longest prefix made of hexadecimal digits. */
  function HexDigitPrefix(s: string): (h: string)
    ensures AllHexDigits(h) && |h| <= |s|
  {
    if |s| > 0 && IsHexDigit(s[0]) then [s[0]] + HexDigitPrefix(s[1..]) else ""
  }

  /** The value of a string of hexadecimal digits. */
  function HexValue(s: string): nat
    requires AllHexDigits(s)
  {
    if |s| == 0 then 0 else HexValue(s[..|s| - 1]) * 16 + HexDigitValue(s[|s| - 1])
  }

  /** `parseInt(s)` with the radix left out: as `parseInt(s, 10)`, except
      that after the sign a `0x` or `0X` prefix reads the longest run of
      hexadecimal digits that follows.  It is a number exactly when the
      radix-less NaN test passes. */
  function ParseIntAnyRadix(s: string): (r: Option<int>)
    ensures r.Some? <==> ParsesAsNumber(s)
  {
    var t := TrimStart(s);
    var u := Unsigned(t);
    if HasHexPrefix(u) then
      var h := HexDigitPrefix(u[2..]);
      var magnitude: int := if |h| == 0 then 0 else HexValue(h);
      if |h| == 0 then None
      else if t[0] == '-' then Some(-magnitude)
      else Some(magnitude)
    else ParseInt(s)
  }

  lemma {:induction false} DigitPrefixAll(s: string)
    requires AllDigits(s)
    ensures DigitPrefix(s) == s
  {
    if |s| > 0 {
      DigitPrefixAll(s[1..]);
    }
  }

  /** Every number's decimal text parses back to that number. */
  lemma ParseIntDecimal(n: nat)
    ensures ParseInt(Decimal(n)) == Some(n)
    ensures ParsesAsNumber(Decimal(n))
  {
    DecimalRoundTrip(n);
    ParseDigits(Decimal(n));
  }

  /** A non-empty run of digits parses as its value. */
  lemma ParseDigits(s: string)
    requires |s| >= 1 && AllDigits(s)
    ensures ParseInt(s) == Some(DigitsValue(s)) && ParsesAsNumber(s)
  {
    DigitPrefixAll(s);
    assert !IsJsSpace(s[0]) && s[0] != '+' && s[0] != '-';
    assert TrimStart(s) == s;
    assert Unsigned(s) == s;
  }

  /** A text that parses without a radix also parses in base 10. */
  lemma ParsesAsNumberBase10(s: string)
    requires ParsesAsNumber(s)
    ensures ParseInt(s).Some?
  {
  }

  lemma {:induction false} HexDigitPrefixAll(s: string)
    requires AllHexDigits(s)
    ensures HexDigitPrefix(s) == s
  {
    if |s| > 0 {
      HexDigitPrefixAll(s[1..]);
    }
  }

  /** "0x" followed by hexadecimal digits reads in base 16 without a radix,
      but as 0 in base 10, which stops at the 'x'. */
  lemma HexTextParses(h: string)
    requires |h| >= 1 && AllHexDigits(h)
    ensures ParseIntAnyRadix("0x" + h) == Some(HexValue(h))
    ensures ParseInt("0x" + h) == Some(0)
  {
    var s := "0x" + h;
    HexTextUnsigned(s);
    assert s[2..] == h;
    HexDigitPrefixAll(h);
    HexTextBase10(s);
  }

  /** Base 10 reads "0x..." as 0. */
  lemma HexTextBase10(s: string)
    requires |s| >= 2 && s[0] == '0' && s[1] == 'x'
    ensures ParseInt(s) == Some(0)
  {
    HexTextUnsigned(s);
    assert DigitPrefix(s[1..]) == "" by {
      assert s[1..][0] == 'x';
    }
    assert DigitPrefix(s) == "0";
    assert DigitsValue("0") == 0 by {
      assert "0"[..0] == "";
    }
  }

  /** Text that starts with "0x" has no space or sign to skip. */
  lemma HexTextUnsigned(s: string)
    requires |s| >= 2 && s[0] == '0' && s[1] == 'x'
    ensures TrimStart(s) == s && Unsigned(s) == s && HasHexPrefix(s)
  {
    assert !IsJsSpace(s[0]) && s[0] != '+' && s[0] != '-';
  }

  /** Decimal text has no hexadecimal prefix, so it reads the same with and
      without a radix. */
  lemma ParseIntAnyRadixDecimal(n: nat)
    ensures ParseIntAnyRadix(Decimal(n)) == Some(n)
  {
    DecimalRoundTrip(n);
    ParseDigits(Decimal(n));
    var d := Decimal(n);
    assert TrimStart(d) == d && Unsigned(d) == d by {
      assert !IsJsSpace(d[0]) && d[0] != '+' && d[0] != '-';
    }
    if |d| >= 2 {
      assert IsDigit(d[1]);
    }
  }

  /** A text of one to three digits parses to a value below 1000. */
  lemma {:induction false} ShortDigitsParse(s: string)
    requires 1 <= |s| <= 3 && AllDigits(s)
    ensures ParsesAsNumber(s) && ParseInt(s) == Some(DigitsValue(s))
    ensures DigitsValue(s) < 1000
  {
    DigitPrefixAll(s);
    assert DigitsValue(s[..|s| - 1]) < 100 by {
      var p := s[..|s| - 1];
      if |p| == 2 {
        assert DigitsValue(p[..1]) == DigitValue(p[0]);
      } else if |p| == 1 {
        assert p[..0] == "";
      }
    }
  }

  // ---------------------------------------------------------------------
  // binary text, padding

  /** `n.toString(2)` for a non-negative integer. */
  function BinaryDigits(n: nat): string {
    if n < 2 then [DigitChar(n)] else BinaryDigits(n / 2) + [DigitChar(n % 2)]
  }

  predicate IsBinaryText(s: string) {
    forall i :: 0 <= i < |s| ==> s[i] == '0' || s[i] == '1'
  }

  /** The value of a string of binary digits. */
  function BitsValue(s: string): nat
    requires IsBinaryText(s)
  {
    if |s| == 0 then 0 else BitsValue(s[..|s| - 1]) * 2 + (if s[|s| - 1] == '1' then 1 else 0)
  }

  /** `x.toString(2)` where x is a parsed number or `NaN`. */
  function NumberToBinary(x: Option<int>): string {
    match x
    case None => "NaN"
    case Some(n) => if n < 0 then "-" + BinaryDigits(-n) else BinaryDigits(n)
  }

  /** `c.repeat(n)`. */
  function Repeat(c: char, n: nat): (r: string)
    ensures |r| == n && forall i :: 0 <= i < n ==> r[i] == c
  {
    if n == 0 then "" else [c] + Repeat(c, n - 1)
  }

  /** `s.padStart(len, fill)` with a one-character fill. */
  function PadStart(s: string, len: nat, fill: char): (r: string)
    ensures |r| == if |s| >= len then |s| else len
  {
    if |s| >= len then s else Repeat(fill, len - |s|) + s
  }

  /** Binary text of a number below 2^k has at most k digits and reads back as the number. */
  lemma {:induction false} BinaryDigitsRoundTrip(n: nat, k: nat)
    requires 1 <= k && n < Pow2(k)
    ensures IsBinaryText(BinaryDigits(n)) && 1 <= |BinaryDigits(n)| <= k
    ensures BitsValue(BinaryDigits(n)) == n
  {
    if n >= 2 {
      BinaryDigitsRoundTrip(n / 2, k - 1);
      var b := BinaryDigits(n);
      assert b[..|b| - 1] == BinaryDigits(n / 2);
    }
  }

  /** Leading zeros do not change the value of binary text. */
  lemma {:induction false} LeadingZeros(n: nat, s: string)
    requires IsBinaryText(s)
    ensures IsBinaryText(Repeat('0', n) + s) && BitsValue(Repeat('0', n) + s) == BitsValue(s)
  {
    if |s| > 0 {
      LeadingZeros(n, s[..|s| - 1]);
      var t := Repeat('0', n) + s;
      assert t[..|t| - 1] == Repeat('0', n) + s[..|s| - 1];
    } else {
      assert Repeat('0', n) + s == Repeat('0', n);
      ZerosValue(n);
    }
  }

  lemma {:induction false} ZerosValue(n: nat)
    ensures IsBinaryText(Repeat('0', n)) && BitsValue(Repeat('0', n)) == 0
  {
    if n > 0 {
      ZerosValue(n - 1);
      var z := Repeat('0', n);
      assert z[..n - 1] == Repeat('0', n - 1);
    }
  }
}
