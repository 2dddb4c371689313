/**
 * The parts of java.lang's String and Integer behaviour this service relies on:
 * String.length() (UTF-16 code units), String.isBlank(), String.toLowerCase()
 * (ASCII letters only) and Integer.parseInt / Integer.toString.
 */
module JavaText {
  import opened Wrappers

  const INT_MIN: int := -0x8000_0000
  const INT_MAX: int := 0x7fff_ffff
  const LONG_MIN: int := -0x8000_0000_0000_0000
  const LONG_MAX: int := 0x7fff_ffff_ffff_ffff

  /** A Java `int`. */
  type Int32 = x: int | INT_MIN <= x <= INT_MAX

  /** Java's `(int)` cast of a `long`: keep the low 32 bits, read them as two's complement. */
  function WrapToInt(x: int): (r: Int32)
    ensures INT_MIN <= x <= INT_MAX ==> r == x
    ensures (r - x) % 0x1_0000_0000 == 0
  {
    var low := x % 0x1_0000_0000;
    if low <= INT_MAX then low else low - 0x1_0000_0000
  }

  // ---------------------------------------------------------------- length

  /** String.length(): a character outside the Basic Multilingual Plane takes two UTF-16 units. */
  function Utf16Length(s: string): (n: nat)
    ensures |s| <= n <= 2 * |s|
    ensures (forall i :: 0 <= i < |s| ==> s[i] as int < 0x1_0000) ==> n == |s|
  {
    if s == [] then 0
    else (if s[0] as int >= 0x1_0000 then 2 else 1) + Utf16Length(s[1..])
  }

  // ---------------------------------------------------------------- blank

  /** Character.isWhitespace: space, line and paragraph separators other than the
      no-break spaces U+00A0, U+2007 and U+202F, plus U+0009..U+000D and U+001C..U+001F. */
  predicate IsJavaWhitespace(c: char) {
    var n := c as int;
    (0x09 <= n <= 0x0D) || (0x1C <= n <= 0x20) || n == 0x1680
    || (0x2000 <= n <= 0x2006) || (0x2008 <= n <= 0x200A)
    || n == 0x2028 || n == 0x2029 || n == 0x205F || n == 0x3000
  }

  /** String.isBlank(): empty, or whitespace only. */
  predicate IsBlank(s: string) {
    forall i :: 0 <= i < |s| ==> IsJavaWhitespace(s[i])
  }

  /**
   * Which strings isBlank rejects and accepts: the empty string and ASCII or Unicode spaces are
   * blank; a no-break space is not whitespace to Java, so a name made of one is not blank.
   */
  lemma BlankExamples()
    ensures IsBlank("") && IsBlank(" \t\n") && IsBlank("\U{2003}\U{3000}")
    ensures !IsBlank("\U{00A0}") && !IsBlank("\U{2007}") && !IsBlank(" a ")
  {
    assert "\U{00A0}"[0] == '\U{00A0}' && "\U{2007}"[0] == '\U{2007}' && " a "[1] == 'a';
  }

  // ---------------------------------------------------------------- lower case

  function LowerChar(c: char): (r: char)
    ensures 'A' <= c <= 'Z' ==> r as int == c as int + 32
    ensures !('A' <= c <= 'Z') ==> r == c
  {
    if 'A' <= c <= 'Z' then (c as int + 32) as char else c
  }

  /** String.toLowerCase() restricted to ASCII letters. */
  function Lower(s: string): (r: string)
    ensures |r| == |s|
    ensures forall i :: 0 <= i < |s| ==> r[i] == LowerChar(s[i])
  {
    seq(|s|, i requires 0 <= i < |s| => LowerChar(s[i]))
  }

  lemma LowerIdempotent(s: string)
    ensures Lower(Lower(s)) == Lower(s)
  {
    assert forall i :: 0 <= i < |s| ==> Lower(Lower(s))[i] == Lower(s)[i];
  }

  // ---------------------------------------------------------------- parseInt

  predicate IsDigit(c: char) {
    '0' <= c <= '9'
  }

  predicate AllDigits(s: string) {
    forall i :: 0 <= i < |s| ==> IsDigit(s[i])
  }

  /** The value of a string of decimal digits, most significant first. */
  function DigitsValue(ds: string): nat
    requires AllDigits(ds)
  {
    if ds == [] then 0
    else DigitsValue(ds[..|ds| - 1]) * 10 + (ds[|ds| - 1] as int - '0' as int)
  }

  /** The numeral grammar Integer.parseInt and Long.parseLong share: an optional '+' or '-'
      followed by at least one ASCII digit. Its value is not yet range-checked. */
  function ParseNumeral(s: string): (r: Option<int>)
    ensures r.Some? ==> |s| >= 1 && (IsDigit(s[0]) || s[0] == '+' || s[0] == '-')
    ensures r.Some? ==> forall i :: 0 < i < |s| ==> IsDigit(s[i])
    ensures r.Some? && s[0] != '-' ==> r.value >= 0
    ensures |s| >= 1 && AllDigits(s) ==> r == Some(DigitsValue(s))
    ensures |s| >= 2 && s[0] == '+' && AllDigits(s[1..]) ==> r == Some(DigitsValue(s[1..]))
    ensures |s| >= 2 && s[0] == '-' && AllDigits(s[1..]) ==> r == Some(-(DigitsValue(s[1..]) as int))
  {
    if |s| == 0 then None
    else
      var digits := if s[0] == '-' || s[0] == '+' then s[1..] else s;
      if |digits| == 0 || !AllDigits(digits) then None
      else if s[0] == '-' then Some(0 - DigitsValue(digits))
      else Some(DigitsValue(digits))
  }

  /** parseInt accepts numerals toString never writes: a plus sign, leading zeros, minus zero. */
  lemma NonCanonicalNumerals()
    ensures ParseInt("+5") == Some(5)
    ensures ParseInt("007") == Some(7)
    ensures ParseInt("-0") == Some(0)
    ensures ParseInt("+") == None && ParseInt("-") == None && ParseInt("") == None
    ensures ParseInt("1 ") == None && ParseInt("--1") == None
  {
    assert DigitsValue("5") == 5 by { assert "5"[..0] == ""; }
    assert DigitsValue("007") == 7 by {
      assert "007"[..2] == "00" && "00"[..1] == "0" && "0"[..0] == "";
    }
    assert DigitsValue("0") == 0 by { assert "0"[..0] == ""; }
    assert !AllDigits("1 ") by { assert !IsDigit("1 "[1]); }
    assert !AllDigits("-1") by { assert !IsDigit("-1"[0]); }
  }

  /** Integer.parseInt(s): a numeral whose value fits an int. None stands for the NumberFormatException. */
  function ParseInt(s: string): (r: Option<Int32>)
    ensures r.Some? <==> ParseNumeral(s).Some? && INT_MIN <= ParseNumeral(s).value <= INT_MAX
    ensures r.Some? ==> r.value == ParseNumeral(s).value
  {
    var n := ParseNumeral(s);
    if n.Some? && INT_MIN <= n.value <= INT_MAX then Some(n.value) else None
  }

  /** Long.valueOf(s): a numeral whose value fits a long. None stands for the NumberFormatException. */
  function ParseLong(s: string): (r: Option<int>)
    ensures r.Some? <==> ParseNumeral(s).Some? && LONG_MIN <= ParseNumeral(s).value <= LONG_MAX
    ensures r.Some? ==> r.value == ParseNumeral(s).value
  {
    var n := ParseNumeral(s);
    if n.Some? && LONG_MIN <= n.value <= LONG_MAX then Some(n.value) else None
  }

  /** The decimal digits of a natural number, without leading zeros. */
  function NatDigits(n: nat): (ds: string)
    ensures |ds| >= 1 && AllDigits(ds)
    ensures DigitsValue(ds) == n
    decreases n
  {
    var last := ['0' + ((n % 10) as char)];
    if n < 10 then last
    else
      var prefix := NatDigits(n / 10);
      var ds := prefix + last;
      assert ds[..|ds| - 1] == prefix;
      ds
  }

  /** Integer.toString(n) and Long.toString(n). */
  function ToDecimal(n: int): string {
    if n < 0 then "-" + NatDigits(-n) else NatDigits(n)
  }

  /** Every number, written out by toString, reads back as the same numeral. */
  lemma ParseNumeralOfToDecimal(n: int)
    ensures ParseNumeral(ToDecimal(n)) == Some(n)
  {
    var s := ToDecimal(n);
    if n < 0 {
      assert s[0] == '-' && s[1..] == NatDigits(-n);
    } else {
      assert IsDigit(s[0]);
    }
  }

  /** Integer.parseInt reads back every int that Integer.toString writes out. */
  lemma ParseIntOfToDecimal(n: Int32)
    ensures ParseInt(ToDecimal(n)) == Some(n)
  {
    ParseNumeralOfToDecimal(n);
  }

  /** Long.valueOf reads back every long that Long.toString writes out. */
  lemma ParseLongOfToDecimal(n: int)
    requires LONG_MIN <= n <= LONG_MAX
    ensures ParseLong(ToDecimal(n)) == Some(n)
  {
    ParseNumeralOfToDecimal(n);
  }
}
