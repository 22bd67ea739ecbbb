/**
 * The printf "%d" rendering that pkg_elf.c uses for every version string.
 */
module Format {

  /** The decimal digit character for `d`. */
  function DigitChar(d: nat): (c: char)
    requires d < 10
    ensures '0' <= c <= '9' && c as int - '0' as int == d
  {
    ('0' as int + d) as char
  }

  predicate IsDigits(s: string)
  {
    forall i :: 0 <= i < |s| ==> '0' <= s[i] <= '9'
  }

  /** The decimal rendering of a natural, most significant digit first. */
  function Decimal(n: nat): (s: string)
    ensures 1 <= |s| && IsDigits(s)
    ensures |s| > 1 ==> s[0] != '0'
  {
    if n < 10 then [DigitChar(n)] else Decimal(n / 10) + [DigitChar(n % 10)]
  }

  /** The value of a string of decimal digits. */
  function DecimalValue(s: string): nat
    requires IsDigits(s)
  {
    if s == [] then 0
    else 10 * DecimalValue(s[..|s| - 1]) + (s[|s| - 1] as int - '0' as int)
  }

  /** Reading back a rendered number gives the number. */
  lemma {:induction false} DecimalRoundTrip(n: nat)
    ensures DecimalValue(Decimal(n)) == n
  {
    if n >= 10 {
      var s := Decimal(n);
      assert s[..|s| - 1] == Decimal(n / 10);
      DecimalRoundTrip(n / 10);
    }
  }

  /** Different numbers render differently, so a version string determines its number. */
  lemma DecimalInjective(m: nat, n: nat)
    requires Decimal(m) == Decimal(n)
    ensures m == n
  {
    DecimalRoundTrip(m);
    DecimalRoundTrip(n);
  }

  /**
   * printf("%d", v) for a uint32_t argument: the value is read back as a
   * 32-bit signed int, so values from 2^31 on print as negative numbers.
   */
  function PrintfD(v: nat): string
    requires v < 0x1_0000_0000
  {
    if v < 0x8000_0000 then Decimal(v) else "-" + Decimal(0x1_0000_0000 - v)
  }

  /** A string of digits, optionally preceded by a minus sign. */
  predicate IsSignedDecimal(s: string)
  {
    if s != [] && s[0] == '-' then IsDigits(s[1..]) else IsDigits(s)
  }

  /** The value of a signed decimal string, as strtol reads it. */
  function SignedValue(s: string): int
    requires IsSignedDecimal(s)
  {
    if s != [] && s[0] == '-' then -(DecimalValue(s[1..]) as int) else DecimalValue(s)
  }

  /** Reading back `%d` of a uint32_t gives its signed 32-bit value. */
  lemma PrintfDRoundTrip(v: nat)
    requires v < 0x1_0000_0000
    ensures IsSignedDecimal(PrintfD(v))
    ensures SignedValue(PrintfD(v)) == if v < 0x8000_0000 then v else v - 0x1_0000_0000
  {
    if v < 0x8000_0000 {
      DecimalRoundTrip(v);
    } else {
      var s := PrintfD(v);
      assert s[1..] == Decimal(0x1_0000_0000 - v);
      DecimalRoundTrip(0x1_0000_0000 - v);
    }
  }

  /** `%d` of a uint32_t is injective, so the recorded osversion string determines the osversion. */
  lemma PrintfDInjective(u: nat, v: nat)
    requires u < 0x1_0000_0000 && v < 0x1_0000_0000
    requires PrintfD(u) == PrintfD(v)
    ensures u == v
  {
    PrintfDRoundTrip(u);
    PrintfDRoundTrip(v);
  }
}
