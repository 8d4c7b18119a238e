/** Decimal and hexadecimal text. */
module Digits {
  import opened Machine

  function DigitChar(d: nat): char
    requires d < 10
  {
    '0' + d as char
  }

  predicate IsDigit(c: char) { '0' <= c <= '9' }

  predicate AllDigits(s: string) { forall i :: 0 <= i < |s| ==> IsDigit(s[i]) }

  /** The decimal numeral of n, without leading zeros. */
  function Decimal(n: nat): string {
    if n < 10 then [DigitChar(n)] else Decimal(n / 10) + [DigitChar(n % 10)]
  }

  /** The number a string of digits denotes. */
  function ValueOf(s: string): nat
    requires AllDigits(s)
  {
    if s == "" then 0 else ValueOf(s[..|s| - 1]) * 10 + (s[|s| - 1] - '0') as nat
  }

  lemma {:induction false} DecimalRoundTrip(n: nat)
    ensures |Decimal(n)| > 0 && AllDigits(Decimal(n)) && ValueOf(Decimal(n)) == n
  {
    if n >= 10 {
      DecimalRoundTrip(n / 10);
      var s := Decimal(n);
      assert s[..|s| - 1] == Decimal(n / 10);
    } else {
      assert Decimal(n)[..0] == "";
    }
  }

  /** A signed decimal numeral. */
  function Numeral(n: int): string { if n < 0 then "-" + Decimal(-n) else Decimal(n) }

  /** Read a signed decimal numeral. */
  function ReadNumeral(s: string): Option<int> {
    if s != "" && s[0] == '-' then
      if |s| > 1 && AllDigits(s[1..]) then Some(-(ValueOf(s[1..]) as int)) else None
    else if s != "" && AllDigits(s) then Some(ValueOf(s))
    else None
  }

  lemma NumeralReads(n: int)
    ensures ReadNumeral(Numeral(n)) == Some(n)
  {
    DecimalRoundTrip(if n < 0 then -n else n);
    if n < 0 { assert Numeral(n)[1..] == Decimal(-n); }
  }

  function Pow10(k: nat): nat { if k == 0 then 1 else 10 * Pow10(k - 1) }

  lemma {:induction false} DecimalLength(n: nat, k: nat)
    requires k > 0 && n < Pow10(k)
    ensures |Decimal(n)| <= k
  {
    if n >= 10 { DecimalLength(n / 10, k - 1); }
  }

  // ---- Fixed-width hexadecimal ----

  const HEX: string := "0123456789ABCDEF"

  function Hex(n: nat, width: nat): (s: string)
    ensures |s| == width
  {
    if width == 0 then "" else Hex(n / 16, width - 1) + [HEX[n % 16]]
  }

  function HexValue(c: char): Option<nat> {
    if '0' <= c <= '9' then Some((c - '0') as nat) else if 'A' <= c <= 'F' then Some((c - 'A') as nat + 10) else None
  }

  function ReadHex(s: string): Option<nat> {
    if s == "" then Some(0)
    else
      var front := ReadHex(s[..|s| - 1]);
      var last := HexValue(s[|s| - 1]);
      if front.Some? && last.Some? then Some(front.value * 16 + last.value) else None
  }

  function Pow16(k: nat): nat { if k == 0 then 1 else 16 * Pow16(k - 1) }

  lemma HexDigit(d: nat)
    requires d < 16
    ensures HexValue(HEX[d]) == Some(d)
  {
  }

  lemma {:induction false} HexReads(n: nat, width: nat)
    requires n < Pow16(width)
    ensures ReadHex(Hex(n, width)) == Some(n)
  {
    if width > 0 {
      HexReads(n / 16, width - 1);
      var s := Hex(n, width);
      assert s[..|s| - 1] == Hex(n / 16, width - 1);
      HexDigit(n % 16);
    }
  }

  lemma {:induction false} HexDigitsOnly(n: nat, width: nat)
    ensures forall i :: 0 <= i < width ==> HexValue(Hex(n, width)[i]).Some?
  {
    if width > 0 {
      HexDigitsOnly(n / 16, width - 1);
      HexDigit(n % 16);
    }
  }
}
