/**
 * `Number.prototype.toString(16)` on a non-negative integer: lower-case
 * hexadecimal digits, most significant first, no leading zeros ("0" for 0).
 * The reader prefixes this with '#' to report the night light colour.
 */
module HexFormat {

  const Digits: string := "0123456789abcdef"

  function DigitChar(d: nat): char
    requires d < 16
  {
    Digits[d]
  }

  /** The hexadecimal text of `n` as JavaScript prints it. */
  function Hex(n: nat): (s: string)
    ensures |s| >= 1
    ensures forall i :: 0 <= i < |s| ==> s[i] in Digits
    ensures n > 0 ==> s[0] != '0'
    ensures n == 0 ==> s == "0"
    decreases n
  {
    if n < 16 then [DigitChar(n)] else Hex(n / 16) + [DigitChar(n % 16)]
  }

  /** The value of a hexadecimal digit character (0 for anything else). */
  function DigitValue(c: char): (d: nat)
    ensures d < 16
  {
    if '0' <= c <= '9' then (c - '0') as nat
    else if 'a' <= c <= 'f' then (c - 'a') as nat + 10
    else 0
  }

  /** Reads hexadecimal text back to its value; the independent inverse of `Hex`. */
  function HexValue(s: string): nat
  {
    if |s| == 0 then 0 else 16 * HexValue(s[..|s| - 1]) + DigitValue(s[|s| - 1])
  }

  lemma DigitRoundTrip(d: nat)
    requires d < 16
    ensures DigitValue(DigitChar(d)) == d
  {
  }

  /** Printing then reading back gives the number: no value is lost in the text. */
  lemma {:induction false} HexRoundTrip(n: nat)
    ensures HexValue(Hex(n)) == n
    decreases n
  {
    if n < 16 {
      DigitRoundTrip(n);
    } else {
      var s := Hex(n);
      assert s[..|s| - 1] == Hex(n / 16);
      HexRoundTrip(n / 16);
      DigitRoundTrip(n % 16);
    }
  }

  /** Different numbers print differently. */
  lemma HexInjective(a: nat, b: nat)
    requires Hex(a) == Hex(b)
    ensures a == b
  {
    HexRoundTrip(a);
    HexRoundTrip(b);
  }
}
