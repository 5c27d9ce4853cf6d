/** Decimal rendering of integers and `padStart`, as the countdown's display
    fields use them: `n.toString().padStart(2, '0')`.

    `Decimal` is the string JavaScript's `Number.prototype.toString()` gives
    for an integral number (a '-' sign followed by the digits of the magnitude,
    no leading zeros). `PadStart` is `String.prototype.padStart` with a
    one-character fill. `Value` reads a string of digits back, which is the
    reference the renderings below are proved against. */
module NumberText {

  /** The character of one decimal digit. */
  function DigitChar(d: int): (c: char)
    requires 0 <= d < 10
    ensures '0' <= c <= '9' && (c as int) - ('0' as int) == d
  {
    (('0' as int) + d) as char
  }

  predicate IsDigit(c: char) {
    '0' <= c <= '9'
  }

  predicate AllDigits(s: string) {
    forall i :: 0 <= i < |s| ==> IsDigit(s[i])
  }

  /** The digits of a natural number, most significant first, without leading zeros. */
  function NatDecimal(n: nat): (s: string)
    ensures 1 <= |s|
    ensures AllDigits(s)
    ensures |s| == 1 <==> n < 10
    ensures n > 0 ==> s[0] != '0'
  {
    if n < 10 then [DigitChar(n)]
    else NatDecimal(n / 10) + [DigitChar(n % 10)]
  }

  /** `n.toString()` for an integral number `n`. */
  function Decimal(n: int): (s: string)
    ensures 1 <= |s|
    ensures n >= 0 ==> AllDigits(s)
    ensures n < 0 ==> 2 <= |s| && s[0] == '-' && AllDigits(s[1..])
    ensures n >= 0 ==> Value(s) == n
    ensures n < 0 ==> Value(s[1..]) == -n
    ensures n >= 0 ==> (|s| == 1 <==> n < 10) && (n > 0 ==> s[0] != '0')
    ensures n < 0 ==> s[1] != '0' && (|s| == 2 <==> n > -10)
  {
    if n < 0 then
      ValueOfNatDecimal(-n);
      assert ("-" + NatDecimal(-n))[1..] == NatDecimal(-n);
      "-" + NatDecimal(-n)
    else
      ValueOfNatDecimal(n);
      NatDecimal(n)
  }

  /** The number a string of decimal digits denotes (leading zeros allowed). */
  function Value(s: string): (v: nat)
    requires AllDigits(s)
  {
    if s == [] then 0
    else Value(s[..|s| - 1]) * 10 + ((s[|s| - 1] as int) - ('0' as int))
  }

  /** `s.padStart(len, fill)` with a one-character `fill`: `fill` is repeated in
      front of `s` until the result is `len` long; a string that is already at
      least `len` long comes back unchanged. */
  function PadStart(s: string, len: nat, fill: char): (r: string)
    ensures |s| >= len ==> r == s
    ensures |s| < len ==> |r| == len
    ensures r[|r| - |s|..] == s
    ensures forall i :: 0 <= i < |r| - |s| ==> r[i] == fill
  {
    if |s| >= len then s else seq(len - |s|, _ => fill) + s
  }

  /** What one countdown field shows: `n.toString().padStart(2, '0')`. It is
      at least two characters wide; for a non-negative `n` its digits read back
      as `n`; a negative `n` is shown as its decimal form, unpadded. */
  function TwoDigit(n: int): (r: string)
    ensures |r| >= 2
    ensures n >= 0 ==> AllDigits(r) && Value(r) == n
    ensures n < 0 ==> r == Decimal(n)
  {
    var d := Decimal(n);
    if |d| < 2 then
      ValueLeadingZero(d);
      assert PadStart(d, 2, '0') == "0" + d;
      PadStart(d, 2, '0')
    else
      PadStart(d, 2, '0')
  }

  /** Reading back the decimal form of `n` gives `n`. */
  lemma {:induction false} ValueOfNatDecimal(n: nat)
    ensures Value(NatDecimal(n)) == n
  {
    if n >= 10 {
      var s := NatDecimal(n);
      assert s[..|s| - 1] == NatDecimal(n / 10);
      ValueOfNatDecimal(n / 10);
    }
  }

  /** A leading '0' does not change the number a digit string denotes. */
  lemma {:induction false} ValueLeadingZero(s: string)
    requires AllDigits(s)
    ensures AllDigits("0" + s) && Value("0" + s) == Value(s)
  {
    var t := "0" + s;
    if s != [] {
      assert t[..|t| - 1] == "0" + s[..|s| - 1];
      ValueLeadingZero(s[..|s| - 1]);
    }
  }

  /** Shape of a display field: never shorter than two characters; a number
      whose decimal form already has two or more characters (a day count of
      100 or more, or any negative number) is shown unchanged, not truncated;
      a single digit gets exactly one leading '0'. */
  lemma TwoDigitShape(n: int)
    ensures |TwoDigit(n)| >= 2
    ensures |Decimal(n)| >= 2 ==> TwoDigit(n) == Decimal(n)
    ensures |Decimal(n)| < 2 ==> TwoDigit(n) == "0" + Decimal(n)
    ensures 0 <= n < 10 ==> TwoDigit(n) == ['0', DigitChar(n)]
    ensures n >= 10 ==> TwoDigit(n) == NatDecimal(n)
    ensures n < 0 ==> TwoDigit(n) == Decimal(n)
  {
    var d := Decimal(n);
    if |d| < 2 {
      assert TwoDigit(n) == "0" + d;
      if 0 <= n < 10 {
        assert d == [DigitChar(n)];
      }
    }
  }

  /** A field holding a unit below 100 (hours, minutes, seconds, and a day
      count below 100) is exactly two digits wide. */
  lemma TwoDigitWidth(n: int)
    requires 0 <= n < 100
    ensures |TwoDigit(n)| == 2 && AllDigits(TwoDigit(n))
  {
    TwoDigitShape(n);
    if n >= 10 {
      var d := NatDecimal(n / 10);
      assert |d| == 1;
      assert |NatDecimal(n)| == 2;
    }
  }
}
