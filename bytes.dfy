/** Byte strings, the ASCII decimal rendering of a counter, and Python's `s[:stop]` slice. */
module Bytes {

  newtype byte = x: int | 0 <= x < 256

  const AsciiZero: byte := 48

  predicate IsDigit(b: byte) {
    AsciiZero <= b <= AsciiZero + 9
  }

  function DigitValue(b: byte): nat
    requires IsDigit(b)
  {
    (b - AsciiZero) as nat
  }

  /** `str(n).encode("ascii")`: decimal digits, most significant first, no leading zero. */
  function Decimal(n: nat): (r: seq<byte>)
    ensures |r| >= 1
    ensures forall i :: 0 <= i < |r| ==> IsDigit(r[i])
    ensures r[0] == AsciiZero ==> n == 0
    ensures n < 10 <==> |r| == 1
  {
    if n < 10 then [AsciiZero + n as byte]
    else Decimal(n / 10) + [AsciiZero + (n % 10) as byte]
  }

  /** Reads a string of ASCII decimal digits back as a number. */
  function ParseDecimal(s: seq<byte>): nat
    requires forall i :: 0 <= i < |s| ==> IsDigit(s[i])
  {
    if s == [] then 0
    else 10 * ParseDecimal(s[..|s| - 1]) + DigitValue(s[|s| - 1])
  }

  /** Parsing undoes the decimal rendering. */
  lemma {:induction false} DecimalRoundTrip(n: nat)
    ensures ParseDecimal(Decimal(n)) == n
  {
    var r := Decimal(n);
    if n >= 10 {
      DecimalRoundTrip(n / 10);
      assert r[..|r| - 1] == Decimal(n / 10);
    }
  }

  /** Distinct counters have distinct decimal renderings. */
  lemma DecimalInjective(i: nat, j: nat)
    requires Decimal(i) == Decimal(j)
    ensures i == j
  {
    DecimalRoundTrip(i);
    DecimalRoundTrip(j);
  }

  /**
   * Python's `s[:stop]`: a negative stop counts from the end, and the
   * resulting bound is clamped into `0 ..= |s|`.
   */
  function PySliceTo(s: seq<byte>, stop: int): (r: seq<byte>)
    ensures 0 <= stop <= |s| ==> r == s[..stop]
    ensures stop > |s| ==> r == s
    ensures -|s| <= stop < 0 ==> r == s[..|s| + stop]
    ensures stop < -|s| ==> r == []
  {
    var end := if stop < 0 then |s| + stop else stop;
    if end < 0 then [] else if end > |s| then s else s[..end]
  }
}
