/** The grammar of JSON numbers (RFC 4627, section 2.4). */
module JsonNumbers {
  import opened Bytes
  import opened Wrappers

  const MINUS: byte := 0x2D
  const POINT: byte := 0x2E

  // ---------- doubles ----------

  const FRACTION := 0x10_0000_0000_0000
  const SIGN := 0x8000_0000_0000_0000

  /** A double, by its bits: the sign, eleven bits of exponent and 52 of fraction. */
  type Double = d: nat | d < WORD64

  /** The exponent of an infinity or NaN is all ones. */
  predicate IsFinite(d: Double) {
    d / FRACTION % 0x800 != 0x7FF
  }

  predicate IsNan(d: Double) {
    !IsFinite(d) && d % FRACTION != 0
  }

  /** The C operator ==: the two zeros are equal, and a NaN equals nothing. */
  predicate SameNumber(a: Double, b: Double) {
    !IsNan(a) && !IsNan(b) && (a == b || (a % SIGN == 0 && b % SIGN == 0))
  }

  /** Zero of either sign is one number, infinity is none that is finite, and a NaN is not even the same as itself. */
  lemma SomeDoubles()
    ensures SameNumber(0, 0x8000_0000_0000_0000) && IsFinite(0x7FEF_FFFF_FFFF_FFFF) && !IsFinite(0x7FF0_0000_0000_0000)
    ensures SameNumber(0xFFF0_0000_0000_0000, 0xFFF0_0000_0000_0000)
            && !SameNumber(0x7FF0_0000_0000_0000, 0xFFF0_0000_0000_0000)
    ensures IsNan(0x7FF8_0000_0000_0000) && !SameNumber(0x7FF8_0000_0000_0000, 0x7FF8_0000_0000_0000)
    ensures !SameNumber(1, 0x8000_0000_0000_0001)
  {
  }

  // ---------- the text of numbers ----------

  predicate IsDigit(c: byte) {
    0x30 <= c <= 0x39
  }

  predicate IsExponent(c: byte) {
    c == 0x45 || c == 0x65
  }

  predicate IsSign(c: byte) {
    c == 0x2B || c == MINUS
  }

  /** How many characters at the start are digits. */
  function DigitRun(s: seq<byte>): (n: nat)
    ensures n <= |s| && (n < |s| ==> !IsDigit(s[n]))
    ensures forall i :: 0 <= i < n ==> IsDigit(s[i])
  {
    if s == [] || !IsDigit(s[0]) then 0 else 1 + DigitRun(s[1..])
  }

  /** The digits from a on end at b. */
  lemma DigitsEnd(s: seq<byte>, a: nat, b: nat)
    requires a <= b <= |s| && (forall i :: a <= i < b ==> IsDigit(s[i])) && (b < |s| ==> !IsDigit(s[b]))
    ensures DigitRun(s[a..]) == b - a
  {
  }

  /** The end of a number's integer part: a single zero, or digits that do not start with one. */
  function IntegerEnd(s: seq<byte>): (r: Option<nat>)
    ensures r.Some? ==> 0 < r.value <= |s|
  {
    var i := if s != [] && s[0] == MINUS then 1 else 0;
    var n := DigitRun(s[i..]);
    if n == 0 || (s[i] == 0x30 && n > 1) then None else Some(i + n)
  }

  /** The end of the fraction at j, if there is one. */
  function FractionEnd(s: seq<byte>, j: nat): (r: Option<nat>)
    requires j <= |s|
    ensures r.Some? ==> j <= r.value <= |s|
  {
    if j >= |s| || s[j] != POINT then Some(j)
    else if j + 1 >= |s| || !IsDigit(s[j + 1]) then None
    else Some(j + 1 + DigitRun(s[j + 1..]))
  }

  /** The end of the exponent at k, if there is one. */
  function ExponentEnd(s: seq<byte>, k: nat): (r: Option<nat>)
    requires k <= |s|
    ensures r.Some? ==> k <= r.value <= |s|
  {
    if k >= |s| || !IsExponent(s[k]) then Some(k) else
    var e := if k + 1 < |s| && IsSign(s[k + 1]) then k + 2 else k + 1;
    if e >= |s| || !IsDigit(s[e]) then None else Some(e + DigitRun(s[e..]))
  }

  /** The end of the fraction and exponent of a real number whose integer part ends at j. */
  function RealEnd(s: seq<byte>, j: nat): (r: Option<nat>)
    requires j <= |s|
    ensures r.Some? ==> j <= r.value <= |s|
  {
    var k := FractionEnd(s, j);
    if k.None? then None else ExponentEnd(s, k.value)
  }

  /** The text of a real number: an integer part with a fraction, an exponent or both. */
  predicate IsRealText(s: seq<byte>) {
    var j := IntegerEnd(s);
    && j.Some? && j.value < |s| && (s[j.value] == POINT || IsExponent(s[j.value]))
    && RealEnd(s, j.value) == Some(|s|)
  }

  /** Zero, as it is written. */
  function ZeroText(): (s: seq<byte>)
    ensures IsRealText(s)
  {
    var s := [0x30, POINT, 0x30];
    DigitsEnd(s, 0, 1);
    DigitsEnd(s, 2, 3);
    s
  }

  /** What the C library writes for a finite double. */
  type RealText = s: seq<byte> | IsRealText(s) witness ZeroText()

  // ---------- numbers at the start of a text ----------

  /** s ends where t goes on with something that is no digit. */
  predicate Stops(s: seq<byte>, t: seq<byte>) {
    s <= t && (|s| < |t| ==> !IsDigit(t[|s|]))
  }

  lemma SameDigits(s: seq<byte>, t: seq<byte>, a: nat)
    requires Stops(s, t) && a <= |s|
    ensures DigitRun(t[a..]) == DigitRun(s[a..])
  {
    var b := a + DigitRun(s[a..]);
    assert forall i :: a <= i < b ==> t[i] == s[i] == s[a..][i - a];
    assert b < |s| ==> t[b] == s[b] == s[a..][b - a];
    DigitsEnd(t, a, b);
  }

  lemma SameInteger(s: seq<byte>, t: seq<byte>)
    requires Stops(s, t) && s != []
    ensures IntegerEnd(t) == IntegerEnd(s)
  {
    hide DigitRun;
    SameDigits(s, t, if s[0] == MINUS then 1 else 0);
  }

  lemma SameFraction(s: seq<byte>, t: seq<byte>, j: nat)
    requires Stops(s, t) && (|s| < |t| ==> t[|s|] != POINT) && j <= |s| && FractionEnd(s, j).Some?
    ensures FractionEnd(t, j) == FractionEnd(s, j)
  {
    hide DigitRun;
    if j < |s| && s[j] == POINT {
      SameDigits(s, t, j + 1);
    }
  }

  lemma SameExponent(s: seq<byte>, t: seq<byte>, k: nat)
    requires Stops(s, t) && (|s| < |t| ==> !IsExponent(t[|s|])) && k <= |s| && ExponentEnd(s, k).Some?
    ensures ExponentEnd(t, k) == ExponentEnd(s, k)
  {
    hide DigitRun;
    if k < |s| && IsExponent(s[k]) {
      SameDigits(s, t, if k + 1 < |s| && IsSign(s[k + 1]) then k + 2 else k + 1);
    }
  }

  /** A number's real part ends at the same place in a longer text that goes on with neither digit nor letter. */
  lemma SameReal(s: seq<byte>, t: seq<byte>, j: nat)
    requires Stops(s, t) && (|s| < |t| ==> !IsExponent(t[|s|]) && t[|s|] != POINT)
    requires j <= |s| && RealEnd(s, j).Some?
    ensures RealEnd(t, j) == RealEnd(s, j)
  {
    hide FractionEnd, ExponentEnd;
    SameFraction(s, t, j);
    SameExponent(s, t, FractionEnd(s, j).value);
  }

  lemma FirstDigit(s: seq<byte>, a: nat)
    requires a < |s| && IsDigit(s[a])
    ensures DigitRun(s[a..]) > 0
  {
  }

  lemma LastDigit(s: seq<byte>, a: nat)
    requires a <= |s| && DigitRun(s[a..]) > 0
    ensures IsDigit(s[a + DigitRun(s[a..]) - 1])
  {
    var n := DigitRun(s[a..]);
    assert s[a..][n - 1] == s[a + n - 1];
  }

  /** The last character of a number is a digit. */
  lemma IntegerEndsInDigit(s: seq<byte>)
    requires IntegerEnd(s).Some?
    ensures IsDigit(s[IntegerEnd(s).value - 1])
  {
    hide DigitRun;
    LastDigit(s, if s != [] && s[0] == MINUS then 1 else 0);
  }

  lemma EndsInDigit(s: seq<byte>, j: nat)
    requires j < |s| && (s[j] == POINT || IsExponent(s[j])) && RealEnd(s, j).Some?
    ensures var n := RealEnd(s, j).value; j < n && IsDigit(s[n - 1])
  {
    hide DigitRun;
    var k := FractionEnd(s, j).value;
    if s[j] == POINT {
      FirstDigit(s, j + 1);
      LastDigit(s, j + 1);
    }
    if k < |s| && IsExponent(s[k]) {
      var e := if k + 1 < |s| && IsSign(s[k + 1]) then k + 2 else k + 1;
      FirstDigit(s, e);
      LastDigit(s, e);
    }
  }
}
