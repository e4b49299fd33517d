/** Text operations the booking workflow relies on: Python's `s.split(sep)[0]`
    and the way an integral price read back from a REAL column is printed. */
module Text {

  /** `sep` occurs in `s` starting at index `i`. */
  predicate OccursAt(s: string, sep: string, i: nat)
  {
    i + |sep| <= |s| && s[i..i + |sep|] == sep
  }

  /** `sep` occurs somewhere in `s`. */
  predicate Contains(s: string, sep: string)
  {
    exists i: nat | i <= |s| :: OccursAt(s, sep, i)
  }

  /** An occurrence in `s[1..]` is an occurrence in `s`, one position later. */
  lemma OccursAtTail(s: string, sep: string)
    requires |s| > 0
    ensures forall i: nat :: 0 < i ==> (OccursAt(s, sep, i) <==> OccursAt(s[1..], sep, i - 1))
  {
    forall i: nat | 0 < i
      ensures OccursAt(s, sep, i) <==> OccursAt(s[1..], sep, i - 1)
    {
      if i + |sep| <= |s| {
        assert s[1..][i - 1..i - 1 + |sep|] == s[i..i + |sep|];
      }
    }
  }

  /** Python's `s.split(sep)[0]` for a non-empty separator: the text before the
      first occurrence of `sep`, or the whole of `s` when `sep` does not occur. */
  function FirstSegment(s: string, sep: string): (r: string)
    requires |sep| > 0
    ensures r <= s
    ensures forall i: nat :: i < |r| ==> !OccursAt(s, sep, i)
    ensures |r| == |s| || OccursAt(s, sep, |r|)
    decreases |s|
  {
    if |s| == 0 || OccursAt(s, sep, 0) then ""
    else
      OccursAtTail(s, sep);
      [s[0]] + FirstSegment(s[1..], sep)
  }

  /** The character of a decimal digit. */
  function DigitChar(d: nat): (c: char)
    requires d < 10
    ensures '0' <= c <= '9'
  {
    (('0' as int) + d) as char
  }

  /** The value of a decimal digit character. */
  function DigitValue(c: char): (d: nat)
    requires '0' <= c <= '9'
    ensures d < 10
  {
    (c as int) - ('0' as int)
  }

  predicate AllDigits(s: string)
  {
    forall i :: 0 <= i < |s| ==> '0' <= s[i] <= '9'
  }

  /** `str(n)` for a natural number: its decimal digits, most significant first. */
  function Decimal(n: nat): (r: string)
    ensures |r| > 0 && AllDigits(r)
    ensures |r| > 1 ==> r[0] != '0'
  {
    if n < 10 then [DigitChar(n)] else Decimal(n / 10) + [DigitChar(n % 10)]
  }

  /** The number a string of decimal digits denotes. */
  function DecimalValue(s: string): nat
    requires AllDigits(s)
  {
    if |s| == 0 then 0
    else DecimalValue(s[..|s| - 1]) * 10 + DigitValue(s[|s| - 1])
  }

  /** Reading back the digits of `n` gives `n`: no two prices print alike. */
  lemma {:induction false} DecimalRoundTrip(n: nat)
    ensures DecimalValue(Decimal(n)) == n
  {
    if n >= 10 {
      var r := Decimal(n);
      assert r[..|r| - 1] == Decimal(n / 10);
      DecimalRoundTrip(n / 10);
    }
  }

  /** How Python prints a price stored in a REAL column: an integral value
      comes back as a float, so 80 prints as "80.0". */
  function PriceText(price: nat): (r: string)
    ensures |r| > 2 && r[|r| - 2..] == ".0"
    ensures AllDigits(r[..|r| - 2]) && DecimalValue(r[..|r| - 2]) == price
    ensures |r| == 3 || r[0] != '0'
  {
    DecimalRoundTrip(price);
    var r := Decimal(price) + ".0";
    assert r[..|r| - 2] == Decimal(price);
    r
  }
}
