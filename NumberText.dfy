/** Numbers as the client prints them: Java's decimal rendering of an int,
    a decimal reader that undoes it, and the abbreviated "123K" / "45M"
    labels the item and rune-pouch overlays draw. */
module NumberText {
  import opened Primitives

  predicate IsDigit(c: char) {
    '0' <= c <= '9'
  }

  predicate AllDigits(s: string) {
    forall i :: 0 <= i < |s| ==> IsDigit(s[i])
  }

  function DigitChar(d: nat): (c: char)
    requires d < 10
    ensures IsDigit(c)
  {
    ('0' as int + d) as char
  }

  function DigitValue(c: char): (d: nat)
    requires IsDigit(c)
    ensures d < 10
  {
    c as int - '0' as int
  }

  /** The decimal digits of n, most significant first, without leading zeros. */
  function Digits(n: nat): (s: string)
    ensures |s| >= 1 && AllDigits(s)
    ensures s[0] == '0' ==> n == 0
    decreases n
  {
    if n < 10 then [DigitChar(n)] else Digits(n / 10) + [DigitChar(n % 10)]
  }

  /** Java's String.valueOf(int), which is also what `"" + i` and StringBuilder.append(int) produce. */
  function IntToString(i: int): (s: string)
    ensures |s| >= 1
    ensures i >= 0 ==> AllDigits(s)
    ensures i < 0 ==> s[0] == '-' && AllDigits(s[1..])
    ensures IsDigit(s[|s| - 1])
    ensures i >= 0 && s[0] == '0' ==> i == 0
    ensures i < 0 ==> |s| >= 2 && s[1] != '0'
  {
    if i < 0 then "-" + Digits(-i) else Digits(i)
  }

  /** The value of a non-empty run of decimal digits. */
  function DigitsValue(s: string): nat
    requires |s| >= 1 && AllDigits(s)
    decreases |s|
  {
    if |s| == 1 then DigitValue(s[0])
    else DigitsValue(s[..|s| - 1]) * 10 + DigitValue(s[|s| - 1])
  }

  /** A decimal reader: an optional minus sign followed by at least one digit. */
  function ParseInt(s: string): (r: Option<int>)
    ensures r.Some? ==> |s| >= 1
  {
    if |s| >= 2 && s[0] == '-' && AllDigits(s[1..]) then Some(-(DigitsValue(s[1..]) as int))
    else if |s| >= 1 && AllDigits(s) then Some(DigitsValue(s))
    else None
  }

  lemma {:induction false} DigitsRoundTrip(n: nat)
    ensures DigitsValue(Digits(n)) == n
    decreases n
  {
    if n >= 10 {
      DigitsRoundTrip(n / 10);
      var s := Digits(n);
      assert s[..|s| - 1] == Digits(n / 10);
    }
  }

  /** Reading back what Java prints for an int gives that int. */
  lemma IntToStringRoundTrip(i: int)
    ensures ParseInt(IntToString(i)) == Some(i)
  {
    if i < 0 {
      DigitsRoundTrip(-i);
      assert IntToString(i)[1..] == Digits(-i);
    } else {
      DigitsRoundTrip(i);
    }
  }

  /** The multiplier a label's last character stands for. */
  function Multiplier(c: char): (m: nat)
    ensures m >= 1
  {
    if c == 'M' then 1_000_000 else if c == 'K' then 1_000 else 1
  }

  /** The unit a label counts in: millions, thousands or ones. */
  function LabelUnit(text: string): (m: nat)
    ensures m >= 1
  {
    if |text| == 0 then 1 else Multiplier(text[|text| - 1])
  }

  /** The number a label shows, before its unit is applied. */
  function ShownNumber(text: string): Option<int> {
    if LabelUnit(text) > 1 then ParseInt(text[..|text| - 1]) else ParseInt(text)
  }

  /** A label reads as q: its shown number, counted in its unit, is q rounded
      toward zero to a whole number of units. */
  predicate ReadsAs(text: string, q: int) {
    && ShownNumber(text).Some?
    && ShownNumber(text).value * LabelUnit(text) <= q
    && q < (ShownNumber(text).value + 1) * LabelUnit(text)
  }

  /** A plain label: Java's decimal rendering of q. */
  lemma PlainReadsAs(q: int)
    ensures LabelUnit(IntToString(q)) == 1
    ensures ReadsAs(IntToString(q), q)
  {
    var s := IntToString(q);
    assert IsDigit(s[|s| - 1]);
    IntToStringRoundTrip(q);
  }

  /** `n / unit` printed by Java (which truncates, as Euclidean division does
      for n >= 0), followed by the suffix for that unit. */
  function Abbreviate(n: int, suffix: char): (text: string)
    requires n >= 0 && Multiplier(suffix) > 1
    ensures LabelUnit(text) == Multiplier(suffix)
  {
    IntToString(n / Multiplier(suffix)) + [suffix]
  }

  /** An abbreviated label reads as the amount truncated to its unit. */
  lemma AbbreviateReadsAs(n: int, suffix: char)
    requires n >= 0 && Multiplier(suffix) > 1
    ensures ReadsAs(Abbreviate(n, suffix), n)
  {
    var k := n / Multiplier(suffix);
    var text := Abbreviate(n, suffix);
    assert text[..|text| - 1] == IntToString(k);
    IntToStringRoundTrip(k);
  }
}
