/** The HTML text the converter writes for a heading, `<hN>text</hN>`, and
    the decimal rendering of `N` that Python's string formatting performs. */
module Html {

  predicate IsDigit(c: char) {
    '0' <= c <= '9'
  }

  function DigitChar(d: nat): (c: char)
    requires d < 10
    ensures IsDigit(c) && c as int - '0' as int == d
  {
    ('0' as int + d) as char
  }

  /** The decimal spelling of `n`, as `str(n)` produces it. */
  function Decimal(n: nat): (s: string)
    ensures |s| > 0
    ensures forall i | 0 <= i < |s| :: IsDigit(s[i])
    ensures |s| > 1 ==> s[0] != '0'
    decreases n
  {
    if n < 10 then [DigitChar(n)] else Decimal(n / 10) + [DigitChar(n % 10)]
  }

  /** The number a string of decimal digits denotes. */
  function DecimalValue(s: string): nat
    requires forall i | 0 <= i < |s| :: IsDigit(s[i])
  {
    if |s| == 0 then 0
    else
      assert IsDigit(s[|s| - 1]);
      DecimalValue(s[..|s| - 1]) * 10 + (s[|s| - 1] as int - '0' as int)
  }

  /** Reading the decimal spelling back gives the number. */
  lemma {:induction false} DecimalRoundTrip(n: nat)
    ensures DecimalValue(Decimal(n)) == n
    decreases n
  {
    var s := Decimal(n);
    if n >= 10 {
      DecimalRoundTrip(n / 10);
      assert s[..|s| - 1] == Decimal(n / 10);
    }
  }

  /** `"<h{0}>{1}</h{0}>".format(level, text)` */
  function HeadingHtml(level: nat, text: string): string {
    "<h" + Decimal(level) + ">" + text + "</h" + Decimal(level) + ">"
  }

  /** A run of digits ends at the first `>`. */
  lemma DigitsPrefix(a: string, x: string, b: string, y: string)
    requires forall i | 0 <= i < |a| :: IsDigit(a[i])
    requires forall i | 0 <= i < |b| :: IsDigit(b[i])
    requires a + ">" + x == b + ">" + y
    ensures a == b && x == y
  {
    var u := a + ">" + x;
    assert forall i | 0 <= i < |a| :: u[i] == a[i];
    assert forall i | 0 <= i < |b| :: u[i] == b[i];
    assert u[|a|] == '>' && u[|b|] == '>';
    assert |a| == |b|;
    assert a == u[..|a|] == b;
    assert x == u[|a| + 1..] == y;
  }

  /** The markup determines the heading: the digits end at the first `>`,
      and they spell the level back. */
  lemma HeadingHtmlInjective(l1: nat, t1: string, l2: nat, t2: string)
    requires HeadingHtml(l1, t1) == HeadingHtml(l2, t2)
    ensures l1 == l2 && t1 == t2
  {
    var d1, d2 := Decimal(l1), Decimal(l2);
    var r1, r2 := t1 + "</h" + d1 + ">", t2 + "</h" + d2 + ">";
    var h := HeadingHtml(l1, t1);
    assert h == "<h" + (d1 + ">" + r1);
    assert h == "<h" + (d2 + ">" + r2);
    assert h[2..] == d1 + ">" + r1 == d2 + ">" + r2;
    DigitsPrefix(d1, r1, d2, r2);
    DecimalRoundTrip(l1);
    DecimalRoundTrip(l2);
    assert t1 == r1[..|t1|] == r2[..|t2|] == t2;
  }

  /** The markup for a one-digit level. */
  lemma HeadingHtmlOneDigit(level: nat, text: string)
    requires 1 <= level <= 9
    ensures HeadingHtml(level, text) == "<h" + [DigitChar(level)] + ">" + text + "</h" + [DigitChar(level)] + ">"
  {
  }
}
