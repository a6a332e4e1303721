/**
 * Frame durations as the descriptor prints them.
 *
 * The source computes `round(delay / 1000, 4)` on an integer number of
 * milliseconds and prints the resulting float with Python's `str`. For the
 * delays modelled here (fewer than 10^15 ms, so at most 15 significant
 * digits and no exponent notation) that text is exact: the decimal integer
 * part, a dot, then the three millisecond digits with trailing zeros
 * stripped, keeping at least one digit.
 */
module Duration {
  import opened Wrappers

  /** Largest bound on a delay for which the rendering below is exact. */
  const MaxDelay: nat := 1_000_000_000_000_000

  /** A frame delay in milliseconds. */
  type Millis = d: nat | d < MaxDelay

  predicate IsDigit(c: char) { '0' <= c <= '9' }

  predicate AllDigits(s: string) { forall i | 0 <= i < |s| :: IsDigit(s[i]) }

  function DigitChar(n: nat): (c: char)
    requires n < 10
    ensures IsDigit(c)
  {
    ('0' as int + n) as char
  }

  function DigitValue(c: char): (n: nat)
    requires IsDigit(c)
    ensures n < 10 && DigitChar(n) == c
  {
    (c as int - '0' as int) as nat
  }

  /** Decimal text of a natural number, as Python's `str(int)` writes it: no
      leading zero, except for zero itself. */
  function NatText(n: nat): (s: string)
    ensures |s| > 0 && AllDigits(s)
    ensures s[0] == '0' <==> n == 0
    ensures s[0] == '0' ==> |s| == 1
  {
    if n < 10 then [DigitChar(n)] else NatText(n / 10) + [DigitChar(n % 10)]
  }

  /** Value of a non-empty digit string. */
  function ParseNat(s: string): nat
    requires |s| > 0 && AllDigits(s)
  {
    if |s| == 1 then DigitValue(s[0])
    else ParseNat(s[..|s| - 1]) * 10 + DigitValue(s[|s| - 1])
  }

  /** The millisecond fraction `f` written after the dot: three digits with
      trailing zeros stripped, or `0` when `f` is zero. */
  function FracText(f: nat): (s: string)
    requires f < 1000
  {
    if f == 0 then "0"
    else if f % 100 == 0 then [DigitChar(f / 100)]
    else if f % 10 == 0 then [DigitChar(f / 100), DigitChar(f / 10 % 10)]
    else [DigitChar(f / 100), DigitChar(f / 10 % 10), DigitChar(f % 10)]
  }

  /** `str(round(d / 1000, 4))` for a delay of `d` milliseconds. */
  function Seconds(d: Millis): (s: string)
    ensures |s| >= 3
    ensures forall i | 0 <= i < |s| :: IsDigit(s[i]) || s[i] == '.'
    ensures s[|s| - 1] != '0' || s[|s| - 2] == '.'
    ensures s[0] == '0' ==> s[1] == '.'
  {
    NatText(d / 1000) + "." + FracText(d % 1000)
  }

  function Pow10(k: nat): (p: nat)
    ensures p >= 1
  {
    if k == 0 then 1 else 10 * Pow10(k - 1)
  }

  /** Index of the first occurrence of `c` in `s`, if any. */
  function IndexOf(s: string, c: char): (r: Option<nat>)
    ensures r.Some? ==> r.value < |s| && s[r.value] == c
    ensures r.Some? ==> forall i | 0 <= i < r.value :: s[i] != c
    ensures r.None? ==> forall i | 0 <= i < |s| :: s[i] != c
  {
    if |s| == 0 then None
    else if s[0] == c then Some(0)
    else match IndexOf(s[1..], c)
      case None => None
      case Some(k) => Some(k + 1)
  }

  /** Reads a duration text back as whole milliseconds: digits, a dot, and one
      to three fraction digits. The inverse of `Seconds`. */
  function ParseSeconds(t: string): Option<nat>
  {
    match IndexOf(t, '.')
    case None => None
    case Some(k) =>
      var a, b := t[..k], t[k + 1..];
      if |a| == 0 || |b| == 0 || |b| > 3 || !AllDigits(a) || !AllDigits(b) then None
      else Some(DecimalMillis(a, b))
  }

  /** Milliseconds denoted by integer digits `a` and fraction digits `b`. */
  function DecimalMillis(a: string, b: string): nat
    requires |a| > 0 && AllDigits(a)
    requires 1 <= |b| <= 3 && AllDigits(b)
  {
    ParseNat(a) * 1000 + ParseNat(b) * Pow10(3 - |b|)
  }

  lemma {:induction false} IndexOfAfter(a: string, c: char, b: string)
    requires forall i | 0 <= i < |a| :: a[i] != c
    ensures IndexOf(a + [c] + b, c) == Some(|a|)
  {
    if |a| > 0 {
      assert (a + [c] + b)[1..] == a[1..] + [c] + b;
      IndexOfAfter(a[1..], c, b);
    }
  }

  lemma {:induction false} ParseNatText(n: nat)
    ensures ParseNat(NatText(n)) == n
  {
    if n >= 10 {
      var s := NatText(n);
      assert s[..|s| - 1] == NatText(n / 10);
      ParseNatText(n / 10);
    }
  }

  lemma ParseTwoDigits(x: nat, y: nat)
    requires x < 10 && y < 10
    ensures ParseNat([DigitChar(x), DigitChar(y)]) == 10 * x + y
  {
    assert [DigitChar(x), DigitChar(y)][..1] == [DigitChar(x)];
  }

  lemma ParseThreeDigits(x: nat, y: nat, z: nat)
    requires x < 10 && y < 10 && z < 10
    ensures ParseNat([DigitChar(x), DigitChar(y), DigitChar(z)]) == 100 * x + 10 * y + z
  {
    assert [DigitChar(x), DigitChar(y), DigitChar(z)][..2] == [DigitChar(x), DigitChar(y)];
    ParseTwoDigits(x, y);
  }

  lemma ParseFracText(f: nat)
    requires f < 1000
    ensures var s := FracText(f); 1 <= |s| <= 3 && AllDigits(s) && ParseNat(s) * Pow10(3 - |s|) == f
  {
    var x, y, z := f / 100, f / 10 % 10, f % 10;
    assert f == 100 * x + 10 * y + z;
    var s := FracText(f);
    if f == 0 {
      assert s == [DigitChar(0)];
      assert ParseNat(s) == 0;
    } else if f % 100 == 0 {
      assert y == 0 && z == 0;
      assert s == [DigitChar(x)];
      assert ParseNat(s) == x;
      assert Pow10(3 - |s|) == 100 by { assert Pow10(1) == 10; }
    } else if f % 10 == 0 {
      assert z == 0;
      assert s == [DigitChar(x), DigitChar(y)];
      ParseTwoDigits(x, y);
      assert Pow10(3 - |s|) == 10;
    } else {
      assert s == [DigitChar(x), DigitChar(y), DigitChar(z)];
      ParseThreeDigits(x, y, z);
      assert Pow10(3 - |s|) == 1;
    }
  }

  /** Round trip: the printed duration reads back as the delay. */
  lemma SecondsRoundTrip(d: Millis)
    ensures ParseSeconds(Seconds(d)) == Some(d)
  {
    var q, r := d / 1000, d % 1000;
    var a, b := NatText(q), FracText(r);
    ParseNatText(q);
    ParseFracText(r);
    ParseDecimal(a, b);
    assert Seconds(d) == a + "." + b;
    assert DecimalMillis(a, b) == q * 1000 + r;
  }

  /** Reading `a.b` splits at the dot, since `a` holds only digits. */
  lemma ParseDecimal(a: string, b: string)
    requires |a| > 0 && AllDigits(a)
    requires 1 <= |b| <= 3 && AllDigits(b)
    ensures ParseSeconds(a + "." + b) == Some(DecimalMillis(a, b))
  {
    var s := a + "." + b;
    IndexOfAfter(a, '.', b);
    assert s[..|a|] == a;
    assert s[|a| + 1..] == b;
  }

  /** Distinct delays print as distinct durations. */
  lemma SecondsInjective(d1: Millis, d2: Millis)
    ensures Seconds(d1) == Seconds(d2) <==> d1 == d2
  {
    SecondsRoundTrip(d1);
    SecondsRoundTrip(d2);
  }

  /** The renderings the source relies on. */
  lemma SecondsExamples()
    ensures Seconds(100) == "0.1" && Seconds(200) == "0.2"
    ensures Seconds(1000) == "1.0" && Seconds(1) == "0.001" && Seconds(0) == "0.0"
  {
  }
}
