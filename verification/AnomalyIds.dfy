/** The text an anomaly id is derived from, and why no two anomalies share it. */
module AnomalyIds {

  function Digit(d: nat): char
    requires d < 10
  {
    ('0' as int + d) as char
  }

  function Digits(n: nat): string {
    if n < 10 then [Digit(n)] else Digits(n / 10) + [Digit(n % 10)]
  }

  /** An integer as Python prints it. */
  function Decimal(n: int): string {
    if n < 0 then "-" + Digits(-n) else Digits(n)
  }

  /** `distrosense/anomaly/{service}/{timestamp}/{type}`. */
  function AnomalyName(serviceId: string, timestamp: int, anomalyType: string): string {
    "distrosense/anomaly/" + serviceId + "/" + Decimal(timestamp) + "/" + anomalyType
  }

  lemma {:induction false} DigitsAreDigits(n: nat)
    ensures |Digits(n)| > 0 && forall i :: 0 <= i < |Digits(n)| ==> '0' <= Digits(n)[i] <= '9'
  {
    if n >= 10 { DigitsAreDigits(n / 10); }
  }

  lemma {:induction false} DigitsInjective(a: nat, b: nat)
    requires Digits(a) == Digits(b)
    ensures a == b
  {
    DigitsAreDigits(a / 10);
    DigitsAreDigits(b / 10);
    var s, t := Digits(a), Digits(b);
    assert s[|s| - 1] == Digit(a % 10) && t[|t| - 1] == Digit(b % 10);
    if a >= 10 && b >= 10 {
      assert s[..|s| - 1] == Digits(a / 10) && t[..|t| - 1] == Digits(b / 10);
      DigitsInjective(a / 10, b / 10);
    }
  }

  lemma SignShows(n: int)
    ensures |Decimal(n)| > 0 && (Decimal(n)[0] == '-' <==> n < 0)
    ensures n < 0 ==> Decimal(n)[1..] == Digits(-n)
  {
    DigitsAreDigits(if n < 0 then -n else n);
  }

  lemma DecimalInjective(a: int, b: int)
    requires Decimal(a) == Decimal(b)
    ensures a == b
  {
    SignShows(a);
    SignShows(b);
    if a < 0 {
      DigitsInjective(-a, -b);
    } else {
      DigitsInjective(a, b);
    }
  }

  lemma DecimalHasNoSlash(n: int)
    ensures '/' !in Decimal(n)
  {
    DigitsAreDigits(if n < 0 then -n else n);
  }

  /** The part after the last slash is determined by the text. */
  lemma LastSlash(a: string, b: string, c: string, d: string)
    requires a + "/" + b == c + "/" + d
    requires '/' !in b && '/' !in d
    ensures a == c && b == d
  {
    var s, t := a + "/" + b, c + "/" + d;
    assert forall i :: |a| < i < |s| ==> s[i] == b[i - |a| - 1] && s[i] in b;
    assert forall i :: |c| < i < |t| ==> t[i] == d[i - |c| - 1] && t[i] in d;
    assert s[|a|] == '/' && t[|c|] == '/';
    assert |a| == |c|;
    assert s[..|a|] == a && t[..|c|] == c;
    assert s[|a| + 1..] == b && t[|c| + 1..] == d;
  }

  /** Equal names only for equal service, time and type, even when service ids contain slashes. */
  lemma NameInjective(s1: string, t1: int, y1: string, s2: string, t2: int, y2: string)
    requires AnomalyName(s1, t1, y1) == AnomalyName(s2, t2, y2)
    requires '/' !in y1 && '/' !in y2
    ensures s1 == s2 && t1 == t2 && y1 == y2
  {
    var p := "distrosense/anomaly/";
    LastSlash(p + s1 + "/" + Decimal(t1), y1, p + s2 + "/" + Decimal(t2), y2);
    DecimalHasNoSlash(t1);
    DecimalHasNoSlash(t2);
    LastSlash(p + s1, Decimal(t1), p + s2, Decimal(t2));
    DecimalInjective(t1, t2);
    assert (p + s1)[|p|..] == s1 && (p + s2)[|p|..] == s2;
  }
}
