/**
 * String helpers with Python's meaning: `str.strip`, `str.lower` (on ASCII letters),
 * `str(n)` of a natural number, the `{n:04d}` format, slicing and `split(c)[0]`.
 */
module Text {

  /** Python's `str.isspace()`: the characters `str.strip()` removes by default. */
  predicate IsSpace(c: char) {
    c == ' ' || ('\t' <= c <= '\r') || ('\U{1C}' <= c <= '\U{1F}') || c == '\U{85}' || c == '\U{A0}'
    || c == '\U{1680}' || ('\U{2000}' <= c <= '\U{200A}') || c == '\U{2028}' || c == '\U{2029}'
    || c == '\U{202F}' || c == '\U{205F}' || c == '\U{3000}'
  }

  predicate IsSlash(c: char) { c == '/' }

  /** The number of leading characters of `s` that `drop` accepts. */
  function LeadingRun(s: string, drop: char -> bool): (n: nat)
    ensures n <= |s|
    ensures forall k | 0 <= k < n :: drop(s[k])
    ensures n < |s| ==> !drop(s[n])
  {
    if |s| > 0 && drop(s[0]) then 1 + LeadingRun(s[1..], drop) else 0
  }

  /** The number of trailing characters of `s` that `drop` accepts. */
  function TrailingRun(s: string, drop: char -> bool): (n: nat)
    ensures n <= |s|
    ensures forall k | |s| - n <= k < |s| :: drop(s[k])
    ensures n < |s| ==> !drop(s[|s| - n - 1])
  {
    if |s| > 0 && drop(s[|s| - 1]) then 1 + TrailingRun(s[..|s| - 1], drop) else 0
  }

  /**
   * Python's `s.strip(chars)`: `s` without its leading and trailing characters
   * accepted by `drop`.
   */
  function Strip(s: string, drop: char -> bool): (r: string)
    ensures |r| <= |s|
    ensures r == [] <==> forall k | 0 <= k < |s| :: drop(s[k])
    ensures r != [] ==> !drop(r[0]) && !drop(r[|r| - 1])
    ensures var i := LeadingRun(s, drop);
              i + |r| <= |s| && r == s[i..i + |r|] && forall k | i + |r| <= k < |s| :: drop(s[k])
  {
    var i := LeadingRun(s, drop);
    var t := s[i..];
    var j := TrailingRun(t, drop);
    assert forall k | 0 <= k < |t| - j :: s[i + k] == t[k];
    t[..|t| - j]
  }

  /** A string whose ends are both kept is its own strip. */
  lemma StripKeepsEnds(s: string, drop: char -> bool)
    requires s != [] && !drop(s[0]) && !drop(s[|s| - 1])
    ensures Strip(s, drop) == s
  {
    assert LeadingRun(s, drop) == 0;
  }

  /** Python's `s.strip()`. */
  function Trim(s: string): (r: string)
    ensures r == [] <==> forall k | 0 <= k < |s| :: IsSpace(s[k])
    ensures r != [] ==> !IsSpace(r[0]) && !IsSpace(r[|r| - 1])
  {
    Strip(s, IsSpace)
  }

  function LowerChar(c: char): char {
    if 'A' <= c <= 'Z' then (c as int + 32) as char else c
  }

  /** Python's `s.lower()`, on the ASCII letters. */
  function Lower(s: string): (r: string)
    ensures |r| == |s|
    ensures forall k | 0 <= k < |s| :: r[k] == LowerChar(s[k])
  {
    seq(|s|, k requires 0 <= k < |s| => LowerChar(s[k]))
  }

  /** Django's `__iexact` comparison. */
  predicate SameIgnoringCase(a: string, b: string) {
    Lower(a) == Lower(b)
  }

  /** `__iexact` is an equivalence: equal strings match, and matching is symmetric and transitive. */
  lemma SameIgnoringCaseEquivalence(a: string, b: string, c: string)
    ensures SameIgnoringCase(a, a)
    ensures SameIgnoringCase(a, b) ==> SameIgnoringCase(b, a)
    ensures SameIgnoringCase(a, b) && SameIgnoringCase(b, c) ==> SameIgnoringCase(a, c)
  {
  }

  /** Strings of different lengths never match ignoring case, and ASCII letters match their lower case. */
  lemma SameIgnoringCaseLower(a: string, b: string)
    ensures |a| != |b| ==> !SameIgnoringCase(a, b)
    ensures SameIgnoringCase(a, Lower(a))
  {
    LowerIdempotent(a);
  }

  lemma LowerIdempotent(s: string)
    ensures Lower(Lower(s)) == Lower(s)
  {
  }

  predicate IsDigit(c: char) { '0' <= c <= '9' }

  predicate AllDigits(s: string) {
    forall k | 0 <= k < |s| :: IsDigit(s[k])
  }

  function DigitChar(d: nat): (c: char)
    requires d < 10
    ensures IsDigit(c)
  {
    ('0' as int + d) as char
  }

  function DigitValue(c: char): (d: nat)
    requires IsDigit(c)
    ensures d < 10
  {
    c as int - '0' as int
  }

  /** Python's `str(n)` for a natural number: decimal digits, no leading zero. */
  function NatStr(n: nat): (s: string)
    ensures |s| >= 1 && AllDigits(s)
    ensures n >= 10 ==> |s| >= 2
    decreases n
  {
    if n < 10 then [DigitChar(n)] else NatStr(n / 10) + [DigitChar(n % 10)]
  }

  /** `str(n)` has no leading zero: it is "0" for 0 and starts with a non-zero digit otherwise. */
  lemma {:induction false} NatStrNoLeadingZero(n: nat)
    ensures n == 0 ==> NatStr(n) == "0"
    ensures n > 0 ==> NatStr(n)[0] != '0'
    decreases n
  {
    if n >= 10 {
      NatStrNoLeadingZero(n / 10);
      assert NatStr(n)[0] == NatStr(n / 10)[0];
    }
  }

  /** The value of a string of decimal digits (leading zeros allowed). */
  function ParseDecimal(s: string): nat
    requires AllDigits(s)
  {
    if s == [] then 0 else ParseDecimal(s[..|s| - 1]) * 10 + DigitValue(s[|s| - 1])
  }

  /** `str(n)` parses back to `n`. */
  lemma {:induction false} ParseNatStr(n: nat)
    ensures ParseDecimal(NatStr(n)) == n
    decreases n
  {
    if n >= 10 {
      var s := NatStr(n / 10);
      ParseNatStr(n / 10);
      assert (s + [DigitChar(n % 10)])[..|s|] == s;
    }
  }

  /** Different numbers have different decimal strings. */
  lemma NatStrInjective(m: nat, n: nat)
    requires NatStr(m) == NatStr(n)
    ensures m == n
  {
    ParseNatStr(m);
    ParseNatStr(n);
  }

  function Zeros(k: nat): (z: string)
    ensures |z| == k && AllDigits(z)
    ensures forall i | 0 <= i < k :: z[i] == '0'
  {
    if k == 0 then [] else Zeros(k - 1) + ['0']
  }

  /** Python's `f"{n:04d}"`: `str(n)` left-padded with zeros to at least four characters. */
  function Pad4(n: nat): (s: string)
    ensures AllDigits(s)
  {
    var d := NatStr(n);
    if |d| < 4 then Zeros(4 - |d|) + d else d
  }

  lemma {:induction false} ParseZeros(k: nat)
    ensures ParseDecimal(Zeros(k)) == 0
  {
    if k > 0 {
      assert (Zeros(k - 1) + ['0'])[..k - 1] == Zeros(k - 1);
      ParseZeros(k - 1);
    }
  }

  /** Leading zeros do not change the value of a digit string. */
  lemma {:induction false} ParseLeadingZeros(k: nat, s: string)
    requires AllDigits(s)
    ensures AllDigits(Zeros(k) + s) && ParseDecimal(Zeros(k) + s) == ParseDecimal(s)
    decreases |s|
  {
    var z := Zeros(k);
    if s == [] {
      assert z + s == z;
      ParseZeros(k);
    } else {
      var init := s[..|s| - 1];
      ParseLeadingZeros(k, init);
      assert (z + s)[..|z + s| - 1] == z + init;
    }
  }

  /** Smallest numbers are below 10^|str(n)|. */
  lemma {:induction false} NatStrLength(n: nat)
    ensures n < 10 ==> |NatStr(n)| == 1
    ensures n < 100 ==> |NatStr(n)| <= 2
    ensures n < 1000 ==> |NatStr(n)| <= 3
    ensures n < 10000 ==> |NatStr(n)| <= 4
    decreases n
  {
    if n >= 10 {
      NatStrLength(n / 10);
    }
  }

  /**
   * The page-number field: for 0 <= n <= 9999 it has exactly four digits, and for
   * every n it parses back to n.
   */
  lemma Pad4RoundTrip(n: nat)
    ensures n <= 9999 ==> |Pad4(n)| == 4
    ensures |Pad4(n)| >= 4
    ensures ParseDecimal(Pad4(n)) == n
  {
    NatStrLength(n);
    ParseNatStr(n);
    var d := NatStr(n);
    if |d| < 4 {
      ParseLeadingZeros(4 - |d|, d);
    }
  }

  lemma Pad4Injective(m: nat, n: nat)
    requires Pad4(m) == Pad4(n)
    ensures m == n
  {
    Pad4RoundTrip(m);
    Pad4RoundTrip(n);
  }

  /** Python's `s[:n]`. */
  function Take(s: string, n: nat): (r: string)
    ensures |r| <= n && |r| <= |s|
    ensures r == s[..|r|]
    ensures |s| <= n ==> r == s
    ensures |s| > n ==> |r| == n
  {
    if |s| <= n then s else s[..n]
  }

  /** Python's `s.split(c)[0]`: everything before the first `c`, or all of `s`. */
  function BeforeFirst(s: string, c: char): (r: string)
    ensures c !in r
    ensures |r| <= |s| && r == s[..|r|]
    ensures |r| < |s| ==> s[|r|] == c
  {
    if s == [] then [] else if s[0] == c then [] else [s[0]] + BeforeFirst(s[1..], c)
  }
}
