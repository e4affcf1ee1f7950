/** Strings: decimal printing and reading, maximal runs of a character class, prefixes. */
module Text {

  predicate IsDigit(c: char) { '0' <= c <= '9' }

  /** The characters of Unicode's White_Space property, which the source trims. */
  predicate IsWhitespace(c: char) {
    || '\U{9}' <= c <= '\U{D}' || c == ' ' || c == '\U{85}' || c == '\U{A0}' || c == '\U{1680}'
    || '\U{2000}' <= c <= '\U{200A}'
    || c == '\U{2028}' || c == '\U{2029}' || c == '\U{202F}' || c == '\U{205F}' || c == '\U{3000}'
  }

  function TrimStart(s: string): (r: string)
    ensures |r| <= |s| && (r != "" ==> !IsWhitespace(r[0]))
  {
    if s != "" && IsWhitespace(s[0]) then TrimStart(s[1..]) else s
  }

  function TrimEnd(s: string): (r: string)
    ensures |r| <= |s| && (r != "" ==> !IsWhitespace(r[|r| - 1]) && r[0] == s[0])
  {
    if s != "" && IsWhitespace(s[|s| - 1]) then TrimEnd(s[..|s| - 1]) else s
  }

  /** Trimming stops at the last character that is not white space. */
  lemma {:induction false} TrimEndKeeps(t: string, k: nat)
    requires k < |t| && !IsWhitespace(t[k])
    ensures k < |TrimEnd(t)| && TrimEnd(t)[k] == t[k]
  {
    if IsWhitespace(t[|t| - 1]) {
      TrimEndKeeps(t[..|t| - 1], k);
    }
  }

  /** The text without white space at either end. */
  function Trim(s: string): (r: string) {
    TrimEnd(TrimStart(s))
  }

  predicate AllDigits(s: string) {
    forall i | 0 <= i < |s| :: IsDigit(s[i])
  }

  function DigitValue(c: char): nat
    requires IsDigit(c)
  {
    c as int - '0' as int
  }

  function DigitChar(n: nat): char
    requires n < 10
  {
    ('0' as int + n) as char
  }

  /** The decimal text of a number, as the source's `{}` formatting prints it. */
  function Decimal(n: nat): (s: string)
    ensures s != "" && AllDigits(s)
    ensures |s| > 1 ==> s[0] != '0'
  {
    if n < 10 then [DigitChar(n)] else Decimal(n / 10) + [DigitChar(n % 10)]
  }

  /** The number a run of digits stands for; leading zeros are allowed. */
  function DecimalValue(s: string): nat
    requires AllDigits(s)
  {
    if s == "" then 0 else 10 * DecimalValue(s[..|s| - 1]) + DigitValue(s[|s| - 1])
  }

  lemma {:induction false} DecimalRoundTrip(n: nat)
    ensures DecimalValue(Decimal(n)) == n
  {
    if n >= 10 {
      DecimalRoundTrip(n / 10);
      var s := Decimal(n);
      assert s[..|s| - 1] == Decimal(n / 10);
    }
  }

  lemma DecimalInjective(m: nat, n: nat)
    requires Decimal(m) == Decimal(n)
    ensures m == n
  {
    DecimalRoundTrip(m);
    DecimalRoundTrip(n);
  }

  /** The length of the longest prefix of `s` made of characters satisfying `p`. */
  function Span(s: string, p: char -> bool): (n: nat)
    ensures n <= |s|
    ensures forall i | 0 <= i < n :: p(s[i])
    ensures n < |s| ==> !p(s[n])
  {
    if s == "" || !p(s[0]) then 0 else 1 + Span(s[1..], p)
  }

  /** A run of `p`-characters is cut exactly where the run ends. */
  lemma SpanOfRun(run: string, rest: string, p: char -> bool)
    requires forall i | 0 <= i < |run| :: p(run[i])
    requires rest == "" || !p(rest[0])
    ensures Span(run + rest, p) == |run|
    ensures (run + rest)[..|run|] == run && (run + rest)[|run|..] == rest
  {
    assert forall i | 0 <= i < |run| :: (run + rest)[i] == run[i];
    assert rest != "" ==> (run + rest)[|run|] == rest[0];
  }
}
