/**
  Character classes, prefix scanning and string helpers shared by the two
  Markdown scanners. Strings are sequences of Unicode scalar values; the
  character classes follow Go's RE2 syntax, where `\s` is the ASCII set
  `[\t\n\f\r ]`, `\d` is `[0-9]` and `.` is any character but a newline.
*/
module Text {

  datatype Option<+T> = None | Some(value: T)

  const FormFeed: char := 12 as char

  /** RE2 `\s`. */
  predicate IsSpace(c: char) {
    c == ' ' || c == '\t' || c == '\n' || c == '\r' || c == FormFeed
  }

  /** RE2 `\d`. */
  predicate IsDigit(c: char) {
    '0' <= c <= '9'
  }

  predicate IsHash(c: char) {
    c == '#'
  }

  predicate IsNotBacktick(c: char) {
    c != '`'
  }

  /** RE2 `.`: anything but a newline. */
  predicate IsNotNewline(c: char) {
    c != '\n'
  }

  /** Every character of `s` satisfies `p`. */
  predicate All(s: string, p: char -> bool) {
    forall i :: 0 <= i < |s| ==> p(s[i])
  }

  /** `s` can be matched by RE2 `.*`: it holds no newline. */
  predicate NoNewline(s: string) {
    forall i :: 0 <= i < |s| ==> s[i] != '\n'
  }

  predicate StartsWith(s: string, prefix: string) {
    |prefix| <= |s| && s[..|prefix|] == prefix
  }

  /** Length of the longest prefix of `s` whose characters all satisfy `p`
      (what a greedy `p*` consumes). */
  function Span(s: string, p: char -> bool): (n: nat)
    ensures n <= |s|
    ensures All(s[..n], p)
    ensures n < |s| ==> !p(s[n])
  {
    var n := SpanFrom(s, p, 0);
    assert forall i :: 0 <= i < n ==> s[..n][i] == s[i];
    n
  }

  /** End of the run of `p`-characters that starts at `i`. */
  function SpanFrom(s: string, p: char -> bool, i: nat): (n: nat)
    requires i <= |s|
    ensures i <= n <= |s|
    ensures forall j :: i <= j < n ==> p(s[j])
    ensures n < |s| ==> !p(s[n])
    decreases |s| - i
  {
    if i == |s| || !p(s[i]) then i else SpanFrom(s, p, i + 1)
  }

  /** Any prefix all of whose characters satisfy `p` is covered by `Span`. */
  lemma {:induction false} SpanCovers(s: string, p: char -> bool, m: nat)
    requires m <= |s| && All(s[..m], p)
    ensures m <= Span(s, p)
  {
    if m > 0 {
      assert s[0] == s[..m][0];
      assert s[1..][..m - 1] == s[..m][1..];
      SpanCovers(s[1..], p, m - 1);
    }
  }

  /** A prefix of `p`-characters followed by a non-`p` character is exactly
      what `Span` measures. */
  lemma {:induction false} SpanExact(s: string, p: char -> bool, m: nat)
    requires m <= |s| && All(s[..m], p)
    requires m < |s| ==> !p(s[m])
    ensures Span(s, p) == m
  {
    if m > 0 {
      assert s[0] == s[..m][0];
      assert s[1..][..m - 1] == s[..m][1..];
      SpanExact(s[1..], p, m - 1);
    }
  }

  function Last<T>(s: seq<T>): T
    requires |s| > 0
  {
    s[|s| - 1]
  }

  /** A non-empty sequence is its front followed by its last element. */
  lemma SplitLast<T>(s: seq<T>)
    requires |s| > 0
    ensures s == s[..|s| - 1] + [Last(s)]
  {
  }

  /** Go's strings.Join. */
  function Join(parts: seq<string>, sep: string): string {
    if |parts| == 0 then ""
    else if |parts| == 1 then parts[0]
    else Join(parts[..|parts| - 1], sep) + sep + parts[|parts| - 1]
  }

  function DigitChar(d: nat): char
    requires d < 10
  {
    ('0' as int + d) as char
  }

  /** Decimal digits of a natural number, most significant first. */
  function NatToDecimal(n: nat): (s: string)
    ensures |s| >= 1 && All(s, IsDigit)
    ensures n > 0 ==> s[0] != '0'
  {
    if n < 10 then [DigitChar(n)]
    else
      var s := NatToDecimal(n / 10) + [DigitChar(n % 10)];
      assert s[..|s| - 1] == NatToDecimal(n / 10);
      s
  }

  /** Value of a string of decimal digits. */
  function DecimalValue(s: string): nat
    requires All(s, IsDigit)
  {
    if |s| == 0 then 0
    else
      assert All(s[..|s| - 1], IsDigit) by {
        assert forall i :: 0 <= i < |s| - 1 ==> s[..|s| - 1][i] == s[i];
      }
      10 * DecimalValue(s[..|s| - 1]) + (s[|s| - 1] as int - '0' as int)
  }

  /** Go's `%d` verb on an int. */
  function IntToDecimal(n: int): (s: string)
    ensures |s| >= 1
    ensures s[0] == '-' <==> n < 0
  {
    if n < 0 then "-" + NatToDecimal(-n) else NatToDecimal(n)
  }

  /** The decimal rendering reads back as the number it renders. */
  lemma {:induction false} DecimalRoundTrip(n: nat)
    ensures DecimalValue(NatToDecimal(n)) == n
  {
    if n >= 10 {
      var s := NatToDecimal(n);
      assert s[..|s| - 1] == NatToDecimal(n / 10);
      DecimalRoundTrip(n / 10);
    }
  }
}
