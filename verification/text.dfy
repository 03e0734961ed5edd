/** The Java `String` operations the backend relies on, over Dafny strings.
    A Dafny `char` is a Unicode scalar value; case mapping is ASCII only. */
module Text {
  import opened Prelude

  predicate IsDigit(c: char) {
    '0' <= c <= '9'
  }

  predicate AllDigits(s: string) {
    forall i | 0 <= i < |s| :: IsDigit(s[i])
  }

  function DigitChar(d: nat): (c: char)
    requires d < 10
    ensures IsDigit(c)
    ensures (c as int) - ('0' as int) == d
  {
    ('0' as int + d) as char
  }

  /** `String.valueOf(long)` / `Integer.toString` for a non-negative value. */
  function NatToDecimal(n: nat): (s: string)
    ensures 0 < |s|
    ensures AllDigits(s)
    decreases n
  {
    if n < 10 then [DigitChar(n)] else NatToDecimal(n / 10) + [DigitChar(n % 10)]
  }

  /** Reads a decimal numeral back; the reference against which `NatToDecimal`
      is checked. */
  function DecimalValue(s: string): nat
    requires AllDigits(s)
  {
    if |s| == 0 then 0
    else 10 * DecimalValue(s[..|s| - 1]) + ((s[|s| - 1] as int) - ('0' as int))
  }

  /** The numeral written for `n` reads back as `n`, so distinct numbers are
      written differently. */
  lemma {:induction false} DecimalRoundTrip(n: nat)
    ensures DecimalValue(NatToDecimal(n)) == n
    decreases n
  {
    var s := NatToDecimal(n);
    if n < 10 {
      assert s[..|s| - 1] == [];
    } else {
      DecimalRoundTrip(n / 10);
      assert s[..|s| - 1] == NatToDecimal(n / 10);
    }
  }

  /** `Integer.toString(int)`: a minus sign before the magnitude when negative. */
  function IntToDecimal(i: int): (s: string)
    ensures 0 < |s|
    ensures i >= 0 <==> s[0] != '-'
  {
    if i < 0 then "-" + NatToDecimal(-i) else NatToDecimal(i)
  }

  predicate StartsWith(s: string, prefix: string) {
    |prefix| <= |s| && s[..|prefix|] == prefix
  }

  predicate EndsWith(s: string, suffix: string) {
    |suffix| <= |s| && s[|s| - |suffix|..] == suffix
  }

  /** A concatenation starts with its first part and ends with its second. */
  lemma ConcatAffixes(a: string, b: string)
    ensures StartsWith(a + b, a) && EndsWith(a + b, b)
  {
    assert (a + b)[..|a|] == a;
    assert (a + b)[|a|..] == b;
  }

  /** A string that ends with `a + b` ends with `b`. */
  lemma EndsWithConcat(s: string, a: string, b: string)
    requires EndsWith(s, a + b)
    ensures EndsWith(s, b)
  {
    assert s[|s| - |b|..] == (a + b)[|a|..];
  }

  /** `String.lastIndexOf(char)`: the largest index holding `c`, or -1. */
  function LastIndexOf(s: string, c: char): (r: int)
    ensures -1 <= r < |s|
    ensures r == -1 <==> c !in s
    ensures 0 <= r ==> s[r] == c
    ensures forall j | r < j < |s| :: s[j] != c
  {
    if |s| == 0 then -1
    else if s[|s| - 1] == c then |s| - 1
    else LastIndexOf(s[..|s| - 1], c)
  }

  /** `Character.toLowerCase` restricted to ASCII letters. */
  function LowerChar(c: char): char {
    if 'A' <= c <= 'Z' then (c as int + 32) as char else c
  }

  function UpperChar(c: char): char {
    if 'a' <= c <= 'z' then (c as int - 32) as char else c
  }

  function ToLower(s: string): (r: string)
    ensures |r| == |s|
    ensures forall i | 0 <= i < |s| :: r[i] == LowerChar(s[i])
  {
    seq(|s|, i requires 0 <= i < |s| => LowerChar(s[i]))
  }

  function ToUpper(s: string): (r: string)
    ensures |r| == |s|
    ensures forall i | 0 <= i < |s| :: r[i] == UpperChar(s[i])
  {
    seq(|s|, i requires 0 <= i < |s| => UpperChar(s[i]))
  }

  /** Blank as Hibernate's `@NotBlank` judges it: `trim()` removes every
      character up to U+0020, so the string is blank when nothing else is left. */
  predicate IsBlank(s: string) {
    forall i | 0 <= i < |s| :: s[i] <= ' '
  }

  /** `String.length()` counts UTF-16 code units: a character outside the
      Basic Multilingual Plane takes two. */
  function Utf16Length(s: string): (n: nat)
    ensures |s| <= n <= 2 * |s|
  {
    if |s| == 0 then 0
    else Utf16Length(s[..|s| - 1]) + (if s[|s| - 1] as int > 0xFFFF then 2 else 1)
  }

  /** Plain ASCII text has one code unit per character. */
  lemma {:induction false} AsciiUtf16Length(s: string)
    requires IsAscii(s)
    ensures Utf16Length(s) == |s|
  {
    if |s| > 0 {
      assert IsAscii(s[..|s| - 1]);
      AsciiUtf16Length(s[..|s| - 1]);
    }
  }

  /** `Collectors.joining(sep)`. */
  function Join(parts: seq<string>, sep: string): (r: string)
    ensures parts == [] ==> r == ""
    ensures |parts| == 1 ==> r == parts[0]
  {
    if |parts| == 0 then ""
    else if |parts| == 1 then parts[0]
    else Join(parts[..|parts| - 1], sep) + sep + parts[|parts| - 1]
  }
}
