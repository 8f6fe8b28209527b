/** The PHP string primitives the booking plugin leans on: `explode` and its
    inverse `implode`, the `(int)` cast of a string, decimal formatting of
    an integer (string interpolation) and the prefix test behind an SQL
    `LIKE 'prefix%'` pattern. */
module PhpStrings {

  /** Position of the first occurrence of c in s. */
  function IndexOf(s: string, c: char): (k: nat)
    requires c in s
    ensures k < |s| && s[k] == c && c !in s[..k]
  {
    if s[0] == c then 0
    else
      var k := 1 + IndexOf(s[1..], c);
      assert s[..k] == [s[0]] + s[1..][..k - 1];
      k
  }

  /** The first separator of a + [c] + b is the one between a and b. */
  lemma IndexOfAfterPrefix(a: string, c: char, b: string)
    requires c !in a
    ensures c in a + [c] + b
    ensures IndexOf(a + [c] + b, c) == |a|
  {
    var s := a + [c] + b;
    assert s[|a|] == c;
    assert s[..|a|] == a;
  }

  /** PHP implode(sep, parts). */
  function Implode(sep: char, parts: seq<string>): string
    requires |parts| > 0
  {
    if |parts| == 1 then parts[0] else parts[0] + [sep] + Implode(sep, parts[1..])
  }

  /** PHP explode(sep, s): the pieces between separators, in order. The empty
      string yields one empty piece, and a leading separator yields a leading
      empty piece. */
  function Explode(sep: char, s: string): (parts: seq<string>)
    ensures |parts| > 0
    ensures forall i :: 0 <= i < |parts| ==> sep !in parts[i]
    ensures Implode(sep, parts) == s
    decreases |s|
  {
    if sep !in s then [s]
    else
      var k := IndexOf(s, sep);
      var rest := Explode(sep, s[k + 1..]);
      assert ([s[..k]] + rest)[1..] == rest;
      assert s == s[..k] + [sep] + s[k + 1..];
      [s[..k]] + rest
  }

  /** Exploding a + [sep] + b splits off a as the first piece. */
  lemma ExplodeAfterPrefix(sep: char, a: string, b: string)
    requires sep !in a
    ensures Explode(sep, a + [sep] + b) == [a] + Explode(sep, b)
  {
    var s := a + [sep] + b;
    IndexOfAfterPrefix(a, sep, b);
    assert s[..|a|] == a;
    assert s[|a| + 1..] == b;
  }

  /** Explode undoes Implode when no piece holds the separator. */
  lemma {:induction false} ExplodeImplode(sep: char, parts: seq<string>)
    requires |parts| > 0
    requires forall i :: 0 <= i < |parts| ==> sep !in parts[i]
    ensures Explode(sep, Implode(sep, parts)) == parts
  {
    if |parts| > 1 {
      var rest := Implode(sep, parts[1..]);
      assert Implode(sep, parts) == parts[0] + [sep] + rest;
      ExplodeAfterPrefix(sep, parts[0], rest);
      ExplodeImplode(sep, parts[1..]);
      assert parts == [parts[0]] + parts[1..];
    }
  }

  predicate IsDigit(c: char) {
    '0' <= c <= '9'
  }

  predicate AllDigits(s: string) {
    forall i :: 0 <= i < |s| ==> IsDigit(s[i])
  }

  function DigitValue(c: char): nat
    requires IsDigit(c)
  {
    (c as int) - ('0' as int)
  }

  function DigitChar(d: nat): (c: char)
    requires d < 10
    ensures IsDigit(c) && DigitValue(c) == d
  {
    (('0' as int) + d) as char
  }

  /** The whitespace PHP skips before a numeric string: space, \t, \n, \v, \f, \r. */
  predicate IsNumericWhitespace(c: char) {
    c == ' ' || 9 <= c as int <= 13
  }

  function SkipWhitespace(s: string): (t: string)
    ensures |t| <= |s| && t == s[|s| - |t|..]
    ensures |t| > 0 ==> !IsNumericWhitespace(t[0])
    ensures |s| > 0 && !IsNumericWhitespace(s[0]) ==> t == s
  {
    if |s| > 0 && IsNumericWhitespace(s[0]) then SkipWhitespace(s[1..]) else s
  }

  /** The longest prefix of s made of decimal digits. */
  function LeadingDigits(s: string): (d: string)
    ensures d <= s
    ensures AllDigits(d)
    ensures |d| < |s| ==> !IsDigit(s[|d|])
  {
    if |s| == 0 || !IsDigit(s[0]) then [] else [s[0]] + LeadingDigits(s[1..])
  }

  /** The value of a string of decimal digits, most significant first. */
  function DigitsValue(d: string): nat
    requires AllDigits(d)
  {
    if |d| == 0 then 0 else 10 * DigitsValue(d[..|d| - 1]) + DigitValue(d[|d| - 1])
  }

  /** PHP's (int) cast of a string: leading whitespace is skipped, an optional
      sign is read, then the longest run of decimal digits; a string with no
      leading digits casts to 0. */
  function IntCast(s: string): (n: int)
    ensures (forall i :: 0 <= i < |s| ==> !IsDigit(s[i])) ==> n == 0
  {
    var t := SkipWhitespace(s);
    if |t| > 0 && (t[0] == '-' || t[0] == '+') then
      var d := LeadingDigits(t[1..]);
      assert d == t[1..][..|d|];
      assert |d| > 0 ==> d[0] == s[|s| - |t| + 1];
      var v: int := DigitsValue(d);
      if t[0] == '-' then -v else v
    else
      var d := LeadingDigits(t);
      assert |d| > 0 ==> d[0] == s[|s| - |t|];
      DigitsValue(d)
  }

  /** Decimal representation of a natural number, without leading zeros. */
  function NatToString(n: nat): (s: string)
    ensures |s| > 0 && AllDigits(s)
    ensures s[0] != '0' || n == 0
    ensures DigitsValue(s) == n
  {
    if n < 10 then [DigitChar(n)]
    else
      var p := NatToString(n / 10);
      var s := p + [DigitChar(n % 10)];
      assert s[..|s| - 1] == p;
      s
  }

  /** Decimal representation of an integer, as PHP string interpolation writes it. */
  function IntToString(i: int): (s: string)
    ensures |s| > 0
    ensures '/' !in s
  {
    if i < 0 then "-" + NatToString(-i) else NatToString(i)
  }

  lemma {:induction false} LeadingDigitsOfDigits(d: string)
    requires AllDigits(d)
    ensures LeadingDigits(d) == d
  {
    if |d| > 0 {
      LeadingDigitsOfDigits(d[1..]);
      assert d == [d[0]] + d[1..];
    }
  }

  /** The (int) cast reads back what IntToString wrote. */
  lemma IntCastOfIntToString(i: int)
    ensures IntCast(IntToString(i)) == i
  {
    var s := IntToString(i);
    if i < 0 {
      var digits := NatToString(-i);
      assert SkipWhitespace(s) == s;
      assert s[1..] == digits;
      LeadingDigitsOfDigits(digits);
    } else {
      LeadingDigitsOfDigits(s);
      assert SkipWhitespace(s) == s;
    }
  }

  /** The test an SQL `LIKE 'prefix%'` pattern makes when the prefix holds
      neither `%` nor `_`. */
  predicate StartsWith(s: string, prefix: string) {
    prefix <= s
  }
}
