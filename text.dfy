/** The handful of Python string operations the model needs, on `seq<char>`. */
module Text {

  /** `c.isspace()`: the characters Python's `str.strip()` removes. */
  predicate IsSpace(c: char) {
    c == ' ' || ('\t' <= c <= '\r') || ('\U{1c}' <= c <= '\U{1f}') || c == '\U{85}' || c == '\U{a0}'
    || c == '\U{1680}' || ('\U{2000}' <= c <= '\U{200a}') || c == '\U{2028}' || c == '\U{2029}'
    || c == '\U{202f}' || c == '\U{205f}' || c == '\U{3000}'
  }

  /** No leading and no trailing whitespace: what `s.strip()` produces. */
  predicate IsStripped(s: string) {
    s == [] || (!IsSpace(s[0]) && !IsSpace(s[|s| - 1]))
  }

  function StripLeft(s: string): (r: string)
    ensures |r| <= |s|
    ensures r == [] || !IsSpace(r[0])
  {
    if s != [] && IsSpace(s[0]) then StripLeft(s[1..]) else s
  }

  function StripRight(s: string): (r: string)
    ensures |r| <= |s| && (r != [] ==> r[0] == s[0])
    ensures r == [] || !IsSpace(r[|r| - 1])
  {
    if s != [] && IsSpace(s[|s| - 1]) then StripRight(s[..|s| - 1]) else s
  }

  /** `s.strip()`. */
  function Strip(s: string): (r: string)
    ensures IsStripped(r)
  {
    var l := StripLeft(s);
    var r := StripRight(l);
    assert r != [] ==> r[0] == l[0];
    r
  }

  /** Stripping a string that is already stripped changes nothing. */
  lemma StripStripped(s: string)
    requires IsStripped(s)
    ensures Strip(s) == s
  {
  }

  /** A leading blank is removed by `strip()`. */
  lemma StripLeadingBlank(s: string)
    ensures Strip([' '] + s) == Strip(s)
  {
    assert ([' '] + s)[1..] == s;
  }

  /** `s.split(sep)` for a one-character separator: always at least one piece. */
  function Split(s: string, sep: char): (r: seq<string>)
    ensures |r| >= 1
  {
    if s == [] then [[]]
    else
      var rest := Split(s[1..], sep);
      if s[0] == sep then [[]] + rest else [[s[0]] + rest[0]] + rest[1..]
  }

  /** A string without the separator splits into itself. */
  lemma {:induction false} SplitNoSep(s: string, sep: char)
    requires sep !in s
    ensures Split(s, sep) == [s]
  {
    if s != [] {
      SplitNoSep(s[1..], sep);
      assert [s[0]] + s[1..] == s;
    }
  }

  /** Splitting at the first separator: the piece before it, then the pieces of the rest. */
  lemma {:induction false} SplitAtSep(a: string, sep: char, b: string)
    requires sep !in a
    ensures Split(a + [sep] + b, sep) == [a] + Split(b, sep)
  {
    if a == [] {
      assert (a + [sep] + b)[1..] == b;
    } else {
      assert (a + [sep] + b)[1..] == a[1..] + [sep] + b;
      SplitAtSep(a[1..], sep, b);
      assert [a[0]] + a[1..] == a;
    }
  }

  /** `sep.join(parts)`. */
  function Join(parts: seq<string>, sep: string): string {
    if parts == [] then []
    else if |parts| == 1 then parts[0]
    else parts[0] + sep + Join(parts[1..], sep)
  }

  /** `s.startswith(p)`. */
  predicate StartsWith(s: string, p: string) {
    |p| <= |s| && s[..|p|] == p
  }

  /** `s.endswith(p)`. */
  predicate EndsWith(s: string, p: string) {
    |p| <= |s| && s[|s| - |p|..] == p
  }

  /** `sub in s`. */
  predicate Contains(s: string, sub: string)
    decreases |s|
  {
    StartsWith(s, sub) || (s != [] && Contains(s[1..], sub))
  }

  /** `s[:n]`. */
  function Take(s: string, n: nat): (r: string)
    ensures |r| == if |s| <= n then |s| else n
    ensures r == s[..|r|]
  {
    if |s| <= n then s else s[..n]
  }

  /** The text after the first occurrence of `c`: `s.split(c, 1)[1]`. */
  function AfterFirst(s: string, c: char): (r: string)
    requires c in s
    ensures |r| < |s| && r == s[|s| - |r|..]
    ensures s[|s| - |r| - 1] == c && c !in s[..|s| - |r| - 1]
  {
    if s[0] == c then s[1..] else AfterFirst(s[1..], c)
  }

  /** `s.replace(a, b)` for single characters. */
  function ReplaceChar(s: string, a: char, b: char): (r: string)
    ensures |r| == |s|
    ensures forall i :: 0 <= i < |s| ==> r[i] == if s[i] == a then b else s[i]
  {
    seq(|s|, i requires 0 <= i < |s| => if s[i] == a then b else s[i])
  }

  /** `c.lower()` on ASCII letters; other characters are left alone. */
  function LowerChar(c: char): char {
    if 'A' <= c <= 'Z' then (c as int + 32) as char else c
  }

  function UpperChar(c: char): char {
    if 'a' <= c <= 'z' then (c as int - 32) as char else c
  }

  predicate IsLetter(c: char) {
    ('a' <= c <= 'z') || ('A' <= c <= 'Z')
  }

  /** `s.lower()`. */
  function Lower(s: string): (r: string)
    ensures |r| == |s|
    ensures forall i :: 0 <= i < |s| ==> r[i] == LowerChar(s[i])
  {
    seq(|s|, i requires 0 <= i < |s| => LowerChar(s[i]))
  }

  /** Lower-casing twice is lower-casing once. */
  lemma LowerIdempotent(s: string)
    ensures Lower(Lower(s)) == Lower(s)
  {
  }

  /** `s.title()`: a letter is upper-cased when it starts a word and lower-cased otherwise. */
  function TitleCase(s: string): (r: string)
    ensures |r| == |s|
  {
    seq(|s|, i requires 0 <= i < |s| =>
      if i == 0 || !IsLetter(s[i - 1]) then UpperChar(s[i]) else LowerChar(s[i]))
  }

  /** `c * n`. */
  function Repeat(c: char, n: nat): (r: string)
    ensures |r| == n && forall i :: 0 <= i < n ==> r[i] == c
  {
    seq(n, _ => c)
  }

  /** Python's `<` on strings: code point by code point, a proper prefix first. */
  predicate LexLess(a: string, b: string) {
    if a == [] then b != []
    else if b == [] then false
    else if a[0] != b[0] then a[0] < b[0]
    else LexLess(a[1..], b[1..])
  }

  lemma {:induction false} LexLessIrreflexive(a: string)
    ensures !LexLess(a, a)
  {
    if a != [] { LexLessIrreflexive(a[1..]); }
  }

  lemma {:induction false} LexLessTransitive(a: string, b: string, c: string)
    requires LexLess(a, b) && LexLess(b, c)
    ensures LexLess(a, c)
  {
    if a != [] && b != [] && c != [] && a[0] == b[0] && b[0] == c[0] {
      LexLessTransitive(a[1..], b[1..], c[1..]);
    }
  }

  lemma {:induction false} LexLessTotal(a: string, b: string)
    ensures a == b || LexLess(a, b) || LexLess(b, a)
  {
    if a != [] && b != [] && a[0] == b[0] {
      LexLessTotal(a[1..], b[1..]);
      if a[1..] == b[1..] {
        assert a == [a[0]] + a[1..] && b == [b[0]] + b[1..];
      }
    }
  }

  /** `str(n)` for an integer. */
  function DecimalText(n: int): (r: string)
    ensures r != []
    decreases if n < 0 then -n + 1 else n
  {
    if n < 0 then "-" + DecimalText(-n)
    else if n < 10 then [(48 + n) as char]
    else DecimalText(n / 10) + [(48 + n % 10) as char]
  }

  predicate IsDigit(c: char) {
    '0' <= c <= '9'
  }

  /** The text of a non-negative number is all digits, and has two or more of them from 10 on. */
  lemma {:induction false} DecimalTextDigits(n: int)
    requires n >= 0
    ensures forall i :: 0 <= i < |DecimalText(n)| ==> IsDigit(DecimalText(n)[i])
    ensures (n < 10) == (|DecimalText(n)| == 1)
    ensures DecimalText(n)[0] != '-'
  {
    if n >= 10 {
      DecimalTextDigits(n / 10);
    }
  }

  /** Distinct numbers have distinct texts, so `str(a) == str(b)` exactly when `a == b`. */
  lemma {:induction false} DecimalTextInjective(a: int, b: int)
    requires DecimalText(a) == DecimalText(b)
    ensures a == b
    decreases if a < 0 then -a + 1 else a
  {
    if a < 0 && b < 0 {
      assert DecimalText(-a) == DecimalText(a)[1..] == DecimalText(b)[1..] == DecimalText(-b);
      DecimalTextInjective(-a, -b);
    } else if a < 0 {
      DecimalTextDigits(b);
      assert false;
    } else if b < 0 {
      DecimalTextDigits(a);
      assert false;
    } else {
      DecimalTextDigits(a);
      DecimalTextDigits(b);
      if a >= 10 && b >= 10 {
        var ta, tb := DecimalText(a), DecimalText(b);
        assert ta[..|ta| - 1] == DecimalText(a / 10) && tb[..|tb| - 1] == DecimalText(b / 10);
        DecimalTextInjective(a / 10, b / 10);
        assert ta[|ta| - 1] == tb[|tb| - 1];
      }
    }
  }
}
