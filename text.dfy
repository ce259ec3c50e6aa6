/**
 * Character and string operations the bot relies on: Python's notion of
 * whitespace (shared by `str.strip()` and the regular-expression class `\s`),
 * ASCII lower-casing, `str.strip()`, `str.split(sep)` and `str(int)`.
 */
module Text {

  /**
   * The characters for which Python's `str.isspace()` holds; `re`'s `\s` on
   * str patterns is the same class: `\t` to `\r`, `\x1c` to `\x1f`, space,
   * `\x85`, `\xa0`, `\u1680`, `\u2000` to `\u200a`, `\u2028`, `\u2029`,
   * `\u202f`, `\u205f` and `\u3000`.
   */
  predicate IsSpace(c: char) {
    if c <= ' ' then c == ' ' || '\t' <= c <= '\r' || '\U{1C}' <= c
    else if c < '\U{85}' then false
    else if c < '\U{2000}' then c == '\U{85}' || c == '\U{A0}' || c == '\U{1680}'
    else c <= '\U{200A}' || c == '\U{2028}' || c == '\U{2029}' || c == '\U{202F}' || c == '\U{205F}' || c == '\U{3000}'
  }

  predicate NoSpace(s: string) {
    forall i :: 0 <= i < |s| ==> !IsSpace(s[i])
  }

  predicate AllSpace(s: string) {
    forall i :: 0 <= i < |s| ==> IsSpace(s[i])
  }

  predicate IsUpper(c: char) {
    'A' <= c <= 'Z'
  }

  /** ASCII lower-casing of one character. */
  function ToLower(c: char): (d: char)
    ensures !IsUpper(d)
  {
    if IsUpper(c) then (c as int + 32) as char else c
  }

  /** Lower-casing neither creates nor removes whitespace. */
  lemma LowerKeepsSpace(s: string)
    ensures forall i :: 0 <= i < |s| ==> (IsSpace(Lower(s)[i]) <==> IsSpace(s[i]))
  {
  }

  /** `s.lower()`, restricted to ASCII letters. */
  function Lower(s: string): (r: string)
  {
    seq(|s|, i requires 0 <= i < |s| => ToLower(s[i]))
  }

  /** Lower-casing commutes with slicing. */
  lemma LowerSlice(s: string, a: nat, b: nat)
    requires a <= b <= |s|
    ensures Lower(s[a..b]) == Lower(s)[a..b]
  {
    forall k | 0 <= k < b - a ensures Lower(s[a..b])[k] == Lower(s)[a..b][k] {
      assert Lower(s[a..b])[k] == ToLower(s[a + k]) == Lower(s)[a + k];
    }
  }

  predicate IsLowercase(s: string) {
    forall i :: 0 <= i < |s| ==> !IsUpper(s[i])
  }

  lemma LowerIsLowercase(s: string)
    ensures IsLowercase(Lower(s))
    ensures Lower(Lower(s)) == Lower(s)
  {
  }

  lemma LowerOfLowercase(s: string)
    requires IsLowercase(s)
    ensures Lower(s) == s
  {
  }

  lemma {:induction false} LowerConcat(x: string, y: string)
    ensures Lower(x + y) == Lower(x) + Lower(y)
  {
    var l, r := Lower(x + y), Lower(x) + Lower(y);
    forall i | 0 <= i < |l| ensures l[i] == r[i] {
      if i < |x| {
        calc { l[i]; ToLower((x + y)[i]); ToLower(x[i]); Lower(x)[i]; r[i]; }
      } else {
        calc { l[i]; ToLower((x + y)[i]); ToLower(y[i - |x|]); Lower(y)[i - |x|]; r[i]; }
      }
    }
  }

  /** Number of whitespace characters at the front of `s`. */
  function LeadingSpaces(s: string): (n: nat)
    ensures n <= |s|
    ensures AllSpace(s[..n])
    ensures n < |s| ==> !IsSpace(s[n])
  {
    if s == [] || !IsSpace(s[0]) then 0
    else
      var n := 1 + LeadingSpaces(s[1..]);
      assert forall i :: 1 <= i < n ==> s[..n][i] == s[1..][..n - 1][i - 1];
      n
  }

  /** Start of the whitespace run at the back of `s`. */
  function TrailingStart(s: string): (m: nat)
    ensures m <= |s|
    ensures AllSpace(s[m..])
    ensures 0 < m ==> !IsSpace(s[m - 1])
  {
    if s == [] || !IsSpace(s[|s| - 1]) then |s|
    else
      var m := TrailingStart(s[..|s| - 1]);
      assert forall i :: m <= i < |s| - 1 ==> s[i] == s[..|s| - 1][i];
      m
  }

  lemma LeadingSpacesUnique(s: string, n: nat)
    requires n <= |s| && AllSpace(s[..n]) && (n < |s| ==> !IsSpace(s[n]))
    ensures LeadingSpaces(s) == n
  {
    var l := LeadingSpaces(s);
    PrefixSpaces(s, n);
    PrefixSpaces(s, l);
  }

  lemma TrailingStartUnique(s: string, m: nat)
    requires m <= |s| && AllSpace(s[m..]) && (0 < m ==> !IsSpace(s[m - 1]))
    ensures TrailingStart(s) == m
  {
    var t := TrailingStart(s);
    SuffixSpaces(s, m);
    SuffixSpaces(s, t);
  }

  lemma PrefixSpaces(s: string, n: nat)
    requires n <= |s| && AllSpace(s[..n])
    ensures forall i :: 0 <= i < n ==> IsSpace(s[i])
  {
    forall i | 0 <= i < n ensures IsSpace(s[i]) { assert s[..n][i] == s[i]; }
  }

  lemma SuffixSpaces(s: string, m: nat)
    requires m <= |s| && AllSpace(s[m..])
    ensures forall i :: m <= i < |s| ==> IsSpace(s[i])
  {
    forall i | m <= i < |s| ensures IsSpace(s[i]) { assert s[m..][i - m] == s[i]; }
  }

  /** `s.strip()`: `s` without its leading and trailing whitespace. */
  function Strip(s: string): (r: string)
    ensures |r| <= |s|
    ensures r == [] || (!IsSpace(r[0]) && !IsSpace(r[|r| - 1]))
    ensures r == [] <==> AllSpace(s)
  {
    var a := LeadingSpaces(s);
    if a == |s| then
      assert s[..a] == s;
      []
    else
      var b := TrailingStart(s);
      assert a < b by {
        assert forall i :: b <= i < |s| ==> s[b..][i - b] == s[i];
      }
      assert !AllSpace(s) by { assert !IsSpace(s[a]); }
      s[a..b]
  }

  /**
   * The characterisation of `strip()`: surrounding a word without outer
   * whitespace by whitespace on both sides, and stripping, gives the word back.
   */
  lemma {:induction false} StripPadded(p: string, w: string, q: string)
    requires AllSpace(p) && AllSpace(q)
    requires w == [] || (!IsSpace(w[0]) && !IsSpace(w[|w| - 1]))
    ensures Strip(p + w + q) == w
  {
    var s := p + w + q;
    if w == [] {
      assert s == p + q;
      assert AllSpace(s) by {
        forall i | 0 <= i < |s| ensures IsSpace(s[i]) {
          if i < |p| { assert s[i] == p[i]; } else { assert s[i] == q[i - |p|]; }
        }
      }
    } else {
      assert s[..|p|] == p;
      assert s[|p|] == w[0];
      LeadingSpacesUnique(s, |p|);
      assert s[|p| + |w|..] == q;
      assert s[|p| + |w| - 1] == w[|w| - 1];
      TrailingStartUnique(s, |p| + |w|);
      assert s[|p|..|p| + |w|] == w;
    }
  }

  /** `strip()` returns the slice between a whitespace prefix and a whitespace suffix. */
  lemma StripIsInfix(s: string) returns (a: nat, b: nat)
    ensures a <= b <= |s| && AllSpace(s[..a]) && AllSpace(s[b..]) && Strip(s) == s[a..b]
  {
    a := LeadingSpaces(s);
    if a == |s| {
      b := |s|;
    } else {
      b := TrailingStart(s);
      assert forall i :: b <= i < |s| ==> s[b..][i - b] == s[i];
    }
  }

  lemma StripIdempotent(s: string)
    ensures Strip(Strip(s)) == Strip(s)
  {
    var r := Strip(s);
    assert [] + r + [] == r;
    StripPadded([], r, []);
  }

  lemma StripLower(s: string)
    requires Strip(s) == s
    ensures Strip(Lower(s)) == Lower(s)
  {
    var l := Lower(s);
    LowerKeepsSpace(s);
    if s != [] {
      assert !IsSpace(l[0]) && !IsSpace(l[|l| - 1]);
    } else {
      assert l == [];
    }
    assert [] + l + [] == l;
    StripPadded([], l, []);
  }

  /** `"".join` with `sep` between the parts: the inverse of `Split`. */
  function Join(parts: seq<string>, sep: char): (s: string)
    requires |parts| >= 1
  {
    if |parts| == 1 then parts[0] else parts[0] + [sep] + Join(parts[1..], sep)
  }

  /** `s.split(sep)` for a one-character separator: always at least one part, which may be empty. */
  function Split(s: string, sep: char): (parts: seq<string>)
    ensures |parts| >= 1
    ensures forall k :: 0 <= k < |parts| ==> sep !in parts[k]
    ensures Join(parts, sep) == s
  {
    if s == [] then [[]]
    else
      var rest := Split(s[1..], sep);
      if s[0] == sep then
        assert ([[]] + rest)[1..] == rest;
        [[]] + rest
      else
        var parts := [[s[0]] + rest[0]] + rest[1..];
        assert parts[1..] == rest[1..];
        assert Join(parts, sep) == s by {
          if |rest| > 1 {
            assert rest == [rest[0]] + rest[1..];
            assert [s[0]] + rest[0] + [sep] + Join(rest[1..], sep) == [s[0]] + (rest[0] + [sep] + Join(rest[1..], sep));
          }
          assert s == [s[0]] + s[1..];
        }
        parts
  }

  lemma {:induction false} SplitPrefix(w: string, sep: char, t: string)
    requires sep !in w
    ensures Split(w + [sep] + t, sep) == [w] + Split(t, sep)
  {
    var x := w + [sep] + t;
    if w == [] {
      assert x[0] == sep && x[1..] == t;
    } else {
      SplitPrefix(w[1..], sep, t);
      assert x[0] == w[0] != sep;
      assert x[1..] == w[1..] + [sep] + t;
      var rest := Split(x[1..], sep);
      assert rest == [w[1..]] + Split(t, sep);
      assert [x[0]] + rest[0] == w;
    }
  }

  /** A separator-free string splits into itself alone. */
  lemma {:induction false} SplitSingle(w: string, sep: char)
    requires sep !in w
    ensures Split(w, sep) == [w]
  {
    if w != [] {
      SplitSingle(w[1..], sep);
      assert w[0] != sep;
      assert [w[0]] + w[1..] == w;
    }
  }

  /** The other half of the round trip: splitting a join of separator-free parts gives the parts back. */
  lemma {:induction false} SplitJoin(parts: seq<string>, sep: char)
    requires |parts| >= 1
    requires forall k :: 0 <= k < |parts| ==> sep !in parts[k]
    ensures Split(Join(parts, sep), sep) == parts
  {
    if |parts| == 1 {
      SplitSingle(parts[0], sep);
    } else {
      SplitJoin(parts[1..], sep);
      SplitPrefix(parts[0], sep, Join(parts[1..], sep));
      assert parts == [parts[0]] + parts[1..];
    }
  }

  /** A character of a join is the separator or a character of one of the parts, and conversely. */
  lemma {:induction false} JoinChars(parts: seq<string>, sep: char, c: char)
    requires |parts| >= 1
    ensures c in Join(parts, sep) <==> (c == sep && |parts| > 1) || exists k :: 0 <= k < |parts| && c in parts[k]
  {
    if |parts| > 1 {
      JoinChars(parts[1..], sep, c);
      if c in Join(parts[1..], sep) && c != sep {
        var k :| 0 <= k < |parts[1..]| && c in parts[1..][k];
        assert c in parts[k + 1];
      }
      if exists k :: 0 <= k < |parts| && c in parts[k] {
        var k :| 0 <= k < |parts| && c in parts[k];
        if k > 0 { assert c in parts[1..][k - 1]; }
      }
    }
  }

  predicate IsDigit(c: char) {
    '0' <= c <= '9'
  }

  function DigitChar(d: nat): (c: char)
    requires d < 10
    ensures IsDigit(c) && c as int - '0' as int == d
  {
    (d + '0' as int) as char
  }

  /** `str(n)` for a natural number: its decimal numeral without leading zeros. */
  function NatToDecimal(n: nat): (s: string)
    ensures |s| >= 1
    ensures forall i :: 0 <= i < |s| ==> IsDigit(s[i])
  {
    if n < 10 then [DigitChar(n)] else NatToDecimal(n / 10) + [DigitChar(n % 10)]
  }

  /** `str(n)` for any integer. */
  function IntToDecimal(n: int): (s: string) {
    if n < 0 then "-" + NatToDecimal(-n) else NatToDecimal(n)
  }

  /** The value of a string of decimal digits. */
  function DigitsValue(s: string): (v: int)
    requires forall i :: 0 <= i < |s| ==> IsDigit(s[i])
  {
    if s == [] then 0 else DigitsValue(s[..|s| - 1]) * 10 + (s[|s| - 1] as int - '0' as int)
  }

  /** `int(s)` on a numeral that `str` produces. */
  function ParseDecimal(s: string): (n: int) {
    if s != [] && s[0] == '-' && forall i :: 1 <= i < |s| ==> IsDigit(s[i]) then -DigitsValue(s[1..])
    else if forall i :: 0 <= i < |s| ==> IsDigit(s[i]) then DigitsValue(s)
    else 0
  }

  lemma {:induction false} NatToDecimalValue(n: nat)
    ensures DigitsValue(NatToDecimal(n)) == n
  {
    if n >= 10 {
      NatToDecimalValue(n / 10);
      var s := NatToDecimal(n);
      assert s[..|s| - 1] == NatToDecimal(n / 10);
    }
  }

  /** `int(str(n)) == n`: the decimal rendering of integers loses nothing. */
  lemma IntToDecimalRoundTrip(n: int)
    ensures ParseDecimal(IntToDecimal(n)) == n
  {
    if n < 0 {
      var s := IntToDecimal(n);
      NatToDecimalValue(-n);
      assert s[1..] == NatToDecimal(-n);
    } else {
      NatToDecimalValue(n);
    }
  }

  lemma IntToDecimalInjective(m: int, n: int)
    requires IntToDecimal(m) == IntToDecimal(n)
    ensures m == n
  {
    IntToDecimalRoundTrip(m);
    IntToDecimalRoundTrip(n);
  }

  /** `str` writes no leading zero: a numeral starts with `0` only for zero itself. */
  lemma {:induction false} NatToDecimalCanonical(n: nat)
    ensures NatToDecimal(n)[0] == '0' ==> n == 0
  {
    if n >= 10 {
      NatToDecimalCanonical(n / 10);
    }
  }

  /** A numeral is lower-case already and never starts with `@`. */
  lemma IntToDecimalShape(n: int)
    ensures Lower(IntToDecimal(n)) == IntToDecimal(n)
    ensures IntToDecimal(n) != [] && IntToDecimal(n)[0] != '@'
  {
    var s := IntToDecimal(n);
    assert forall i :: 0 <= i < |s| ==> IsDigit(s[i]) || s[i] == '-';
    LowerOfLowercase(s);
  }
}
