/** The parts of the JavaScript string runtime that the index builder and the
    viewer rely on: character classes of regular expressions, `trim`,
    `toLowerCase`, `split`, `String(n)`, `Number(s)` and the `<` order on
    strings. Strings are sequences of characters. */
module Strings {

  datatype Option<T> = None | Some(value: T)

  /** `\d` */
  predicate IsDigit(c: char) { '0' <= c <= '9' }

  /** `\w` outside Unicode mode. */
  predicate IsWordChar(c: char) { 'a' <= c <= 'z' || 'A' <= c <= 'Z' || IsDigit(c) || c == '_' }

  /** The line terminators, which `.` does not match. */
  predicate IsLineTerminator(c: char) { c == '\n' || c == '\r' || c == '\U{2028}' || c == '\U{2029}' }

  /** White space and line terminators: what `\s` matches and `trim` removes. */
  predicate IsSpace(c: char) {
    c in SpaceChars || ('\U{2000}' <= c <= '\U{200A}')
  }

  const SpaceChars: set<char> :=
    {'\t', '\U{B}', '\U{C}', ' ', '\U{A0}', '\U{FEFF}', '\U{1680}', '\U{202F}', '\U{205F}', '\U{3000}',
     '\n', '\r', '\U{2028}', '\U{2029}'}

  predicate NoSpace(s: string) { forall k :: 0 <= k < |s| ==> !IsSpace(s[k]) }

  predicate AllSpace(s: string) { forall k :: 0 <= k < |s| ==> IsSpace(s[k]) }

  /** `a || b` for a value that may be missing: a missing or empty string is falsy. */
  function Or(a: Option<string>, b: string): (r: string)
    ensures a.Some? && a.value != "" ==> r == a.value
    ensures (a.None? || a.value == "") ==> r == b
  {
    if a.Some? && a.value != "" then a.value else b
  }

  // ---------------------------------------------------------------- trim

  /** How many characters `trim` drops at the front: the index of the first
      character that is not white space, or `|s|`. */
  function TrimOffset(s: string, i: nat := 0): (n: nat)
    requires i <= |s|
    requires forall k :: 0 <= k < i ==> IsSpace(s[k])
    decreases |s| - i
    ensures i <= n <= |s|
    ensures forall k :: 0 <= k < n ==> IsSpace(s[k])
    ensures n < |s| ==> !IsSpace(s[n])
  {
    if i < |s| && IsSpace(s[i]) then TrimOffset(s, i + 1) else i
  }

  /** Where `trim` cuts at the back: one past the last character at or
      after `lo` that is not white space, or `lo`. */
  function TrimLimit(s: string, lo: nat, j: nat): (m: nat)
    requires lo <= j <= |s|
    requires forall k :: j <= k < |s| ==> IsSpace(s[k])
    decreases j
    ensures lo <= m <= j
    ensures forall k :: m <= k < |s| ==> IsSpace(s[k])
    ensures m > lo ==> !IsSpace(s[m - 1])
  {
    if j > lo && IsSpace(s[j - 1]) then TrimLimit(s, lo, j - 1) else j
  }

  /** `String.prototype.trim`: the longest infix that neither starts nor ends
      with white space, obtained by dropping only white space. */
  function Trim(s: string): (r: string)
    ensures r == [] || (!IsSpace(r[0]) && !IsSpace(r[|r| - 1]))
    ensures NoSpace(s) ==> r == s
    ensures r == [] <==> AllSpace(s)
    ensures TrimOffset(s) + |r| <= |s| && r == s[TrimOffset(s)..TrimOffset(s) + |r|]
  {
    var o := TrimOffset(s);
    var m := TrimLimit(s, o, |s|);
    s[o..m]
  }

  // ---------------------------------------------------------- lower case

  /** `toLowerCase` for one character: the Latin letters of ASCII and of
      Latin-1 (U+00C0 to U+00DE except U+00D7). */
  function LowerChar(c: char): (r: char)
    ensures 'A' <= c <= 'Z' ==> r == c + (('a' as int - 'A' as int) as char)
    ensures '\U{C0}' <= c <= '\U{DE}' && c != '\U{D7}' ==> r == c + (32 as char)
    ensures !('A' <= c <= 'Z') && !('\U{C0}' <= c <= '\U{DE}' && c != '\U{D7}') ==> r == c
  {
    if 'A' <= c <= 'Z' || ('\U{C0}' <= c <= '\U{DE}' && c != '\U{D7}') then (c as int + 32) as char else c
  }

  function Lower(s: string): (r: string)
    ensures |r| == |s| && forall k :: 0 <= k < |s| ==> r[k] == LowerChar(s[k])
  {
    seq(|s|, k requires 0 <= k < |s| => LowerChar(s[k]))
  }

  /** How a regular expression with the `i` flag compares an input character
      with a lower-case ASCII character of the pattern. */
  function AsciiFold(c: char): char {
    if 'A' <= c <= 'Z' then (c as int + 32) as char else c
  }

  /** The lower-case ASCII literal `lit` occurs at position `i` of `s`,
      ignoring case as the `i` flag does. */
  predicate MatchesAtIgnoreCase(s: string, i: nat, lit: string) {
    i + |lit| <= |s| && forall k :: 0 <= k < |lit| ==> AsciiFold(s[i + k]) == lit[k]
  }

  /** `lit` occurs at position `i` of `s`. */
  predicate MatchesAt(s: string, i: nat, lit: string) {
    i + |lit| <= |s| && s[i..i + |lit|] == lit
  }

  predicate EndsWithIgnoreCase(s: string, lit: string) {
    |lit| <= |s| && MatchesAtIgnoreCase(s, |s| - |lit|, lit)
  }

  /** Every character of the literal is its own ASCII fold. */
  predicate FoldFixed(lit: string) {
    forall k :: 0 <= k < |lit| ==> AsciiFold(lit[k]) == lit[k]
  }

  /** `c` occurs in `lit` at most at its start. */
  predicate StartOnly(lit: string, c: char) {
    forall m :: 1 <= m < |lit| ==> lit[m] != c
  }

  /** A stretch of `s` spelling a fold-fixed literal matches it. */
  lemma MatchesCopy(s: string, p: nat, lit: string)
    requires FoldFixed(lit) && p + |lit| <= |s|
    requires forall i :: p <= i < p + |lit| ==> s[i] == lit[i - p]
    ensures MatchesAtIgnoreCase(s, p, lit)
  {
    forall m | 0 <= m < |lit| ensures AsciiFold(s[p + m]) == lit[m] {
      assert s[p + m] == lit[p + m - p];
    }
  }

  /** A match inside a slice is a match in the whole string. */
  lemma SliceMatch(s: string, a: nat, b: nat, k: nat, lit: string)
    requires a <= b <= |s| && k + |lit| <= b - a
    ensures MatchesAtIgnoreCase(s[a..b], k, lit) == MatchesAtIgnoreCase(s, a + k, lit)
  {
    forall m | 0 <= m < |lit|
      ensures (AsciiFold(s[a..b][k + m]) == lit[m]) == (AsciiFold(s[a + k + m]) == lit[m])
    {
      assert s[a..b][k + m] == s[a + (k + m)];
    }
  }

  /** A stretch of `s` spelling `x` is the slice of `s` it occupies. */
  lemma SliceCopy(s: string, lo: nat, x: string)
    requires lo + |x| <= |s|
    requires forall i :: lo <= i < lo + |x| ==> s[i] == x[i - lo]
    ensures s[lo..lo + |x|] == x
  {
    forall k | 0 <= k < |x| ensures s[lo..lo + |x|][k] == x[k] {
      assert s[lo + k] == x[lo + k - lo];
    }
  }

  /** A match starting inside a stretch of `s` that spells `x` is a match
      in `x`, unless it reaches past the stretch; and it cannot reach past
      it when the character after the stretch occurs in the literal at
      most at its start. */
  lemma NoMatchAcross(s: string, lo: nat, x: string, lit: string, k: nat)
    requires lo <= k < lo + |x| < |s|
    requires forall i :: lo <= i < lo + |x| ==> s[i] == x[i - lo]
    requires !MatchesAtIgnoreCase(x, k - lo, lit)
    requires StartOnly(lit, AsciiFold(s[lo + |x|]))
    ensures !MatchesAtIgnoreCase(s, k, lit)
  {
    var e := lo + |x|;
    if k + |lit| <= e {
      var m :| 0 <= m < |lit| && AsciiFold(x[k - lo + m]) != lit[m];
      assert s[k + m] == x[k + m - lo];
    } else if k + |lit| <= |s| {
      var m := e - k;
      assert lit[m] != AsciiFold(s[k + m]);
    }
  }

  // ------------------------------------------------------------- search

  /** The first position at or after `p` holding `c`. */
  function FindChar(s: string, c: char, p: nat): (r: Option<nat>)
    decreases |s| - p
    ensures r.Some? ==> p <= r.value < |s| && s[r.value] == c
    ensures r.Some? ==> forall k :: p <= k < r.value ==> s[k] != c
    ensures r.None? ==> forall k :: p <= k < |s| ==> s[k] != c
  {
    if p >= |s| then None else if s[p] == c then Some(p) else FindChar(s, c, p + 1)
  }

  /** The first position at or after `p` where `lit` occurs, ignoring case. */
  function FindIgnoreCase(s: string, lit: string, p: nat): (r: Option<nat>)
    decreases |s| - p
    ensures r.Some? ==> p <= r.value && MatchesAtIgnoreCase(s, r.value, lit)
    ensures r.Some? ==> forall k :: p <= k < r.value ==> !MatchesAtIgnoreCase(s, k, lit)
    ensures r.None? ==> forall k :: p <= k ==> !MatchesAtIgnoreCase(s, k, lit)
  {
    if p + |lit| > |s| then None
    else if MatchesAtIgnoreCase(s, p, lit) then Some(p)
    else FindIgnoreCase(s, lit, p + 1)
  }

  // --------------------------------------------------------------- split

  /** `s.split(sep)` for a one-character separator. */
  function Split(s: string, sep: char): (parts: seq<string>)
    ensures |parts| >= 1
    ensures forall i :: 0 <= i < |parts| ==> sep !in parts[i]
  {
    if s == [] then [[]]
    else
      var rest := Split(s[1..], sep);
      if s[0] == sep then [[]] + rest else [[s[0]] + rest[0]] + rest[1..]
  }

  /** `parts.join(sep)`. */
  function Join(parts: seq<string>, sep: char): string
    requires |parts| >= 1
  {
    if |parts| == 1 then parts[0] else parts[0] + [sep] + Join(parts[1..], sep)
  }

  lemma {:induction false} JoinSplit(s: string, sep: char)
    ensures Join(Split(s, sep), sep) == s
  {
    if s != [] {
      JoinSplit(s[1..], sep);
      var rest := Split(s[1..], sep);
      if s[0] != sep {
        if |rest| == 1 {
        } else {
          assert ([[s[0]] + rest[0]] + rest[1..])[1..] == rest[1..];
        }
      } else {
        assert ([[]] + rest)[1..] == rest;
      }
    }
  }

  lemma {:induction false} SplitJoin(parts: seq<string>, sep: char)
    requires |parts| >= 1
    requires forall i :: 0 <= i < |parts| ==> sep !in parts[i]
    ensures Split(Join(parts, sep), sep) == parts
  {
    if |parts| == 1 {
      SplitNoSep(parts[0], sep);
    } else {
      SplitJoin(parts[1..], sep);
      SplitPrefix(parts[0], Join(parts[1..], sep), sep);
      assert [parts[0]] + parts[1..] == parts;
    }
  }

  lemma {:induction false} SplitNoSep(s: string, sep: char)
    requires sep !in s
    ensures Split(s, sep) == [s]
  {
    if s != [] {
      SplitNoSep(s[1..], sep);
      assert [s[0]] + s[1..] == s;
    }
  }

  lemma {:induction false} SplitPrefix(p: string, t: string, sep: char)
    requires sep !in p
    ensures Split(p + [sep] + t, sep) == [p] + Split(t, sep)
  {
    if p == [] {
      assert (p + [sep] + t)[1..] == t;
    } else {
      SplitPrefix(p[1..], t, sep);
      assert (p + [sep] + t)[1..] == p[1..] + [sep] + t;
      assert [p[0]] + p[1..] == p;
    }
  }

  /** `parts[i] || ''`. */
  function Part(parts: seq<string>, i: nat): string {
    if i < |parts| then parts[i] else ""
  }

  function Last(parts: seq<string>): string
    requires |parts| >= 1
  {
    parts[|parts| - 1]
  }

  function LastIndexOf(s: string, c: char): (r: Option<nat>)
    ensures r.Some? ==> r.value < |s| && s[r.value] == c && forall k :: r.value < k < |s| ==> s[k] != c
    ensures r.None? ==> c !in s
  {
    if s == [] then None
    else if s[|s| - 1] == c then Some(|s| - 1)
    else LastIndexOf(s[..|s| - 1], c)
  }

  /** `s.replace(/from/g, to)` for single characters. */
  function ReplaceChar(s: string, from: char, to: char): (r: string)
    ensures |r| == |s|
    ensures forall k :: 0 <= k < |s| ==> r[k] == if s[k] == from then to else s[k]
    ensures from != to ==> from !in r
  {
    seq(|s|, k requires 0 <= k < |s| => if s[k] == from then to else s[k])
  }

  // -------------------------------------------------------------- order

  /** `a < b` on strings: lexicographic order on characters, a proper
      prefix coming first. */
  predicate Less(a: string, b: string) {
    if a == [] then b != []
    else if b == [] then false
    else a[0] < b[0] || (a[0] == b[0] && Less(a[1..], b[1..]))
  }

  lemma {:induction false} LessIrreflexive(a: string)
    ensures !Less(a, a)
  {
    if a != [] { LessIrreflexive(a[1..]); }
  }

  lemma {:induction false} LessAsymmetric(a: string, b: string)
    ensures Less(a, b) ==> !Less(b, a)
  {
    if a != [] && b != [] && a[0] == b[0] { LessAsymmetric(a[1..], b[1..]); }
  }

  lemma {:induction false} LessTotal(a: string, b: string)
    ensures a == b || Less(a, b) || Less(b, a)
  {
    if a != [] && b != [] && a[0] == b[0] {
      LessTotal(a[1..], b[1..]);
      if a[1..] == b[1..] { assert a == [a[0]] + a[1..] && b == [b[0]] + b[1..]; }
    }
  }

  lemma {:induction false} LessTransitive(a: string, b: string, c: string)
    requires Less(a, b) && Less(b, c)
    ensures Less(a, c)
  {
    if a != [] && a[0] == b[0] && b[0] == c[0] { LessTransitive(a[1..], b[1..], c[1..]); }
  }

  /** "Not less" is transitive: the order the descending sort leaves. */
  lemma NotLessTransitive(a: string, b: string, c: string)
    requires !Less(a, b) && !Less(b, c)
    ensures !Less(a, c)
  {
    LessTotal(a, b);
    LessTotal(b, c);
    if Less(a, c) {
      if a == b { } else if b == c { } else { LessTransitive(c, b, a); LessAsymmetric(a, c); }
    }
  }

  /** Two strings that share a prefix compare as their remainders do. */
  lemma {:induction false} LessCommonPrefix(p: string, a: string, b: string)
    ensures Less(p + a, p + b) <==> Less(a, b)
  {
    if p == [] {
      assert p + a == a && p + b == b;
    } else {
      assert (p + a)[0] == p[0] == (p + b)[0];
      assert (p + a)[1..] == p[1..] + a && (p + b)[1..] == p[1..] + b;
      LessCommonPrefix(p[1..], a, b);
    }
  }

  /** Two strings of the same length first differing at `k` compare as their
      characters at `k` do, whatever follows. */
  lemma {:induction false} LessAtFirstDifference(a: string, b: string, k: nat)
    requires k < |a| && k < |b| && a[..k] == b[..k] && a[k] < b[k]
    ensures Less(a, b)
  {
    if k > 0 {
      assert a[1..][..k - 1] == a[1..k] == b[1..k] == b[1..][..k - 1];
      LessAtFirstDifference(a[1..], b[1..], k - 1);
    }
  }

  // ------------------------------------------------------------ numbers

  function DigitValue(c: char): nat
    requires IsDigit(c)
  {
    c as int - '0' as int
  }

  function DigitChar(d: nat): (c: char)
    requires d < 10
    ensures IsDigit(c) && DigitValue(c) == d
  {
    ('0' as int + d) as char
  }

  predicate AllDigits(s: string) { forall k :: 0 <= k < |s| ==> IsDigit(s[k]) }

  /** `String(n)` for a non-negative integer: its decimal digits, without
      leading zeros. */
  function NatToString(n: nat): (s: string)
    ensures |s| >= 1 && AllDigits(s)
    ensures |s| > 1 ==> s[0] != '0'
    ensures n < 10 <==> |s| == 1
  {
    if n < 10 then [DigitChar(n)] else NatToString(n / 10) + [DigitChar(n % 10)]
  }

  /** `String(n)` for any integer. */
  function IntToString(n: int): string {
    if n < 0 then "-" + NatToString(-n) else NatToString(n)
  }

  /** `Number(s)` and `parseInt(s, 10)` for a string of decimal digits. */
  function DigitsValue(s: string): nat
    requires AllDigits(s)
  {
    if s == [] then 0 else DigitsValue(s[..|s| - 1]) * 10 + DigitValue(s[|s| - 1])
  }

  /** Reading back what `String(n)` wrote gives `n`. */
  lemma {:induction false} NatToStringRoundTrip(n: nat)
    ensures DigitsValue(NatToString(n)) == n
  {
    if n >= 10 {
      NatToStringRoundTrip(n / 10);
      var s := NatToString(n);
      assert s[..|s| - 1] == NatToString(n / 10);
    }
  }

  /** The number of digits `String(n)` writes. */
  lemma {:induction false} NatToStringLength(n: nat, width: nat)
    requires width >= 1
    ensures |NatToString(n)| <= width <==> n < Pow10(width)
  {
    if n >= 10 && width > 1 { NatToStringLength(n / 10, width - 1); }
    if n >= 10 && width == 1 { }
  }

  function Pow10(k: nat): (r: nat)
    ensures r >= 1
  {
    if k == 0 then 1 else 10 * Pow10(k - 1)
  }
}
