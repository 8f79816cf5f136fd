/** String helpers with the meaning of the JavaScript built-ins the source
    calls: `trim`, `toLowerCase` (ASCII letters only), `includes`,
    `endsWith`, `join`, the default `sort` order and `String(n)`. */
module Strings {

  /** A line terminator as the multiline `^`, `$` and `.` of a regular
      expression see it: line feed, carriage return, line and paragraph
      separator. */
  predicate IsLineTerminator(c: char) {
    c == '\n' || c == '\r' || c == '\U{2028}' || c == '\U{2029}'
  }

  /** JavaScript's `\s`, which is also what `trim` strips: the white-space
      characters (tab, vertical tab, form feed, the space separators and the
      byte order mark) and the line terminators. */
  predicate IsSpace(c: char) {
    c == '\t' || c == '\U{B}' || c == '\U{C}' || c == ' ' || c == '\U{A0}' || c == '\U{FEFF}' ||
    c == '\U{1680}' || ('\U{2000}' <= c <= '\U{200A}') || c == '\U{202F}' || c == '\U{205F}' ||
    c == '\U{3000}' || IsLineTerminator(c)
  }

  predicate IsDigit(c: char) {
    '0' <= c <= '9'
  }

  /** `String.prototype.trimStart`. */
  function TrimStart(s: string): (r: string)
    ensures |r| <= |s| && r == s[|s| - |r|..]
    ensures forall i :: 0 <= i < |s| - |r| ==> IsSpace(s[i])
    ensures |r| > 0 ==> !IsSpace(r[0])
  {
    if |s| > 0 && IsSpace(s[0]) then TrimStart(s[1..]) else s
  }

  /** `String.prototype.trimEnd`. */
  function TrimEnd(s: string): (r: string)
    ensures |r| <= |s| && r == s[..|r|]
    ensures forall i :: |r| <= i < |s| ==> IsSpace(s[i])
    ensures |r| > 0 ==> !IsSpace(r[|r| - 1])
  {
    if |s| > 0 && IsSpace(s[|s| - 1]) then TrimEnd(s[..|s| - 1]) else s
  }

  /** `String.prototype.trim`: the input without leading and trailing
      whitespace. */
  function Trim(s: string): (r: string)
    ensures |r| <= |s|
    ensures |r| > 0 ==> !IsSpace(r[0]) && !IsSpace(r[|r| - 1])
    ensures r == "" <==> forall i :: 0 <= i < |s| ==> IsSpace(s[i])
  {
    TrimEnd(TrimStart(s))
  }

  /** `r` is the slice of `s` at `i`, with only white space before it and
      after it. */
  predicate PaddedSlice(s: string, i: nat, r: string) {
    i + |r| <= |s| && r == s[i..i + |r|] &&
    (forall j :: 0 <= j < i ==> IsSpace(s[j])) &&
    (forall j :: i + |r| <= j < |s| ==> IsSpace(s[j]))
  }

  /** The trim is the slice of the input between its leading and its
      trailing white space. */
  lemma TrimSlice(s: string)
    ensures exists i :: PaddedSlice(s, i, Trim(s))
  {
    var u := TrimStart(s);
    var r := Trim(s);
    var i := |s| - |u|;
    assert u == s[i..];
    assert r == u[..|r|];
    assert r == s[i..i + |r|];
    forall j | i + |r| <= j < |s| ensures IsSpace(s[j]) {
      assert s[j] == u[j - i];
    }
    assert PaddedSlice(s, i, r);
  }

  /** A string without white space at either end is its own trim. */
  lemma TrimUnpadded(s: string)
    requires |s| > 0 && !IsSpace(s[0]) && !IsSpace(s[|s| - 1])
    ensures Trim(s) == s
  {
    assert TrimStart(s) == s;
  }

  /** Trimming a trimmed string changes nothing. */
  lemma TrimIdempotent(s: string)
    ensures Trim(Trim(s)) == Trim(s)
  {
    var r := Trim(s);
    assert TrimStart(r) == r;
    assert TrimEnd(r) == r;
  }

  function LowerChar(c: char): char {
    if 'A' <= c <= 'Z' then (c as int + 32) as char else c
  }

  /** `String.prototype.toLowerCase` on ASCII letters. */
  function ToLower(s: string): (r: string)
    ensures |r| == |s|
    ensures forall i :: 0 <= i < |s| ==> r[i] == LowerChar(s[i])
  {
    seq(|s|, i requires 0 <= i < |s| => LowerChar(s[i]))
  }

  predicate StartsWithAt(s: string, i: nat, prefix: string) {
    i + |prefix| <= |s| && s[i..i + |prefix|] == prefix
  }

  /** `String.prototype.includes`. */
  predicate Contains(s: string, sub: string) {
    exists i :: 0 <= i <= |s| - |sub| && StartsWithAt(s, i, sub)
  }

  /** `String.prototype.endsWith`. */
  predicate EndsWith(s: string, suffix: string) {
    |suffix| <= |s| && s[|s| - |suffix|..] == suffix
  }

  /** `Array.prototype.join(sep)` on strings. */
  function Join(xs: seq<string>, sep: string): (r: string)
    ensures |xs| == 1 ==> r == xs[0]
    ensures |xs| > 0 ==> StartsWithAt(r, 0, xs[0])
  {
    if |xs| == 0 then ""
    else if |xs| == 1 then xs[0]
    else xs[0] + sep + Join(xs[1..], sep)
  }

  lemma ContainsAppend(s: string, t: string, sub: string)
    requires Contains(s, sub)
    ensures Contains(s + t, sub)
  {
    var i :| 0 <= i <= |s| - |sub| && StartsWithAt(s, i, sub);
    assert (s + t)[i..i + |sub|] == s[i..i + |sub|];
    assert StartsWithAt(s + t, i, sub);
  }

  lemma ContainsPrepend(s: string, t: string, sub: string)
    requires Contains(t, sub)
    ensures Contains(s + t, sub)
  {
    var i :| 0 <= i <= |t| - |sub| && StartsWithAt(t, i, sub);
    assert (s + t)[|s| + i..|s| + i + |sub|] == t[i..i + |sub|];
    assert StartsWithAt(s + t, |s| + i, sub);
  }

  lemma StartsWithAppend(s: string, t: string, prefix: string)
    requires StartsWithAt(s, 0, prefix)
    ensures StartsWithAt(s + t, 0, prefix)
  {
    assert (s + t)[..|prefix|] == s[..|prefix|];
  }

  lemma ContainsSelf(s: string)
    ensures Contains(s, s)
  {
    assert StartsWithAt(s, 0, s);
  }

  /** Every joined element appears in the joined string. */
  lemma {:induction false} JoinContains(xs: seq<string>, sep: string, i: int)
    requires 0 <= i < |xs|
    ensures Contains(Join(xs, sep), xs[i])
    decreases |xs|
  {
    if |xs| == 1 {
      ContainsSelf(xs[0]);
    } else if i == 0 {
      ContainsSelf(xs[0]);
      ContainsAppend(xs[0], sep, xs[0]);
      ContainsAppend(xs[0] + sep, Join(xs[1..], sep), xs[0]);
    } else {
      JoinContains(xs[1..], sep, i - 1);
      ContainsPrepend(xs[0] + sep, Join(xs[1..], sep), xs[i]);
    }
  }

  /** The order of JavaScript's default `Array.prototype.sort` on strings:
      lexicographic on characters, a proper prefix first. */
  predicate Less(a: string, b: string) {
    if |a| == 0 then |b| > 0
    else if |b| == 0 then false
    else a[0] < b[0] || (a[0] == b[0] && Less(a[1..], b[1..]))
  }

  lemma {:induction false} LessIrreflexive(a: string)
    ensures !Less(a, a)
  {
    if |a| > 0 {
      LessIrreflexive(a[1..]);
    }
  }

  lemma {:induction false} LessTransitive(a: string, b: string, c: string)
    requires Less(a, b) && Less(b, c)
    ensures Less(a, c)
  {
    if |a| > 0 && |b| > 0 && |c| > 0 && a[0] == b[0] == c[0] {
      LessTransitive(a[1..], b[1..], c[1..]);
    }
  }

  lemma {:induction false} LessTotal(a: string, b: string)
    requires a != b
    ensures Less(a, b) || Less(b, a)
  {
    if |a| > 0 && |b| > 0 && a[0] == b[0] {
      assert a[1..] != b[1..];
      LessTotal(a[1..], b[1..]);
    }
  }

  lemma LessAsymmetric(a: string, b: string)
    requires Less(a, b)
    ensures !Less(b, a)
  {
    if Less(b, a) {
      LessTransitive(a, b, a);
      LessIrreflexive(a);
    }
  }

  /** Strictly ascending, hence free of duplicates. */
  ghost predicate StrictlySorted(xs: seq<string>) {
    forall i, j :: 0 <= i < j < |xs| ==> Less(xs[i], xs[j])
  }

  ghost predicate Distinct<T>(xs: seq<T>) {
    forall i, j :: 0 <= i < j < |xs| ==> xs[i] != xs[j]
  }

  lemma StrictlySortedDistinct(xs: seq<string>)
    requires StrictlySorted(xs)
    ensures Distinct(xs)
  {
    forall i, j | 0 <= i < j < |xs| ensures xs[i] != xs[j] {
      if xs[i] == xs[j] {
        LessIrreflexive(xs[i]);
      }
    }
  }

  lemma SameElementsBothEmpty<T>(xs: seq<T>, ys: seq<T>)
    requires forall x :: x in xs <==> x in ys
    ensures |xs| == 0 <==> |ys| == 0
  {
    if |xs| > 0 {
      assert xs[0] in ys;
    }
    if |ys| > 0 {
      assert ys[0] in xs;
    }
  }

  /** Two strictly sorted sequences with the same elements are equal: the
      sorted listing of a set is unique. */
  lemma {:induction false} StrictlySortedUnique(xs: seq<string>, ys: seq<string>)
    requires StrictlySorted(xs) && StrictlySorted(ys)
    requires forall x :: x in xs <==> x in ys
    ensures xs == ys
  {
    SameElementsBothEmpty(xs, ys);
    if |xs| > 0 {
      assert xs[0] in xs && ys[0] in ys;
      assert xs[0] == ys[0] by {
        if xs[0] != ys[0] {
          var i :| 0 <= i < |ys| && ys[i] == xs[0];
          var j :| 0 <= j < |xs| && xs[j] == ys[0];
          assert Less(ys[0], ys[i]) && Less(xs[0], xs[j]);
          LessAsymmetric(xs[0], ys[0]);
        }
      }
      forall x ensures x in xs[1..] <==> x in ys[1..] {
        LessIrreflexive(xs[0]);
        if x in xs[1..] {
          var k :| 0 <= k < |xs[1..]| && xs[1..][k] == x;
          assert Less(xs[0], xs[k + 1]);
          assert x in ys && x != ys[0];
          var m :| 0 <= m < |ys| && ys[m] == x;
          assert ys[1..][m - 1] == x;
        }
        if x in ys[1..] {
          var k :| 0 <= k < |ys[1..]| && ys[1..][k] == x;
          assert Less(ys[0], ys[k + 1]);
          assert x in xs && x != xs[0];
          var m :| 0 <= m < |xs| && xs[m] == x;
          assert xs[1..][m - 1] == x;
        }
      }
      StrictlySortedUnique(xs[1..], ys[1..]);
      assert xs == [xs[0]] + xs[1..] && ys == [ys[0]] + ys[1..];
    }
  }

  function DigitChar(d: nat): char
    requires d < 10
  {
    "0123456789"[d]
  }

  /** `String(n)` for a non-negative integer: its decimal digits. */
  function NatToString(n: nat): (r: string)
    ensures |r| > 0
    ensures forall i :: 0 <= i < |r| ==> IsDigit(r[i])
    decreases n
  {
    if n < 10 then [DigitChar(n)] else NatToString(n / 10) + [DigitChar(n % 10)]
  }

  /** `String(n)` for an integer. */
  function IntToString(n: int): (r: string)
    ensures |r| > 0
  {
    if n < 0 then "-" + NatToString(-n) else NatToString(n)
  }

  /** The value of a string of decimal digits. */
  function DecimalValue(s: string): nat
    requires forall i :: 0 <= i < |s| ==> IsDigit(s[i])
  {
    if |s| == 0 then 0
    else
      assert IsDigit(s[|s| - 1]);
      10 * DecimalValue(s[..|s| - 1]) + (s[|s| - 1] as int - '0' as int)
  }

  /** Reading the digits back gives the number: `String(n)` loses nothing. */
  lemma {:induction false} NatToStringRoundTrip(n: nat)
    ensures DecimalValue(NatToString(n)) == n
    decreases n
  {
    var r := NatToString(n);
    if n >= 10 {
      NatToStringRoundTrip(n / 10);
      assert r[..|r| - 1] == NatToString(n / 10);
    }
  }
}
