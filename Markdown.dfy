/** `markdownToHtml`: a fixed chain of global regular-expression
    substitutions over the whole text. Each pass is modelled as a scan over
    the string that is being rewritten, trying the pattern at each position
    from left to right and resuming after a match, which is how
    `String.prototype.replace` and `match` with the `g` flag proceed.
    `^` and `$` are the multiline anchors: a line starts at position 0 or
    after a line terminator, and `.` matches any character but a line
    terminator. */
module Markdown {
  import opened Wrappers
  import opened Strings

  // ---------------------------------------------------------------------
  // Character runs and lines

  predicate LineStart(s: string, p: nat)
    requires p <= |s|
  {
    p == 0 || IsLineTerminator(s[p - 1])
  }

  /** The character classes the patterns repeat: `\s`, `\d` and `.`. */
  datatype CharClass = Space | Digit | NotTerminator

  predicate InClass(c: char, k: CharClass) {
    match k
    case Space => IsSpace(c)
    case Digit => IsDigit(c)
    case NotTerminator => !IsLineTerminator(c)
  }

  /** The length of the greedy run of class `k` starting at `i`. */
  function Run(s: string, i: nat, k: CharClass): (n: nat)
    requires i <= |s|
    ensures i + n <= |s|
    decreases |s| - i
  {
    if i < |s| && InClass(s[i], k) then 1 + Run(s, i + 1, k) else 0
  }

  /** The run is all of class `k` and stops at the end or at a character
      outside the class. */
  lemma {:induction false} RunFacts(s: string, i: nat, k: CharClass)
    requires i <= |s|
    ensures forall j :: i <= j < i + Run(s, i, k) ==> InClass(s[j], k)
    ensures i + Run(s, i, k) == |s| || !InClass(s[i + Run(s, i, k)], k)
    decreases |s| - i
  {
    if i < |s| && InClass(s[i], k) {
      RunFacts(s, i + 1, k);
    }
  }

  /** Where `.*$` starting at `i` stops: the next line terminator or the end. */
  function LineEnd(s: string, i: nat): (e: nat)
    requires i <= |s|
    ensures i <= e <= |s|
  {
    i + Run(s, i, NotTerminator)
  }

  /** A run that is not cut off inside a slice has the same length there. */
  lemma {:induction false} RunSlice(s: string, a: nat, b: nat, i: nat, k: CharClass)
    requires a <= i <= b <= |s| && i + Run(s, i, k) <= b
    ensures Run(s[a..b], i - a, k) == Run(s, i, k)
    decreases |s| - i
  {
    if i < b && InClass(s[i], k) {
      RunSlice(s, a, b, i + 1, k);
    }
  }

  /** A run over characters that are all of the class reaches the end. */
  lemma {:induction false} RunToEnd(s: string, i: nat, k: CharClass)
    requires i <= |s|
    requires forall j :: i <= j < |s| ==> InClass(s[j], k)
    ensures Run(s, i, k) == |s| - i
    decreases |s| - i
  {
    if i < |s| {
      RunToEnd(s, i + 1, k);
    }
  }

  /** A run over characters of the class that stops at `e` has length
      `e - i`. */
  lemma {:induction false} RunCovered(s: string, i: nat, e: nat, k: CharClass)
    requires i <= e <= |s|
    requires forall j :: i <= j < e ==> InClass(s[j], k)
    requires e == |s| || !InClass(s[e], k)
    ensures Run(s, i, k) == e - i
    decreases e - i
  {
    if i < e {
      RunCovered(s, i + 1, e, k);
    }
  }

  predicate NoTerminator(s: string) {
    forall j :: 0 <= j < |s| ==> !IsLineTerminator(s[j])
  }

  lemma NoTerminatorAppend(a: string, b: string)
    requires NoTerminator(a) && NoTerminator(b)
    ensures NoTerminator(a + b)
  {
    forall j | 0 <= j < |a + b| ensures !IsLineTerminator((a + b)[j]) {
      if j < |a| { assert (a + b)[j] == a[j]; } else { assert (a + b)[j] == b[j - |a|]; }
    }
  }

  // ---------------------------------------------------------------------
  // The HTML the passes produce

  // The longer tags are written as a few shorter literals, so that facts
  // about their characters can be established piece by piece.
  const StrongOpen := "<strong class=\"" + "font-semibold " + "text-forest-900\">"
  const StrongClose := "</strong>"
  const EmOpen := "<em class=\"italic\">"
  const EmClose := "</em>"
  const LinkOpen := "<a href=\""
  const LinkMid := "\" target=\"_blank\" class=\"text-forest-700 hover:text-forest-900 underline\">"
  const LinkClose := "</a>"
  const PreOpen := "<pre class=\"bg-forest-50 border border-forest-200 p-3 rounded-lg overflow-x-auto my-2\"><code class=\"text-sm text-forest-800\">"
  const PreClose := "</code></pre>"
  const CodeOpen := "<code class=\"bg-forest-100 px-1 py-0.5 rounded text-sm text-forest-800\">"
  const CodeClose := "</code>"
  const LiOpen := "<li class=\"ml-4\">"
  const LiClose := "</li>"
  const ListStyle := " list-inside my-2" + " space-y-1\">"
  const UlOpen := "<ul class=\"" + "list-disc" + ListStyle
  const UlClose := "</ul>"
  const OlOpen := "<ol class=\"" + "list-decimal" + ListStyle
  const OlClose := "</ol>"
  const ParagraphBreak := "</p><p class=\"mb-2\">"
  const LineBreak := "<br>"
  const ParagraphOpen := "<p class=\"mb-2\">"
  const ParagraphClose := "</p>"

  /** The size class of a level-`n` heading. */
  function HeadingSize(n: nat): string
    requires 1 <= n <= 6
  {
    match n
    case 6 => "text-sm"
    case 5 => "text-base"
    case 4 => "text-lg"
    case 3 => "text-xl"
    case 2 => "text-2xl"
    case 1 => "text-3xl"
  }

  const HeadingStyle := " font-bold mt-4" + " mb-2 text-forest-800\">"

  function HeadingOpen(n: nat): string
    requires 1 <= n <= 6
  {
    "<h" + [DigitChar(n)] + " class=\"" + HeadingSize(n) + HeadingStyle
  }

  function HeadingClose(n: nat): string
    requires 1 <= n <= 6
  {
    "</h" + [DigitChar(n)] + ">"
  }

  // ---------------------------------------------------------------------
  // Headings: `^#{n} (.*$)` with the `gim` flags

  function Hashes(n: nat): (r: string)
    ensures |r| == n && forall i :: 0 <= i < n ==> r[i] == '#'
  {
    if n == 0 then "" else "#" + Hashes(n - 1)
  }

  /** `s.replace(/^pat(.*$)/gim, open + "$1" + close)` from position `p`:
      at each line start where `pat` occurs, the rest of that line is put
      between `open` and `close`; every other character is copied. */
  function LinePrefixFrom(pat: string, open: string, close: string, s: string, p: nat): string
    requires |pat| > 0 && p <= |s|
    decreases |s| - p
  {
    if p == |s| then ""
    else if LineStart(s, p) && StartsWithAt(s, p, pat) then
      var e := LineEnd(s, p + |pat|);
      open + s[p + |pat|..e] + close + LinePrefixFrom(pat, open, close, s, e)
    else [s[p]] + LinePrefixFrom(pat, open, close, s, p + 1)
  }

  /** The level-`n` heading pass: `n` hashes and a space at a line start. */
  function HeadingPass(n: nat, s: string): string
    requires 1 <= n <= 6
  {
    LinePrefixFrom(Hashes(n) + " ", HeadingOpen(n), HeadingClose(n), s, 0)
  }

  /** The six heading passes, h6 first and h1 last. */
  function Headings(s: string): string {
    HeadingPass(1, HeadingPass(2, HeadingPass(3, HeadingPass(4, HeadingPass(5, HeadingPass(6, s))))))
  }

  /** Past its first position, a single line has no line start, so a
      line-prefix pass copies the rest unchanged. */
  lemma {:induction false} LinePrefixCopies(pat: string, open: string, close: string, s: string, p: nat)
    requires |pat| > 0 && 1 <= p <= |s| && NoTerminator(s)
    ensures LinePrefixFrom(pat, open, close, s, p) == s[p..]
    decreases |s| - p
  {
    if p < |s| {
      LinePrefixCopies(pat, open, close, s, p + 1);
      assert s[p..] == [s[p]] + s[p + 1..];
    }
  }

  /** A level-`n` pass leaves a single line alone when the line does not
      open with `n` hashes and a space. */
  lemma HeadingPassSkips(n: nat, s: string)
    requires 1 <= n <= 6 && |s| > 0 && NoTerminator(s) && !StartsWithAt(s, 0, Hashes(n) + " ")
    ensures HeadingPass(n, s) == s
  {
    LinePrefixCopies(Hashes(n) + " ", HeadingOpen(n), HeadingClose(n), s, 1);
    assert s == [s[0]] + s[1..];
  }

  /** A level-`n` pass turns a line `#…# title` into the level-`n` heading. */
  lemma HeadingPassTakes(n: nat, title: string)
    requires 1 <= n <= 6 && NoTerminator(title)
    ensures HeadingPass(n, Hashes(n) + " " + title) == HeadingOpen(n) + title + HeadingClose(n)
  {
    var pat := Hashes(n) + " ";
    var s := pat + title;
    assert |pat| == n + 1;
    assert StartsWithAt(s, 0, pat);
    forall j | n + 1 <= j < |s| ensures !IsLineTerminator(s[j]) {
      assert s[j] == title[j - n - 1];
    }
    RunToEnd(s, n + 1, NotTerminator);
    assert LineEnd(s, n + 1) == |s|;
    assert s[n + 1..|s|] == title;
    assert LinePrefixFrom(pat, HeadingOpen(n), HeadingClose(n), s, |s|) == "";
  }

  // Line by line: a line-prefix pass over two texts that meet at a line
  // boundary is the two passes side by side.

  /** A line boundary between `a` and `b`: a terminator at the seam, or
      one side empty. */
  predicate LineBoundary(a: string, b: string) {
    a == [] || b == [] || IsLineTerminator(a[|a| - 1]) || IsLineTerminator(b[0])
  }

  /** An occurrence of a pattern without terminators covers no terminator. */
  lemma MatchNoTerminator(s: string, p: nat, pat: string, k: nat)
    requires NoTerminator(pat) && p <= k < |s|
    ensures StartsWithAt(s, p, pat) && k < p + |pat| ==> !IsLineTerminator(s[k])
  {
    if StartsWithAt(s, p, pat) && k < p + |pat| {
      assert s[k] == s[p..p + |pat|][k - p];
    }
  }

  lemma PatternNoTerminator(n: nat)
    ensures NoTerminator(Hashes(n) + " ")
  {
    var pat := Hashes(n) + " ";
    forall j | 0 <= j < |pat| ensures !IsLineTerminator(pat[j]) {
      if j < n { assert pat[j] == '#'; }
    }
  }

  /** A run stops at the first character outside its class. */
  lemma {:induction false} RunStops(s: string, i: nat, e: nat, k: CharClass)
    requires i <= e < |s| && !InClass(s[e], k)
    ensures i + Run(s, i, k) <= e
    decreases e - i
  {
    if i < e && InClass(s[i], k) {
      RunStops(s, i + 1, e, k);
    }
  }

  /** Slices of `a + b` that lie inside one part. */
  lemma PrefixSlice(a: string, b: string, i: nat, j: nat)
    requires i <= j <= |a|
    ensures (a + b)[i..j] == a[i..j]
  {
  }

  lemma SuffixSlice(a: string, b: string, i: nat, j: nat)
    requires |a| <= i <= j <= |a| + |b|
    ensures (a + b)[i..j] == b[i - |a|..j - |a|]
  {
  }

  /** A run in the `b` part of `a + b` is the run in `b`. */
  lemma {:induction false} RunShift(a: string, b: string, x: nat, k: CharClass)
    requires |a| <= x <= |a| + |b|
    ensures Run(a + b, x, k) == Run(b, x - |a|, k)
    decreases |a| + |b| - x
  {
    if x < |a| + |b| {
      assert (a + b)[x] == b[x - |a|];
      RunShift(a, b, x + 1, k);
    }
  }

  /** A run in the `a` part of `a + b` is the run in `a` when it stops
      before `b`: `b` opens outside the class, or `a` ends outside it. */
  lemma {:induction false} RunPrefix(a: string, b: string, i: nat, k: CharClass)
    requires i <= |a|
    requires b == [] || !InClass(b[0], k) || (i < |a| && !InClass(a[|a| - 1], k))
    ensures Run(a + b, i, k) == Run(a, i, k)
    decreases |a| - i
  {
    if i < |a| {
      assert (a + b)[i] == a[i];
      if InClass(a[i], k) {
        RunPrefix(a, b, i + 1, k);
      }
    } else if b != [] {
      assert (a + b)[|a|] == b[0];
    }
  }

  /** Behind a line boundary, position `x` of `a + b` looks to a line-prefix
      pass as position `x - |a|` of `b` does. */
  lemma RightStep(pat: string, a: string, b: string, x: nat)
    requires |pat| > 0 && NoTerminator(pat) && |a| <= x < |a| + |b| && LineBoundary(a, b)
    ensures (a + b)[x] == b[x - |a|]
    ensures (LineStart(a + b, x) && StartsWithAt(a + b, x, pat)) ==
            (LineStart(b, x - |a|) && StartsWithAt(b, x - |a|, pat))
    ensures LineStart(b, x - |a|) && StartsWithAt(b, x - |a|, pat) ==>
              LineEnd(a + b, x + |pat|) - |a| == LineEnd(b, x - |a| + |pat|) &&
              (a + b)[x + |pat|..LineEnd(a + b, x + |pat|)] == b[x - |a| + |pat|..LineEnd(b, x - |a| + |pat|)]
  {
    RightMatch(pat, a, b, x);
    if LineStart(b, x - |a|) && StartsWithAt(b, x - |a|, pat) {
      RightLine(pat, a, b, x);
    }
  }

  /** Whether a heading line starts at `x` is decided inside `b`. */
  lemma RightMatch(pat: string, a: string, b: string, x: nat)
    requires |pat| > 0 && NoTerminator(pat) && |a| <= x < |a| + |b| && LineBoundary(a, b)
    ensures (LineStart(a + b, x) && StartsWithAt(a + b, x, pat)) ==
            (LineStart(b, x - |a|) && StartsWithAt(b, x - |a|, pat))
  {
    if x + |pat| <= |a| + |b| {
      SuffixSlice(a, b, x, x + |pat|);
    }
    if x > |a| {
      assert (a + b)[x - 1] == b[x - |a| - 1];
    } else {
      MatchNoTerminator(b, 0, pat, 0);
    }
  }

  /** The rest of a heading line that starts inside `b` lies inside `b`. */
  lemma RightLine(pat: string, a: string, b: string, x: nat)
    requires |a| <= x < |a| + |b| && StartsWithAt(b, x - |a|, pat)
    ensures LineEnd(a + b, x + |pat|) - |a| == LineEnd(b, x - |a| + |pat|)
    ensures (a + b)[x + |pat|..LineEnd(a + b, x + |pat|)] == b[x - |a| + |pat|..LineEnd(b, x - |a| + |pat|)]
  {
    RunShift(a, b, x + |pat|, NotTerminator);
    SuffixSlice(a, b, x + |pat|, LineEnd(a + b, x + |pat|));
  }

  /** One step of the passes over `a + b` at `x` and over `b` at `x - |a|`:
      both continue at the same place `y`, so equal continuations give equal
      results. */
  lemma RightCons(pat: string, open: string, close: string, a: string, b: string, x: nat, y: nat)
    requires |pat| > 0 && NoTerminator(pat) && |a| <= x < |a| + |b| && LineBoundary(a, b)
    requires y == if LineStart(b, x - |a|) && StartsWithAt(b, x - |a|, pat)
                  then LineEnd(a + b, x + |pat|) else x + 1
    ensures x < y <= |a| + |b|
    ensures LinePrefixFrom(pat, open, close, a + b, y) == LinePrefixFrom(pat, open, close, b, y - |a|) ==>
            LinePrefixFrom(pat, open, close, a + b, x) == LinePrefixFrom(pat, open, close, b, x - |a|)
  {
    RightStep(pat, a, b, x);
    if LineStart(b, x - |a|) && StartsWithAt(b, x - |a|, pat) {
      assert LinePrefixFrom(pat, open, close, b, x - |a|) ==
        open + b[x - |a| + |pat|..LineEnd(b, x - |a| + |pat|)] + close +
        LinePrefixFrom(pat, open, close, b, LineEnd(b, x - |a| + |pat|));
    } else {
      assert LinePrefixFrom(pat, open, close, b, x - |a|) ==
        [b[x - |a|]] + LinePrefixFrom(pat, open, close, b, x - |a| + 1);
    }
  }

  /** Behind a line boundary, a pass over `a + b` from position `x` treats
      `b` as if it stood alone. */
  lemma {:induction false} LinePrefixRight(pat: string, open: string, close: string, a: string, b: string, x: nat)
    requires |pat| > 0 && NoTerminator(pat) && |a| <= x <= |a| + |b| && LineBoundary(a, b)
    ensures LinePrefixFrom(pat, open, close, a + b, x) == LinePrefixFrom(pat, open, close, b, x - |a|)
    decreases |a| + |b| - x
  {
    if x < |a| + |b| {
      var y: nat := if LineStart(b, x - |a|) && StartsWithAt(b, x - |a|, pat)
                    then LineEnd(a + b, x + |pat|) else x + 1;
      RightCons(pat, open, close, a, b, x, y);
      LinePrefixRight(pat, open, close, a, b, y);
    }
  }

  /** Before a line boundary, a match of `pat` at position `p` of `a` has
      its line end inside `a`, and `a + b` sees the same position as `a`
      does. */
  lemma LeftStep(pat: string, a: string, b: string, p: nat)
    requires |pat| > 0 && NoTerminator(pat) && p < |a| && LineBoundary(a, b)
    ensures (a + b)[p] == a[p]
    ensures (LineStart(a + b, p) && StartsWithAt(a + b, p, pat)) ==
            (LineStart(a, p) && StartsWithAt(a, p, pat))
    ensures LineStart(a, p) && StartsWithAt(a, p, pat) ==>
              LineEnd(a + b, p + |pat|) == LineEnd(a, p + |pat|) &&
              (a + b)[p + |pat|..LineEnd(a, p + |pat|)] == a[p + |pat|..LineEnd(a, p + |pat|)]
  {
    LeftMatch(pat, a, b, p);
    if LineStart(a, p) && StartsWithAt(a, p, pat) {
      LeftLine(pat, a, b, p);
    }
  }

  /** Whether a heading line starts at `p` is decided inside `a`. */
  lemma LeftMatch(pat: string, a: string, b: string, p: nat)
    requires |pat| > 0 && NoTerminator(pat) && p < |a| && LineBoundary(a, b)
    ensures (LineStart(a + b, p) && StartsWithAt(a + b, p, pat)) ==
            (LineStart(a, p) && StartsWithAt(a, p, pat))
  {
    var s := a + b;
    if p > 0 {
      assert s[p - 1] == a[p - 1];
    }
    if p + |pat| <= |a| {
      PrefixSlice(a, b, p, p + |pat|);
    } else if b == [] {
      assert s == a;
    } else if IsLineTerminator(a[|a| - 1]) {
      assert s[|a| - 1] == a[|a| - 1];
      MatchNoTerminator(s, p, pat, |a| - 1);
    } else {
      assert s[|a|] == b[0];
      MatchNoTerminator(s, p, pat, |a|);
    }
  }

  /** The rest of a heading line that starts inside `a` lies inside `a`. */
  lemma LeftLine(pat: string, a: string, b: string, p: nat)
    requires |pat| > 0 && NoTerminator(pat) && p < |a| && LineBoundary(a, b) && StartsWithAt(a, p, pat)
    ensures LineEnd(a + b, p + |pat|) == LineEnd(a, p + |pat|)
    ensures (a + b)[p + |pat|..LineEnd(a, p + |pat|)] == a[p + |pat|..LineEnd(a, p + |pat|)]
  {
    var i := p + |pat|;
    MatchNoTerminator(a, p, pat, |a| - 1);
    RunPrefix(a, b, i, NotTerminator);
    PrefixSlice(a, b, i, LineEnd(a, i));
  }

  /** One step of a line-prefix pass: a match at `p`, or a copied character. */
  lemma LinePrefixUnfold(pat: string, open: string, close: string, s: string, p: nat)
    requires |pat| > 0 && p < |s|
    ensures LineStart(s, p) && StartsWithAt(s, p, pat) ==>
              LinePrefixFrom(pat, open, close, s, p) ==
                open + s[p + |pat|..LineEnd(s, p + |pat|)] + close +
                LinePrefixFrom(pat, open, close, s, LineEnd(s, p + |pat|))
    ensures !(LineStart(s, p) && StartsWithAt(s, p, pat)) ==>
              LinePrefixFrom(pat, open, close, s, p) == [s[p]] + LinePrefixFrom(pat, open, close, s, p + 1)
  {
  }

  /** Two results that agree up to a common tail `z`. */
  lemma SamePiecesThen(o: string, c: string, s1: string, s2: string, x1: string, x2: string, y1: string, y2: string, z: string)
    requires s1 == o + x1 + c + y1 && s2 == o + x2 + c + y2 && x1 == x2 && y1 == y2 + z
    ensures s1 == s2 + z
  {
  }

  lemma SameCharThen(c1: char, c2: char, s1: string, s2: string, y1: string, y2: string, z: string)
    requires s1 == [c1] + y1 && s2 == [c2] + y2 && c1 == c2 && y1 == y2 + z
    ensures s1 == s2 + z
  {
  }

  /** The pass over `a + b` from the seam on is the pass over `b`. */
  lemma LinePrefixSeam(pat: string, open: string, close: string, a: string, b: string)
    requires |pat| > 0 && NoTerminator(pat) && LineBoundary(a, b)
    ensures LinePrefixFrom(pat, open, close, a + b, |a|) == LinePrefixFrom(pat, open, close, b, 0)
  {
    LinePrefixRight(pat, open, close, a, b, |a|);
  }

  /** Before a line boundary, a pass over `a + b` is the pass over the rest
      of `a` followed by the pass over `b`. */
  lemma {:induction false} LinePrefixLeft(pat: string, open: string, close: string, a: string, b: string, p: nat)
    requires |pat| > 0 && NoTerminator(pat) && p <= |a| && LineBoundary(a, b)
    ensures LinePrefixFrom(pat, open, close, a + b, p) ==
            LinePrefixFrom(pat, open, close, a, p) + LinePrefixFrom(pat, open, close, b, 0)
    decreases |a| - p
  {
    if p == |a| {
      LinePrefixSeam(pat, open, close, a, b);
    } else {
      var y: nat := if LineStart(a, p) && StartsWithAt(a, p, pat) then LineEnd(a, p + |pat|) else p + 1;
      LeftCons(pat, open, close, a, b, p, y);
      LinePrefixLeft(pat, open, close, a, b, y);
    }
  }

  /** One step of `LinePrefixLeft`: both passes continue at `y`, and the
      split from `y` on gives the split from `p` on. */
  lemma LeftCons(pat: string, open: string, close: string, a: string, b: string, p: nat, y: nat)
    requires |pat| > 0 && NoTerminator(pat) && p < |a| && LineBoundary(a, b)
    requires y == if LineStart(a, p) && StartsWithAt(a, p, pat) then LineEnd(a, p + |pat|) else p + 1
    ensures p < y <= |a|
    ensures LinePrefixFrom(pat, open, close, a + b, y) ==
              LinePrefixFrom(pat, open, close, a, y) + LinePrefixFrom(pat, open, close, b, 0) ==>
            LinePrefixFrom(pat, open, close, a + b, p) ==
              LinePrefixFrom(pat, open, close, a, p) + LinePrefixFrom(pat, open, close, b, 0)
  {
    LeftStep(pat, a, b, p);
    LinePrefixUnfold(pat, open, close, a + b, p);
    LinePrefixUnfold(pat, open, close, a, p);
    if LinePrefixFrom(pat, open, close, a + b, y) ==
       LinePrefixFrom(pat, open, close, a, y) + LinePrefixFrom(pat, open, close, b, 0) {
      if LineStart(a, p) && StartsWithAt(a, p, pat) {
        SamePiecesThen(open, close, LinePrefixFrom(pat, open, close, a + b, p), LinePrefixFrom(pat, open, close, a, p),
          (a + b)[p + |pat|..y], a[p + |pat|..y],
          LinePrefixFrom(pat, open, close, a + b, y), LinePrefixFrom(pat, open, close, a, y),
          LinePrefixFrom(pat, open, close, b, 0));
      } else {
        SameCharThen((a + b)[p], a[p], LinePrefixFrom(pat, open, close, a + b, p), LinePrefixFrom(pat, open, close, a, p),
          LinePrefixFrom(pat, open, close, a + b, y), LinePrefixFrom(pat, open, close, a, y),
          LinePrefixFrom(pat, open, close, b, 0));
      }
    }
  }

  /** A line-prefix pass keeps the terminator that ends a text. */
  lemma {:induction false} LinePrefixEnds(pat: string, open: string, close: string, a: string, p: nat)
    requires |pat| > 0 && NoTerminator(pat) && p < |a| && IsLineTerminator(a[|a| - 1])
    ensures |LinePrefixFrom(pat, open, close, a, p)| > 0
    ensures LinePrefixFrom(pat, open, close, a, p)[|LinePrefixFrom(pat, open, close, a, p)| - 1] == a[|a| - 1]
    decreases |a| - p
  {
    var y: nat := if LineStart(a, p) && StartsWithAt(a, p, pat) then LineEnd(a, p + |pat|) else p + 1;
    EndsStep(pat, open, close, a, p, y);
    if y < |a| {
      LinePrefixEnds(pat, open, close, a, y);
    }
  }

  /** One step of `LinePrefixEnds`: the pass continues at `y`, and a pass
      that ends with the final terminator from `y` on does so from `p` on. */
  lemma EndsStep(pat: string, open: string, close: string, a: string, p: nat, y: nat)
    requires |pat| > 0 && NoTerminator(pat) && p < |a| && IsLineTerminator(a[|a| - 1])
    requires y == if LineStart(a, p) && StartsWithAt(a, p, pat) then LineEnd(a, p + |pat|) else p + 1
    ensures p < y <= |a|
    ensures y == |a| ==> LinePrefixFrom(pat, open, close, a, p) == [a[|a| - 1]]
    ensures y < |a| && |LinePrefixFrom(pat, open, close, a, y)| > 0 &&
            LinePrefixFrom(pat, open, close, a, y)[|LinePrefixFrom(pat, open, close, a, y)| - 1] == a[|a| - 1] ==>
            |LinePrefixFrom(pat, open, close, a, p)| > 0 &&
            LinePrefixFrom(pat, open, close, a, p)[|LinePrefixFrom(pat, open, close, a, p)| - 1] == a[|a| - 1]
  {
    MatchNoTerminator(a, p, pat, |a| - 1);
    if LineStart(a, p) && StartsWithAt(a, p, pat) {
      RunStops(a, p + |pat|, |a| - 1, NotTerminator);
    }
  }

  /** A line-prefix pass keeps the terminator that starts a text. */
  lemma LinePrefixStarts(pat: string, open: string, close: string, b: string)
    requires |pat| > 0 && NoTerminator(pat) && |b| > 0 && IsLineTerminator(b[0])
    ensures LinePrefixFrom(pat, open, close, b, 0) == [b[0]] + LinePrefixFrom(pat, open, close, b, 1)
  {
    MatchNoTerminator(b, 0, pat, 0);
  }

  /** A heading pass works line by line: across a line boundary it splits,
      and the boundary survives it. */
  lemma HeadingPassSplit(n: nat, a: string, b: string)
    requires 1 <= n <= 6 && LineBoundary(a, b)
    ensures HeadingPass(n, a + b) == HeadingPass(n, a) + HeadingPass(n, b)
    ensures LineBoundary(HeadingPass(n, a), HeadingPass(n, b))
  {
    var pat := Hashes(n) + " ";
    PatternNoTerminator(n);
    LinePrefixLeft(pat, HeadingOpen(n), HeadingClose(n), a, b, 0);
    if a == [] || b == [] {
    } else if IsLineTerminator(a[|a| - 1]) {
      LinePrefixEnds(pat, HeadingOpen(n), HeadingClose(n), a, 0);
    } else {
      LinePrefixStarts(pat, HeadingOpen(n), HeadingClose(n), b);
    }
  }

  // ---------------------------------------------------------------------
  // Delimited spans: bold, italics, code blocks and inline code

  /** The lazy search for a closing delimiter from `k`: the first position
      where `close` starts, provided the characters skipped on the way are
      all matched by the content pattern (`.` when not `multiline`,
      `[\s\S]` when it is). */
  function FindClose(s: string, k: nat, close: string, multiline: bool): (r: Option<nat>)
    requires k <= |s| && |close| > 0
    ensures r.Some? ==> k <= r.value && StartsWithAt(s, r.value, close)
    ensures r.Some? ==> forall j :: k <= j < r.value ==> !StartsWithAt(s, j, close) && (multiline || !IsLineTerminator(s[j]))
    decreases |s| - k
  {
    if StartsWithAt(s, k, close) then Some(k)
    else if k == |s| || (!multiline && IsLineTerminator(s[k])) then None
    else FindClose(s, k + 1, close, multiline)
  }

  /** The first close that the content can reach is the one found. */
  lemma {:induction false} FindCloseAt(s: string, k: nat, close: string, multiline: bool, m: nat)
    requires k <= m && m + |close| <= |s| && |close| > 0 && StartsWithAt(s, m, close)
    requires forall j :: k <= j < m ==> !StartsWithAt(s, j, close) && (multiline || !IsLineTerminator(s[j]))
    ensures FindClose(s, k, close, multiline) == Some(m)
    decreases m - k
  {
    if k < m {
      FindCloseAt(s, k + 1, close, multiline, m);
    }
  }

  /** A pattern `open(content)close` replaced by `before$1after`.
      `nonEmpty` is set for `[^`]+`, whose content needs a character. */
  datatype Span = Span(open: string, close: string, multiline: bool, nonEmpty: bool, before: string, after: string)

  /** `\*\*(.*?)\*\*`, `__(.*?)__`, `\*(.*?)\*`, `_(.*?)_`, the code block
      ```` ```([\s\S]*?)``` ```` and the inline code `` `([^`]+)` ``. */
  const StarBold := Span("**", "**", false, false, StrongOpen, StrongClose)
  const UnderscoreBold := Span("__", "__", false, false, StrongOpen, StrongClose)
  const StarItalic := Span("*", "*", false, false, EmOpen, EmClose)
  const UnderscoreItalic := Span("_", "_", false, false, EmOpen, EmClose)
  const CodeBlock := Span("```", "```", true, false, PreOpen, PreClose)
  const InlineCode := Span("`", "`", true, true, CodeOpen, CodeClose)

  predicate ValidSpan(sp: Span) {
    |sp.open| > 0 && |sp.close| > 0
  }

  function SpanFrom(sp: Span, s: string, p: nat): string
    requires ValidSpan(sp) && p <= |s|
    decreases |s| - p
  {
    if p == |s| then ""
    else if StartsWithAt(s, p, sp.open) then
      match FindClose(s, p + |sp.open|, sp.close, sp.multiline)
      case Some(m) =>
        if sp.nonEmpty && m == p + |sp.open| then [s[p]] + SpanFrom(sp, s, p + 1)
        else sp.before + s[p + |sp.open|..m] + sp.after + SpanFrom(sp, s, m + |sp.close|)
      case None => [s[p]] + SpanFrom(sp, s, p + 1)
    else [s[p]] + SpanFrom(sp, s, p + 1)
  }

  function SpanPass(sp: Span, s: string): string
    requires ValidSpan(sp)
  {
    SpanFrom(sp, s, 0)
  }

  /** A text in which the opening delimiter's first character never occurs
      passes through unchanged. */
  lemma {:induction false} SpanFromCopies(sp: Span, s: string, p: nat)
    requires ValidSpan(sp) && p <= |s|
    requires forall j :: p <= j < |s| ==> s[j] != sp.open[0]
    ensures SpanFrom(sp, s, p) == s[p..]
    decreases |s| - p
  {
    if p < |s| {
      assert !StartsWithAt(s, p, sp.open) by {
        if p + |sp.open| <= |s| {
          assert s[p..p + |sp.open|][0] == s[p];
        }
      }
      SpanFromCopies(sp, s, p + 1);
      assert s[p..] == [s[p]] + s[p + 1..];
    }
  }

  /** The bold, then italic passes, in the order of the source. */
  function Emphasis(s: string): string {
    SpanPass(UnderscoreItalic, SpanPass(StarItalic, SpanPass(UnderscoreBold, SpanPass(StarBold, s))))
  }

  predicate Plain(t: string) {
    forall j :: 0 <= j < |t| ==> t[j] != '*' && t[j] != '_' && !IsLineTerminator(t[j])
  }

  // ---------------------------------------------------------------------
  // Links: `\[(.*?)\]\((.*?)\)`

  /** The text is the shortest run up to `](` and the address the shortest
      run up to `)`, neither crossing a line end. When the address has no
      `)` on its line, a later `](` on the same line cannot supply one either,
      so the first `](` decides. */
  function LinkFrom(s: string, p: nat): string
    requires p <= |s|
    decreases |s| - p
  {
    if p == |s| then ""
    else if s[p] == '[' then
      match FindClose(s, p + 1, "](", false)
      case None => [s[p]] + LinkFrom(s, p + 1)
      case Some(k) =>
        match FindClose(s, k + 2, ")", false)
        case None => [s[p]] + LinkFrom(s, p + 1)
        case Some(m) => LinkOpen + s[k + 2..m] + LinkMid + s[p + 1..k] + LinkClose + LinkFrom(s, m + 1)
    else [s[p]] + LinkFrom(s, p + 1)
  }

  function Links(s: string): string {
    LinkFrom(s, 0)
  }

  // ---------------------------------------------------------------------
  // Lists: `^\s*[\*-]\s+(.*)$` and `^\s*\d+\.\s+(.*)$` with the `gim` flags

  datatype ListKind = Bullet | Numbered

  /** The position after the marker `[\*-]` or `\d+\.` at `q`. */
  function MarkerEnd(s: string, q: nat, kind: ListKind): (r: Option<nat>)
    requires q <= |s|
    ensures r.Some? ==> q < r.value <= |s|
  {
    match kind
    case Bullet => if q < |s| && (s[q] == '*' || s[q] == '-') then Some(q + 1) else None
    case Numbered =>
      var d := Run(s, q, Digit);
      if d > 0 && q + d < |s| && s[q + d] == '.' then Some(q + d + 1) else None
  }

  datatype ItemMatch = ItemMatch(content: string, end: nat)

  /** A list line matched at `p`. The leading `\s*` is greedy and may run
      over blank lines; since neither marker is white space, giving back
      white space never helps, so the greedy runs decide the match. */
  function ItemAt(s: string, p: nat, kind: ListKind): (r: Option<ItemMatch>)
    requires p <= |s|
    ensures r.Some? ==> p < r.value.end <= |s|
  {
    if !LineStart(s, p) then None else ItemFrom(s, p + Run(s, p, Space), kind)
  }

  /** The rest of a list line once the indentation ends at `q`. */
  function ItemFrom(s: string, q: nat, kind: ListKind): (r: Option<ItemMatch>)
    requires q <= |s|
    ensures r.Some? ==> q < r.value.end <= |s|
  {
    match MarkerEnd(s, q, kind)
    case None => None
    case Some(r0) => ContentAt(s, r0)
  }

  /** `\s+(.*)$` after the marker, which ends at `r0`. */
  function ContentAt(s: string, r0: nat): (r: Option<ItemMatch>)
    requires r0 <= |s|
    ensures r.Some? ==> r0 < r.value.end <= |s|
  {
    var w := Run(s, r0, Space);
    if w == 0 then None
    else
      var c := r0 + w;
      var e := LineEnd(s, c);
      Some(ItemMatch(s[c..e], e))
  }

  /** The text cut into kept characters and matched list lines. */
  datatype Piece = Kept(c: char) | Item(text: string, content: string)

  function PiecesFrom(s: string, p: nat, kind: ListKind): seq<Piece>
    requires p <= |s|
    decreases |s| - p
  {
    if p == |s| then []
    else
      match ItemAt(s, p, kind)
      case Some(m) => [Item(s[p..m.end], m.content)] + PiecesFrom(s, m.end, kind)
      case None => [Kept(s[p])] + PiecesFrom(s, p + 1, kind)
  }

  function PieceText(pc: Piece): string {
    match pc
    case Kept(c) => [c]
    case Item(t, _) => t
  }

  function Concat(pieces: seq<Piece>): string {
    if pieces == [] then "" else PieceText(pieces[0]) + Concat(pieces[1..])
  }

  /** `replace(re, '')`: the kept characters only. */
  function Deleted(pieces: seq<Piece>): string {
    if pieces == [] then ""
    else if pieces[0].Kept? then [pieces[0].c] + Deleted(pieces[1..])
    else Deleted(pieces[1..])
  }

  /** `replace(re, '<li class="ml-4">$1</li>')`. */
  function Replaced(pieces: seq<Piece>): string {
    if pieces == [] then ""
    else if pieces[0].Kept? then [pieces[0].c] + Replaced(pieces[1..])
    else LiOpen + pieces[0].content + LiClose + Replaced(pieces[1..])
  }

  /** `match(re)`: the matched lines. */
  function MatchTexts(pieces: seq<Piece>): seq<string> {
    if pieces == [] then []
    else if pieces[0].Item? then [pieces[0].text] + MatchTexts(pieces[1..])
    else MatchTexts(pieces[1..])
  }

  /** The captured contents of the matched lines. */
  function Contents(pieces: seq<Piece>): seq<string> {
    if pieces == [] then []
    else if pieces[0].Item? then [pieces[0].content] + Contents(pieces[1..])
    else Contents(pieces[1..])
  }

  function ListOpen(kind: ListKind): string {
    match kind
    case Bullet => UlOpen
    case Numbered => OlOpen
  }

  function ListClose(kind: ListKind): string {
    match kind
    case Bullet => UlClose
    case Numbered => OlClose
  }

  /** `listItems.map(item => item.replace(re, li))`. */
  function RewriteEach(matches: seq<string>, kind: ListKind): (r: seq<string>)
    ensures |r| == |matches|
  {
    if matches == [] then []
    else [Replaced(PiecesFrom(matches[0], 0, kind))] + RewriteEach(matches[1..], kind)
  }

  /** One `<li>` per content, in order. */
  function ListItems(contents: seq<string>): (r: seq<string>)
    ensures |r| == |contents|
    ensures forall i :: 0 <= i < |r| ==> r[i] == LiOpen + contents[i] + LiClose
  {
    if contents == [] then []
    else [LiOpen + contents[0] + LiClose] + ListItems(contents[1..])
  }

  /** One list pass: when some line matches, the matched lines are deleted
      and one list holding their rewritten items is appended. */
  function ListPass(s: string, kind: ListKind): string {
    var pieces := PiecesFrom(s, 0, kind);
    var matches := MatchTexts(pieces);
    if |matches| == 0 then s
    else Deleted(pieces) + (ListOpen(kind) + Join(RewriteEach(matches, kind), "") + ListClose(kind))
  }

  /** The unordered pass, then the ordered pass, as in the source. */
  function Lists(s: string): string {
    ListPass(ListPass(s, Bullet), Numbered)
  }

  /** The pieces cover the text: nothing is lost or reordered. */
  lemma {:induction false} PiecesCover(s: string, p: nat, kind: ListKind)
    requires p <= |s|
    ensures Concat(PiecesFrom(s, p, kind)) == s[p..]
    decreases |s| - p
  {
    if p < |s| {
      var e := PiecesStep(s, p, kind);
      PiecesCover(s, e, kind);
      SliceSplit(s, p, e);
    }
  }

  lemma SliceSplit(s: string, p: nat, e: nat)
    requires p <= e <= |s|
    ensures s[p..] == s[p..e] + s[e..]
  {
  }

  /** The head piece covers the text from `p` up to some `e`. */
  lemma PiecesStep(s: string, p: nat, kind: ListKind) returns (e: nat)
    requires p < |s|
    ensures p < e <= |s|
    ensures Concat(PiecesFrom(s, p, kind)) == s[p..e] + Concat(PiecesFrom(s, e, kind))
  {
    var o := ItemAt(s, p, kind);
    if o.Some? {
      e := o.value.end;
      PiecesItem(s, p, kind, o.value);
    } else {
      e := p + 1;
      PiecesKept(s, p, kind);
      assert s[p..e] == [s[p]];
    }
  }

  /** The head piece is a matched line, when one starts at `p`. */
  lemma PiecesItem(s: string, p: nat, kind: ListKind, m: ItemMatch)
    requires p < |s| && ItemAt(s, p, kind) == Some(m)
    ensures p < m.end <= |s|
    ensures Concat(PiecesFrom(s, p, kind)) == s[p..m.end] + Concat(PiecesFrom(s, m.end, kind))
  {
    var head := Item(s[p..m.end], m.content);
    assert PiecesFrom(s, p, kind) == [head] + PiecesFrom(s, m.end, kind);
    ConcatCons(head, PiecesFrom(s, m.end, kind));
  }

  /** Otherwise the head piece is the character at `p`. */
  lemma PiecesKept(s: string, p: nat, kind: ListKind)
    requires p < |s| && ItemAt(s, p, kind).None?
    ensures Concat(PiecesFrom(s, p, kind)) == [s[p]] + Concat(PiecesFrom(s, p + 1, kind))
  {
    assert PiecesFrom(s, p, kind) == [Kept(s[p])] + PiecesFrom(s, p + 1, kind);
    ConcatCons(Kept(s[p]), PiecesFrom(s, p + 1, kind));
  }

  lemma ConcatCons(pc: Piece, rest: seq<Piece>)
    ensures Concat([pc] + rest) == PieceText(pc) + Concat(rest)
  {
    assert ([pc] + rest)[1..] == rest;
  }

  /** If no line matches, there are no items. */
  lemma {:induction false} NoMatchNoItems(s: string, p: nat, kind: ListKind)
    requires p <= |s|
    requires forall j :: p <= j <= |s| ==> ItemAt(s, j, kind).None?
    ensures MatchTexts(PiecesFrom(s, p, kind)) == []
    decreases |s| - p
  {
    if p < |s| {
      NoMatchNoItems(s, p + 1, kind);
    }
  }

  /** When no line matches, the pass changes nothing. */
  lemma ListPassIdentity(s: string, kind: ListKind)
    requires forall j :: 0 <= j <= |s| ==> ItemAt(s, j, kind).None?
    ensures ListPass(s, kind) == s
  {
    NoMatchNoItems(s, 0, kind);
  }

  /** The marker is found again in a slice that holds it. */
  lemma MarkerSlice(s: string, p: nat, e: nat, q: nat, kind: ListKind)
    requires p <= q <= e <= |s| && MarkerEnd(s, q, kind).Some? && MarkerEnd(s, q, kind).value < e
    ensures MarkerEnd(s[p..e], q - p, kind) == Some(MarkerEnd(s, q, kind).value - p)
  {
    match kind {
      case Bullet =>
        assert s[p..e][q - p] == s[q];
      case Numbered =>
        var d := Run(s, q, Digit);
        RunSlice(s, p, e, q, Digit);
        assert s[p..e][q + d - p] == s[q + d];
    }
  }

  /** A line matched at `p`, matched again on its own, gives the same
      content and covers the whole line. */
  lemma ItemAtSlice(s: string, p: nat, kind: ListKind, m: ItemMatch)
    requires p <= |s| && ItemAt(s, p, kind) == Some(m)
    ensures ItemAt(s[p..m.end], 0, kind) == Some(ItemMatch(m.content, m.end - p))
  {
    var q, r, e := ItemRuns(s, p, kind, m);
    ItemParts(s, p, kind, q, r, e, m.end);
  }

  /** The greedy runs of a matched line, found again in its slice. */
  lemma ItemParts(s: string, p: nat, kind: ListKind, q: nat, r: nat, e: nat, f: nat)
    requires p <= q < r < e <= f <= |s| && q == p + Run(s, p, Space)
    requires MarkerEnd(s, q, kind) == Some(r) && Run(s, r, Space) == e - r && f == LineEnd(s, e)
    ensures ItemAt(s[p..f], 0, kind) == Some(ItemMatch(s[e..f], f - p))
  {
    SliceRuns(s, p, kind, q, r, e, f);
    SliceOfSlice(s, p, f, e, f);
    ItemAtStart(s[p..f], kind, q - p, r - p, e - p, f - p, s[e..f]);
  }

  lemma SliceRuns(s: string, p: nat, kind: ListKind, q: nat, r: nat, e: nat, f: nat)
    requires p <= q < r < e <= f <= |s| && q == p + Run(s, p, Space)
    requires MarkerEnd(s, q, kind) == Some(r) && Run(s, r, Space) == e - r && f == LineEnd(s, e)
    ensures Run(s[p..f], 0, Space) == q - p && MarkerEnd(s[p..f], q - p, kind) == Some(r - p)
    ensures Run(s[p..f], r - p, Space) == e - r && LineEnd(s[p..f], e - p) == f - p
  {
    RunSlice(s, p, f, p, Space);
    MarkerSlice(s, p, f, q, kind);
    RunSlice(s, p, f, r, Space);
    RunSlice(s, p, f, e, NotTerminator);
  }

  /** The greedy runs of a line matched at `p`: the indentation ends at
      `q`, the marker at `r`, and the content starts at `e`. */
  lemma ItemRuns(s: string, p: nat, kind: ListKind, m: ItemMatch) returns (q: nat, r: nat, e: nat)
    requires p <= |s| && ItemAt(s, p, kind) == Some(m)
    ensures p <= q < r < e <= m.end <= |s| && q == p + Run(s, p, Space)
    ensures MarkerEnd(s, q, kind) == Some(r) && Run(s, r, Space) == e - r
    ensures m.end == LineEnd(s, e) && m.content == s[e..m.end]
  {
    q := p + Run(s, p, Space);
    r := MarkerEnd(s, q, kind).value;
    e := r + Run(s, r, Space);
  }

  lemma SliceOfSlice(s: string, p: nat, e: nat, i: nat, j: nat)
    requires p <= i <= j <= e <= |s|
    ensures s[p..e][i - p..j - p] == s[i..j]
  {
    var u := s[p..e][i - p..j - p];
    assert forall k :: 0 <= k < |u| ==> u[k] == s[i..j][k];
  }

  /** `ItemAt` at position 0, from the lengths of its greedy runs. */
  lemma ItemAtStart(t: string, kind: ListKind, a: nat, r0: nat, c: nat, f: nat, content: string)
    requires a <= |t| && Run(t, 0, Space) == a && MarkerEnd(t, a, kind) == Some(r0)
    requires r0 < c <= |t| && Run(t, r0, Space) == c - r0
    requires LineEnd(t, c) == f && t[c..f] == content
    ensures ItemAt(t, 0, kind) == Some(ItemMatch(content, f))
  {
    ContentAtRuns(t, r0, c, f);
    assert ItemFrom(t, a, kind) == ContentAt(t, r0);
  }

  lemma ContentAtRuns(t: string, r0: nat, c: nat, f: nat)
    requires r0 < c <= |t| && Run(t, r0, Space) == c - r0 && LineEnd(t, c) == f
    ensures ContentAt(t, r0) == Some(ItemMatch(t[c..f], f))
  {
  }

  /** So each matched line rewrites to exactly one `<li>`. */
  lemma ItemRewrite(s: string, p: nat, kind: ListKind)
    requires p <= |s| && ItemAt(s, p, kind).Some?
    ensures Replaced(PiecesFrom(s[p..ItemAt(s, p, kind).value.end], 0, kind)) == LiOpen + ItemAt(s, p, kind).value.content + LiClose
  {
    var m := ItemAt(s, p, kind).value;
    var t := s[p..m.end];
    ItemAtSlice(s, p, kind, m);
    assert PiecesFrom(t, |t|, kind) == [];
    assert PiecesFrom(t, 0, kind) == [Item(t[0..|t|], m.content)];
  }

  /** Every item piece rewrites to the `<li>` of its content. */
  lemma {:induction false} RewriteMatches(s: string, p: nat, kind: ListKind)
    requires p <= |s|
    ensures RewriteEach(MatchTexts(PiecesFrom(s, p, kind)), kind) == ListItems(Contents(PiecesFrom(s, p, kind)))
    decreases |s| - p
  {
    if p < |s| {
      var isItem, e, content := PiecesHead(s, p, kind);
      RewriteMatches(s, e, kind);
      if isItem {
        RewriteItemCons(s[p..e], content, PiecesFrom(s, e, kind), kind);
      } else {
        RewriteKeptCons(s[p], PiecesFrom(s, e, kind), kind);
      }
    } else {
      assert PiecesFrom(s, p, kind) == [];
    }
  }

  /** The head piece at `p`: a matched line up to `e` with its `<li>`, or
      the character at `p`. */
  lemma PiecesHead(s: string, p: nat, kind: ListKind) returns (isItem: bool, e: nat, content: string)
    requires p < |s|
    ensures p < e <= |s|
    ensures isItem ==> PiecesFrom(s, p, kind) == [Item(s[p..e], content)] + PiecesFrom(s, e, kind) &&
                       Replaced(PiecesFrom(s[p..e], 0, kind)) == LiOpen + content + LiClose
    ensures !isItem ==> e == p + 1 && PiecesFrom(s, p, kind) == [Kept(s[p])] + PiecesFrom(s, e, kind)
  {
    var o := ItemAt(s, p, kind);
    if o.Some? {
      isItem, e, content := true, o.value.end, o.value.content;
      PiecesItemHead(s, p, kind, o.value);
      ItemRewrite(s, p, kind);
    } else {
      isItem, e, content := false, p + 1, "";
      PiecesKeptHead(s, p, kind);
    }
  }

  lemma PiecesItemHead(s: string, p: nat, kind: ListKind, m: ItemMatch)
    requires p < |s| && ItemAt(s, p, kind) == Some(m)
    ensures p < m.end <= |s|
    ensures PiecesFrom(s, p, kind) == [Item(s[p..m.end], m.content)] + PiecesFrom(s, m.end, kind)
  {
  }

  lemma PiecesKeptHead(s: string, p: nat, kind: ListKind)
    requires p < |s| && ItemAt(s, p, kind).None?
    ensures PiecesFrom(s, p, kind) == [Kept(s[p])] + PiecesFrom(s, p + 1, kind)
  {
  }

  /** A leading item adds its `<li>` in front. */
  lemma RewriteItemCons(text: string, content: string, rest: seq<Piece>, kind: ListKind)
    requires Replaced(PiecesFrom(text, 0, kind)) == LiOpen + content + LiClose
    requires RewriteEach(MatchTexts(rest), kind) == ListItems(Contents(rest))
    ensures RewriteEach(MatchTexts([Item(text, content)] + rest), kind) == ListItems(Contents([Item(text, content)] + rest))
  {
    var ps := [Item(text, content)] + rest;
    assert ps[1..] == rest;
    var ms := [text] + MatchTexts(rest);
    assert ms[1..] == MatchTexts(rest);
    var cs := [content] + Contents(rest);
    assert cs[1..] == Contents(rest);
  }

  /** A leading kept character adds nothing. */
  lemma RewriteKeptCons(c: char, rest: seq<Piece>, kind: ListKind)
    ensures MatchTexts([Kept(c)] + rest) == MatchTexts(rest)
    ensures Contents([Kept(c)] + rest) == Contents(rest)
  {
    assert ([Kept(c)] + rest)[1..] == rest;
  }

  /** The shape of a list pass that found items: the text without the
      matched lines, then one list with an `<li>` per matched line, in the
      order of the lines. */
  lemma ListPassShape(s: string, kind: ListKind)
    requires |MatchTexts(PiecesFrom(s, 0, kind))| > 0
    ensures ListPass(s, kind) ==
      Deleted(PiecesFrom(s, 0, kind)) + (ListOpen(kind) + Join(ListItems(Contents(PiecesFrom(s, 0, kind))), "") + ListClose(kind))
  {
    RewriteMatches(s, 0, kind);
  }

  // ---------------------------------------------------------------------
  // Line breaks and the paragraph wrap

  /** `replace(/pat/g, rep)` for a literal pattern. */
  function ReplaceAllFrom(s: string, p: nat, pat: string, rep: string): string
    requires p <= |s| && |pat| > 0
    decreases |s| - p
  {
    if p == |s| then ""
    else if StartsWithAt(s, p, pat) then rep + ReplaceAllFrom(s, p + |pat|, pat, rep)
    else [s[p]] + ReplaceAllFrom(s, p + 1, pat, rep)
  }

  /** `\n\n` becomes a paragraph break, then every other `\n` a `<br>`. */
  function Breaks(s: string): string {
    ReplaceAllFrom(ReplaceAllFrom(s, 0, "\n\n", ParagraphBreak), 0, "\n", LineBreak)
  }

  /** Replacing every `\n` by `<br>` leaves no `\n`. */
  lemma {:induction false} NoNewlineLeft(s: string, p: nat)
    requires p <= |s|
    ensures '\n' !in ReplaceAllFrom(s, p, "\n", LineBreak)
    decreases |s| - p
  {
    if p < |s| {
      NoNewlineLeft(s, p + 1);
      if !StartsWithAt(s, p, "\n") {
        assert s[p..p + 1] == [s[p]];
      }
    }
  }

  /** The final wrap: text that does not open with `<` is put in a
      paragraph. */
  function Wrap(h: string): (r: string)
    ensures |r| > 0 && r[0] == '<'
    ensures '\n' in r ==> '\n' in h
  {
    if |h| > 0 && h[0] == '<' then h else ParagraphOpen + h + ParagraphClose
  }

  /** The whole renderer as one function of the input. */
  function Render(markdown: string): string {
    Wrap(Breaks(Lists(SpanPass(InlineCode, SpanPass(CodeBlock, Links(Emphasis(Headings(markdown))))))))
  }

  /** `markdownToHtml`: the local `html` is rewritten pass after pass. */
  method MarkdownToHtml(markdown: string) returns (html: string)
    ensures html == Render(markdown)
    ensures '\n' !in html
    ensures |html| > 0 && html[0] == '<'
  {
    html := markdown;
    html := HeadingPass(6, html);
    html := HeadingPass(5, html);
    html := HeadingPass(4, html);
    html := HeadingPass(3, html);
    html := HeadingPass(2, html);
    html := HeadingPass(1, html);

    html := SpanPass(StarBold, html);
    html := SpanPass(UnderscoreBold, html);
    html := SpanPass(StarItalic, html);
    html := SpanPass(UnderscoreItalic, html);

    html := Links(html);
    html := SpanPass(CodeBlock, html);
    html := SpanPass(InlineCode, html);

    var listItems := MatchTexts(PiecesFrom(html, 0, Bullet));
    if |listItems| > 0 {
      var listContent := Join(RewriteEach(listItems, Bullet), "");
      html := Deleted(PiecesFrom(html, 0, Bullet));
      html := html + (UlOpen + listContent + UlClose);
    }

    var orderedListItems := MatchTexts(PiecesFrom(html, 0, Numbered));
    if |orderedListItems| > 0 {
      var orderedListContent := Join(RewriteEach(orderedListItems, Numbered), "");
      html := Deleted(PiecesFrom(html, 0, Numbered));
      html := html + (OlOpen + orderedListContent + OlClose);
    }

    html := ReplaceAllFrom(html, 0, "\n\n", ParagraphBreak);
    html := ReplaceAllFrom(html, 0, "\n", LineBreak);
    NoNewlineLeft(ReplaceAllFrom(Lists(SpanPass(InlineCode, SpanPass(CodeBlock, Links(Emphasis(Headings(markdown)))))), 0, "\n\n", ParagraphBreak), 0);

    if !(|html| > 0 && html[0] == '<') {
      html := ParagraphOpen + html + ParagraphClose;
    }
  }

  /** The output never holds a line feed. */
  lemma RenderNoNewline(markdown: string)
    ensures '\n' !in Render(markdown)
  {
    var before := Lists(SpanPass(InlineCode, SpanPass(CodeBlock, Links(Emphasis(Headings(markdown))))));
    NoNewlineLeft(ReplaceAllFrom(before, 0, "\n\n", ParagraphBreak), 0);
  }

}
