/** Properties of the rendered HTML that depend on the characters of the
    tags the passes insert. */
module MarkdownProperties {
  import opened Strings
  import opened Markdown

  /** Printable ASCII other than the emphasis delimiters: what the tags the
      passes insert are made of. */
  predicate InertChar(c: char) {
    ' ' <= c <= '~' && c != '*' && c != '_'
  }

  predicate Inert(s: string) {
    forall j :: 0 <= j < |s| ==> InertChar(s[j])
  }

  lemma InertAppend(a: string, b: string)
    requires Inert(a) && Inert(b)
    ensures Inert(a + b)
  {
    forall j | 0 <= j < |a + b| ensures InertChar((a + b)[j]) {
      if j < |a| { assert (a + b)[j] == a[j]; } else { assert (a + b)[j] == b[j - |a|]; }
    }
  }

  lemma InertNoTerminator(s: string)
    requires Inert(s)
    ensures NoTerminator(s)
  {
  }

  /** No emphasis delimiter anywhere in the text. */
  predicate NoDelimiter(u: string) {
    forall j :: 0 <= j < |u| ==> u[j] != '*' && u[j] != '_'
  }

  lemma NoDelimiterAppend(a: string, b: string)
    requires NoDelimiter(a) && NoDelimiter(b)
    ensures NoDelimiter(a + b)
  {
    forall j | 0 <= j < |a + b| ensures (a + b)[j] != '*' && (a + b)[j] != '_' {
      if j < |a| { assert (a + b)[j] == a[j]; } else { assert (a + b)[j] == b[j - |a|]; }
    }
  }

  // ---------------------------------------------------------------------
  // The characters of the tags

  lemma HeadingSizeInert(n: nat)
    requires 1 <= n <= 6
    ensures Inert(HeadingSize(n))
  {
    match n
    case 6 => assert Inert("text-sm");
    case 5 => assert Inert("text-base");
    case 4 => assert Inert("text-lg");
    case 3 => assert Inert("text-xl");
    case 2 => assert Inert("text-2xl");
    case 1 => assert Inert("text-3xl");
  }

  lemma HeadingStyleInert()
    ensures Inert(HeadingStyle)
  {
    var a, b := " font-bold mt-4", " mb-2 text-forest-800\">";
    assert Inert(a) && Inert(b);
    InertAppend(a, b);
  }

  lemma DigitInert(n: nat)
    requires n < 10
    ensures Inert([DigitChar(n)])
  {
    assert "0123456789"[n] == DigitChar(n);
    assert Inert("0123456789");
  }

  /** The heading tags are plain one-line ASCII and the opening tag starts
      with `<`. */
  lemma HeadingTags(n: nat)
    requires 1 <= n <= 6
    ensures Inert(HeadingOpen(n)) && Inert(HeadingClose(n)) && HeadingOpen(n)[0] == '<'
  {
    var a, b, c := "<h", [DigitChar(n)], " class=\"";
    assert Inert(a) && Inert(c) && Inert("</h") && Inert(">");
    DigitInert(n);
    HeadingSizeInert(n);
    HeadingStyleInert();
    InertAppend(a, b);
    InertAppend(a + b, c);
    InertAppend(a + b + c, HeadingSize(n));
    InertAppend(a + b + c + HeadingSize(n), HeadingStyle);
    InertAppend("</h", b);
    InertAppend("</h" + b, ">");
  }

  lemma StrongTags()
    ensures Inert(StrongOpen) && Inert(StrongClose)
  {
    var a, b, c := "<strong class=\"", "font-semibold ", "text-forest-900\">";
    assert Inert(a) && Inert(b) && Inert(c) && Inert(StrongClose);
    InertAppend(a, b);
    InertAppend(a + b, c);
  }

  /** The list tags. */
  lemma ListTags()
    ensures Inert(UlOpen) && Inert(UlClose) && Inert(OlOpen) && Inert(OlClose)
    ensures Inert(LiOpen) && Inert(LiClose)
  {
    var a, b := " list-inside my-2", " space-y-1\">";
    assert Inert(a) && Inert(b);
    InertAppend(a, b);
    var u, o := "<ul class=\"", "<ol class=\"";
    assert Inert(u) && Inert("list-disc") && Inert(o) && Inert("list-decimal");
    InertAppend(u, "list-disc");
    InertAppend(u + "list-disc", ListStyle);
    InertAppend(o, "list-decimal");
    InertAppend(o + "list-decimal", ListStyle);
    assert Inert(UlClose) && Inert(OlClose) && Inert(LiOpen) && Inert(LiClose);
  }

  // ---------------------------------------------------------------------
  // Headings

  /** A line `#…# title` with `n` hashes becomes a level-`n` heading and
      nothing else: the passes for deeper levels, which run first, need a
      further `#` where the line has its space, and the passes for higher
      levels see a line that opens with `<`. */
  lemma HeadingLevel(n: nat, title: string)
    requires 1 <= n <= 6 && NoTerminator(title)
    ensures Headings(Hashes(n) + " " + title) == HeadingOpen(n) + title + HeadingClose(n)
  {
    DeeperLevelsSkip(n, title);
    HeadingPassTakes(n, title);
    HigherLevelsSkip(n, title);
    HeadingChain(n, Hashes(n) + " " + title, HeadingOpen(n) + title + HeadingClose(n));
  }

  lemma DeeperLevelsSkip(n: nat, title: string)
    requires 1 <= n <= 6 && NoTerminator(title)
    ensures forall m :: n < m <= 6 ==> HeadingPass(m, Hashes(n) + " " + title) == Hashes(n) + " " + title
  {
    var s := Hashes(n) + " " + title;
    assert NoTerminator(s) by {
      forall j | 0 <= j < |s| ensures !IsLineTerminator(s[j]) {
        if j > n { assert s[j] == title[j - n - 1]; }
      }
    }
    forall m | n < m <= 6 ensures HeadingPass(m, s) == s {
      assert !StartsWithAt(s, 0, Hashes(m) + " ") by {
        assert s[n] == ' ';
        assert (Hashes(m) + " ")[n] == '#';
      }
      HeadingPassSkips(m, s);
    }
  }

  lemma HigherLevelsSkip(n: nat, title: string)
    requires 1 <= n <= 6 && NoTerminator(title)
    ensures forall m :: 1 <= m < n ==> HeadingPass(m, HeadingOpen(n) + title + HeadingClose(n)) == HeadingOpen(n) + title + HeadingClose(n)
  {
    var h := HeadingOpen(n) + title + HeadingClose(n);
    HeadingTags(n);
    InertNoTerminator(HeadingOpen(n));
    InertNoTerminator(HeadingClose(n));
    NoTerminatorAppend(HeadingOpen(n), title);
    NoTerminatorAppend(HeadingOpen(n) + title, HeadingClose(n));
    assert h[0] == '<';
    forall m | 1 <= m < n ensures HeadingPass(m, h) == h {
      assert (Hashes(m) + " ")[0] == '#';
      HeadingPassSkips(m, h);
    }
  }

  /** The six passes in a row, given what each of them does. */
  lemma HeadingChain(n: nat, s: string, h: string)
    requires 1 <= n <= 6
    requires forall m :: n < m <= 6 ==> HeadingPass(m, s) == s
    requires HeadingPass(n, s) == h
    requires forall m :: 1 <= m < n ==> HeadingPass(m, h) == h
    ensures Headings(s) == h
  {
    assert HeadingPass(6, s) == if n == 6 then h else s;
    assert HeadingPass(5, HeadingPass(6, s)) == if n >= 5 then h else s;
    assert HeadingPass(4, HeadingPass(5, HeadingPass(6, s))) == if n >= 4 then h else s;
    assert HeadingPass(3, HeadingPass(4, HeadingPass(5, HeadingPass(6, s)))) == if n >= 3 then h else s;
    assert HeadingPass(2, HeadingPass(3, HeadingPass(4, HeadingPass(5, HeadingPass(6, s))))) == if n >= 2 then h else s;
  }

  /** The six heading passes work line by line: at a line boundary the
      text may be rendered in two parts. */
  lemma HeadingsSplit(a: string, b: string)
    requires LineBoundary(a, b)
    ensures Headings(a + b) == Headings(a) + Headings(b)
    ensures LineBoundary(Headings(a), Headings(b))
  {
    HeadingPassSplit(6, a, b);
    var a6, b6 := HeadingPass(6, a), HeadingPass(6, b);
    HeadingPassSplit(5, a6, b6);
    var a5, b5 := HeadingPass(5, a6), HeadingPass(5, b6);
    HeadingPassSplit(4, a5, b5);
    var a4, b4 := HeadingPass(4, a5), HeadingPass(4, b5);
    HeadingPassSplit(3, a4, b4);
    var a3, b3 := HeadingPass(3, a4), HeadingPass(3, b4);
    HeadingPassSplit(2, a3, b3);
    var a2, b2 := HeadingPass(2, a3), HeadingPass(2, b3);
    HeadingPassSplit(1, a2, b2);
  }

  /** A heading line anywhere in a text: whatever lines stand before and
      after it, the line `#…# title` with `n` hashes becomes the level-`n`
      heading, and the lines around it are rendered as on their own. */
  lemma HeadingLine(n: nat, pre: string, title: string, post: string)
    requires 1 <= n <= 6 && NoTerminator(title)
    requires pre == [] || IsLineTerminator(pre[|pre| - 1])
    requires post == [] || IsLineTerminator(post[0])
    ensures Headings(pre + (Hashes(n) + " " + title) + post) ==
            Headings(pre) + (HeadingOpen(n) + title + HeadingClose(n)) + Headings(post)
  {
    HeadingLevel(n, title);
    LineInText(pre, Hashes(n) + " " + title, post, HeadingOpen(n) + title + HeadingClose(n));
  }

  /** A line rendered as `h` on its own is rendered as `h` between other
      lines. */
  lemma LineInText(pre: string, line: string, post: string, h: string)
    requires pre == [] || IsLineTerminator(pre[|pre| - 1])
    requires post == [] || IsLineTerminator(post[0])
    requires Headings(line) == h
    ensures Headings(pre + line + post) == Headings(pre) + h + Headings(post)
  {
    var rest := line + post;
    HeadingsSplit(line, post);
    HeadingsSplit(pre, rest);
    Regroup(Headings(pre), Headings(rest), h, Headings(post));
    Reassociate(pre, line, post);
  }

  lemma Regroup(hp: string, hr: string, h: string, hq: string)
    requires hr == h + hq
    ensures hp + hr == hp + h + hq
  {
  }

  lemma Reassociate(a: string, b: string, c: string)
    ensures a + b + c == a + (b + c)
  {
  }

  /** A line that opens with no `#…# ` marker of any level is left as it
      is. */
  lemma LineKept(line: string)
    requires NoTerminator(line)
    requires forall m :: 1 <= m <= 6 ==> !StartsWithAt(line, 0, Hashes(m) + " ")
    ensures Headings(line) == line
  {
    if line == [] {
      forall m | 1 <= m <= 6 ensures HeadingPass(m, line) == line {
      }
    } else {
      forall m | 1 <= m <= 6 ensures HeadingPass(m, line) == line {
        HeadingPassSkips(m, line);
      }
    }
  }

  // ---------------------------------------------------------------------
  // Emphasis

  /** `**t**` becomes a `<strong>` around `t`. */
  lemma StarBoldPass(t: string)
    requires Plain(t)
    ensures SpanPass(StarBold, "**" + t + "**") == StrongOpen + t + StrongClose
  {
    var s := "**" + t + "**";
    forall j | 2 <= j < 2 + |t| ensures !StartsWithAt(s, j, "**") && !IsLineTerminator(s[j]) {
      assert s[j] == t[j - 2];
      if j + 2 <= |s| {
        assert s[j..j + 2][0] == s[j];
      }
    }
    assert s[2 + |t|..2 + |t| + 2] == "**";
    FindCloseAt(s, 2, "**", false, 2 + |t|);
    assert s[0..2] == "**";
    assert s[2..2 + |t|] == t;
    assert SpanFrom(StarBold, s, |s|) == "";
  }

  /** The underscore-bold and both italic passes leave a text without
      delimiters alone. */
  lemma LaterEmphasisKeeps(u: string)
    requires NoDelimiter(u)
    ensures SpanPass(UnderscoreItalic, SpanPass(StarItalic, SpanPass(UnderscoreBold, u))) == u
  {
    SpanFromCopies(UnderscoreBold, u, 0);
    SpanFromCopies(StarItalic, u, 0);
    SpanFromCopies(UnderscoreItalic, u, 0);
  }

  /** Bold runs before italics: `**t**` becomes `<strong>`, and the italic
      passes find no `*` or `_` left to turn it into `<em>`. */
  lemma BoldBeforeItalic(t: string)
    requires Plain(t)
    ensures Emphasis("**" + t + "**") == StrongOpen + t + StrongClose
  {
    StarBoldPass(t);
    StrongTags();
    assert NoDelimiter(t);
    NoDelimiterAppend(StrongOpen, t);
    NoDelimiterAppend(StrongOpen + t, StrongClose);
    LaterEmphasisKeeps(StrongOpen + t + StrongClose);
  }

  // ---------------------------------------------------------------------
  // The whole renderer

  /** Empty input renders as an empty paragraph. */
  lemma RenderEmpty()
    ensures Render("") == ParagraphOpen + ParagraphClose
  {
    assert Headings("") == "";
    assert Emphasis("") == "";
    assert Links("") == "";
    assert SpanPass(CodeBlock, "") == "" && SpanPass(InlineCode, "") == "";
    assert Lists("") == "";
    assert Breaks("") == "";
  }
}
