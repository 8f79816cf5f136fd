/** The two list passes of `markdownToHtml`, and a text on which they nest
    one list in the other, next to a version that keeps them apart. */
module ListNesting {
  import opened Wrappers
  import opened Strings
  import opened Markdown
  import opened MarkdownProperties

  /** The markup of one list with an `<li>` per content. */
  function ListHtml(kind: ListKind, contents: seq<string>): string {
    ListOpen(kind) + Join(ListItems(contents), "") + ListClose(kind)
  }

  lemma MatchesAndContents(pieces: seq<Piece>)
    ensures |MatchTexts(pieces)| == |Contents(pieces)|
  {
    if pieces != [] {
      MatchesAndContents(pieces[1..]);
    }
  }

  /** A line's text that the list patterns capture whole: no line break
      and no leading white space. */
  predicate LineText(x: string) {
    NoTerminator(x) && |x| > 0 && !IsSpace(x[0])
  }

  /** With no item from `p` on, the pieces are the characters themselves. */
  lemma {:induction false} KeptOnly(s: string, p: nat, kind: ListKind)
    requires p <= |s|
    requires forall j :: p <= j < |s| ==> ItemAt(s, j, kind).None?
    ensures Deleted(PiecesFrom(s, p, kind)) == s[p..]
    ensures Contents(PiecesFrom(s, p, kind)) == [] && MatchTexts(PiecesFrom(s, p, kind)) == []
    decreases |s| - p
  {
    if p < |s| {
      KeptOnly(s, p + 1, kind);
      assert s[p..] == [s[p]] + s[p + 1..];
    }
  }

  lemma AppendAssoc(x: string, y: string, z: string)
    ensures x + y + z == x + (y + z)
  {
  }

  /** A list pass, from what the pattern cut out of the text. */
  lemma ListPassFrom(s: string, kind: ListKind, rest: string, contents: seq<string>)
    requires Deleted(PiecesFrom(s, 0, kind)) == rest && Contents(PiecesFrom(s, 0, kind)) == contents
    requires contents != []
    ensures ListPass(s, kind) == rest + ListHtml(kind, contents)
  {
    MatchesAndContents(PiecesFrom(s, 0, kind));
    ListPassShape(s, kind);
  }

  // ---------------------------------------------------------------------
  // As written

  /** An unordered line `- a` followed by an ordered line `1. b`. */
  function TwoLists(a: string, b: string): string {
    "- " + a + "\n1. " + b
  }

  lemma FirstLineBullet(a: string, b: string)
    requires LineText(a) && LineText(b)
    ensures ItemAt(TwoLists(a, b), 0, Bullet) == Some(ItemMatch(a, 2 + |a|))
  {
    var s := TwoLists(a, b);
    assert s[2] == a[0];
    assert Run(s, 2, Space) == 0;
    assert Run(s, 1, Space) == 1;
    forall j | 2 <= j < 2 + |a| ensures InClass(s[j], NotTerminator) {
      assert s[j] == a[j - 2];
    }
    assert s[2 + |a|] == '\n';
    RunCovered(s, 2, 2 + |a|, NotTerminator);
    assert s[2..2 + |a|] == a;
  }

  /** No line of `\n1. b` opens an unordered item: the only line start
      there is the `1`. */
  lemma NoBulletAfterFirstLine(a: string, b: string)
    requires LineText(a) && LineText(b)
    ensures forall j :: 2 + |a| <= j < |TwoLists(a, b)| ==> ItemAt(TwoLists(a, b), j, Bullet).None?
  {
    var s := TwoLists(a, b);
    forall j | 2 + |a| <= j < |s| ensures ItemAt(s, j, Bullet).None? {
      if j == 2 + |a| {
        assert s[j - 1] == a[|a| - 1];
      } else if j == 3 + |a| {
        assert s[j] == '1';
        assert Run(s, j, Space) == 0;
      } else if j > 6 + |a| {
        assert s[j - 1] == b[j - 7 - |a|];
      }
    }
  }

  /** The unordered pass deletes the first line and appends its list
      after the second. */
  lemma BulletPieces(a: string, b: string)
    requires LineText(a) && LineText(b)
    ensures Contents(PiecesFrom(TwoLists(a, b), 0, Bullet)) == [a]
    ensures Deleted(PiecesFrom(TwoLists(a, b), 0, Bullet)) == "\n1. " + b
  {
    var s := TwoLists(a, b);
    FirstLineBullet(a, b);
    NoBulletAfterFirstLine(a, b);
    KeptOnly(s, 2 + |a|, Bullet);
    assert s[2 + |a|..] == "\n1. " + b;
  }

  lemma BulletPassExample(a: string, b: string)
    requires LineText(a) && LineText(b)
    ensures ListPass(TwoLists(a, b), Bullet) == "\n1. " + (b + ListHtml(Bullet, [a]))
  {
    BulletPieces(a, b);
    ListPassFrom(TwoLists(a, b), Bullet, "\n1. " + b, [a]);
    AppendAssoc("\n1. ", b, ListHtml(Bullet, [a]));
  }

  /** A line `1. x` after a line break, where `x` holds no line break,
      cut by the ordered pattern: `\s*` runs over the break and `(.*)$`
      takes the rest of the text. */
  lemma NumberedPieces(x: string)
    requires LineText(x)
    ensures Contents(PiecesFrom("\n1. " + x, 0, Numbered)) == [x]
    ensures Deleted(PiecesFrom("\n1. " + x, 0, Numbered)) == ""
  {
    var h := "\n1. " + x;
    assert Run(h, 1, Space) == 0;
    assert Run(h, 0, Space) == 1;
    assert Run(h, 2, Digit) == 0;
    assert Run(h, 1, Digit) == 1;
    assert MarkerEnd(h, 1, Numbered) == Some(3);
    assert h[4] == x[0];
    assert Run(h, 4, Space) == 0;
    assert Run(h, 3, Space) == 1;
    forall j | 4 <= j < |h| ensures InClass(h[j], NotTerminator) {
      assert h[j] == x[j - 4];
    }
    RunToEnd(h, 4, NotTerminator);
    assert h[4..|h|] == x;
    assert ItemAt(h, 0, Numbered) == Some(ItemMatch(x, |h|));
    assert PiecesFrom(h, |h|, Numbered) == [];
  }

  /** So the ordered pass turns the whole text into one list item. */
  lemma NumberedTakesAll(x: string)
    requires LineText(x)
    ensures ListPass("\n1. " + x, Numbered) == ListHtml(Numbered, [x])
  {
    NumberedPieces(x);
    ListPassFrom("\n1. " + x, Numbered, "", [x]);
  }

  /** As written, the unordered list is appended before the ordered pass
      runs, so when the last line is an ordered item its `(.*)$` takes the
      whole `<ul>`: `- a` then `1. b` renders as one ordered list whose
      only item holds `b` and then the unordered list. */
  lemma ListsAsWritten(a: string, b: string)
    requires LineText(a) && LineText(b)
    ensures Lists(TwoLists(a, b)) == ListHtml(Numbered, [b + ListHtml(Bullet, [a])])
  {
    BulletPassExample(a, b);
    var u := ListHtml(Bullet, [a]);
    var x := b + u;
    ListHtmlNoTerminator(Bullet, a);
    NoTerminatorAppend(b, u);
    assert x[0] == b[0];
    NumberedTakesAll(x);
  }

  /** The markup of a one-item list stays on one line. */
  lemma ListHtmlNoTerminator(kind: ListKind, a: string)
    requires NoTerminator(a)
    ensures NoTerminator(ListHtml(kind, [a]))
  {
    ListTags();
    assert ListItems([a]) == [LiOpen + a + LiClose];
    InertNoTerminator(LiOpen);
    InertNoTerminator(LiClose);
    InertNoTerminator(ListOpen(kind));
    InertNoTerminator(ListClose(kind));
    NoTerminatorAppend(LiOpen, a);
    NoTerminatorAppend(LiOpen + a, LiClose);
    NoTerminatorAppend(ListOpen(kind), LiOpen + a + LiClose);
    NoTerminatorAppend(ListOpen(kind) + (LiOpen + a + LiClose), ListClose(kind));
  }

  // ---------------------------------------------------------------------
  // Corrected

  /** The list markup built from the matched pieces, one rewrite per
      matched line, as the source builds it; empty when nothing matched. */
  function ListBlock(pieces: seq<Piece>, kind: ListKind): string {
    var matches := MatchTexts(pieces);
    if |matches| == 0 then "" else ListOpen(kind) + Join(RewriteEach(matches, kind), "") + ListClose(kind)
  }

  /** Both lists are collected from the text before either list's markup is
      appended, and then appended one after the other. */
  function CorrectedLists(s: string): string {
    var bullets := PiecesFrom(s, 0, Bullet);
    var body := if |MatchTexts(bullets)| == 0 then s else Deleted(bullets);
    var numbered := PiecesFrom(body, 0, Numbered);
    var rest := if |MatchTexts(numbered)| == 0 then body else Deleted(numbered);
    rest + ListBlock(bullets, Bullet) + ListBlock(numbered, Numbered)
  }

  /** The markup of one list, or nothing for no contents. */
  function Markup(kind: ListKind, contents: seq<string>): string {
    if contents == [] then "" else ListHtml(kind, contents)
  }

  lemma ListBlockMarkup(s: string, kind: ListKind)
    ensures ListBlock(PiecesFrom(s, 0, kind), kind) == Markup(kind, Contents(PiecesFrom(s, 0, kind)))
  {
    MatchesAndContents(PiecesFrom(s, 0, kind));
    RewriteMatches(s, 0, kind);
  }

  /** In the corrected version the unordered list holds exactly the bullet
      lines of the text, the ordered list exactly the numbered lines of what
      is left, and the two follow the remaining text side by side. */
  lemma CorrectedListsShape(s: string, bullets: seq<string>, body: string, numbered: seq<string>, rest: string)
    requires bullets == Contents(PiecesFrom(s, 0, Bullet))
    requires body == if bullets == [] then s else Deleted(PiecesFrom(s, 0, Bullet))
    requires numbered == Contents(PiecesFrom(body, 0, Numbered))
    requires rest == if numbered == [] then body else Deleted(PiecesFrom(body, 0, Numbered))
    ensures CorrectedLists(s) == rest + Markup(Bullet, bullets) + Markup(Numbered, numbered)
  {
    MatchesAndContents(PiecesFrom(s, 0, Bullet));
    MatchesAndContents(PiecesFrom(body, 0, Numbered));
    ListBlockMarkup(s, Bullet);
    ListBlockMarkup(body, Numbered);
  }

  /** On the same text the corrected version gives the two lists apart. */
  lemma CorrectedListsExample(a: string, b: string)
    requires LineText(a) && LineText(b)
    ensures CorrectedLists(TwoLists(a, b)) == ListHtml(Bullet, [a]) + ListHtml(Numbered, [b])
  {
    BulletPieces(a, b);
    NumberedPieces(b);
    CorrectedListsShape(TwoLists(a, b), [a], "\n1. " + b, [b], "");
    MarkupPair(ListHtml(Bullet, [a]), ListHtml(Numbered, [b]));
  }

  lemma MarkupPair(u: string, o: string)
    ensures "" + u + o == u + o
  {
  }

  /** The renderer with the corrected list step. */
  function CorrectedRender(markdown: string): string {
    Wrap(Breaks(CorrectedLists(SpanPass(InlineCode, SpanPass(CodeBlock, Links(Emphasis(Headings(markdown))))))))
  }

  /** Its output has no line feed either. */
  lemma CorrectedRenderNoNewline(markdown: string)
    ensures '\n' !in CorrectedRender(markdown)
  {
    var before := CorrectedLists(SpanPass(InlineCode, SpanPass(CodeBlock, Links(Emphasis(Headings(markdown))))));
    NoNewlineLeft(ReplaceAllFrom(before, 0, "\n\n", ParagraphBreak), 0);
  }
}
