/**
  What the line checkers of check-style-clang-format.py detect and what they write,
  said without the functions that compute it.
 */
module LineLaws {
  import opened PyStrings
  import opened LineCheckers
  import opened StylePipeline

  // ---------------------------------------------------------------- spaces

  /** The spaces among the first 128 characters. */
  lemma AsciiSpaces(c: char)
    requires (c as int) < 128
    ensures IsSpace(c) <==> c in {' ', '\t', '\n', '\r'} || c as int in {11, 12, 28, 29, 30, 31}
  {
  }

  // ---------------------------------------------------------------- tabs

  /** How many characters stand behind the last line end. */
  function ColumnOf(s: string): nat {
    if s == "" || s[|s| - 1] == '\n' || s[|s| - 1] == '\r' then 0 else 1 + ColumnOf(s[..|s| - 1])
  }

  lemma {:induction false} ColumnOfConcat(s: string, t: string)
    requires '\n' !in t && '\r' !in t
    ensures ColumnOf(s + t) == ColumnOf(s) + |t|
  {
    if t == "" {
      assert s + t == s;
    } else {
      assert (s + t)[..|s + t| - 1] == s + t[..|t| - 1];
      ColumnOfConcat(s, t[..|t| - 1]);
    }
  }

  lemma {:induction false} ColumnAfterConcat(s: string, t: string, column: nat)
    ensures ColumnAfter(s + t, column) == ColumnAfter(t, ColumnAfter(s, column))
    decreases |s|
  {
    if s == "" {
      assert s + t == t;
    } else {
      assert (s + t)[1..] == s[1..] + t;
      ColumnAfterConcat(s[1..], t, if s[0] == '\t' then column + TAB_SIZE - column % TAB_SIZE
                                   else if s[0] == '\n' || s[0] == '\r' then 0 else column + 1);
    }
  }

  /** The column that the tab stops count is the column in the expanded text. */
  lemma {:induction false} ColumnIsColumnOf(s: string)
    ensures ColumnAfter(s, 0) == ColumnOf(ExpandTabs(s))
    decreases |s|
  {
    if s != "" {
      var front, last := s[..|s| - 1], [s[|s| - 1]];
      var column := ColumnAfter(front, 0);
      assert s == front + last;
      ColumnIsColumnOf(front);
      ColumnAfterConcat(front, last, 0);
      ExpandConcat(front, last, 0);
      ExpandOne(last[0], column);
      var e := Expand(last, column);
      if last[0] == '\n' || last[0] == '\r' {
        assert ColumnOf(ExpandTabs(front) + e) == 0;
      } else {
        ColumnOfConcat(ExpandTabs(front), e);
      }
    }
  }

  lemma ExpandOne(c: char, column: nat)
    ensures Expand([c], column) == if c == '\t' then Spaces(TAB_SIZE - column % TAB_SIZE) else [c]
    ensures ColumnAfter([c], column) == if c == '\t' then column + TAB_SIZE - column % TAB_SIZE
                                        else if c == '\n' || c == '\r' then 0 else column + 1
  {
    assert [c][1..] == "";
    assert Expand("", column) == "";
    assert Spaces(TAB_SIZE - column % TAB_SIZE) + "" == Spaces(TAB_SIZE - column % TAB_SIZE);
  }

  /**
    The last tab of a text becomes the spaces that lead to the next column divisible by
    4; the text before it is expanded in the same way, the text behind it stays.
   */
  lemma LastTab(before: string, after: string)
    requires '\t' !in after
    ensures var expanded := ExpandTabs(before);
            ExpandTabs(before + "\t" + after)
            == expanded + seq(4 - ColumnOf(expanded) % 4, _ => ' ') + after
    ensures ExpandTabs(after) == after
  {
    var column := ColumnAfter(before, 0);
    var stop := ColumnAfter(before + "\t", 0);
    ColumnIsColumnOf(before);
    ExpandConcat(before + "\t", after, 0);
    ExpandConcat(before, "\t", 0);
    ExpandOne('\t', column);
    ExpandWithoutTab(after, stop);
    ExpandWithoutTab(after, 0);
    assert Spaces(4 - column % 4) == seq(4 - column % 4, _ => ' ');
  }

  /** The first tab of a line. */
  lemma FirstTab(before: string, after: string)
    requires '\t' !in before && '\n' !in before && '\r' !in before && '\t' !in after
    ensures ExpandTabs(before + "\t" + after) == before + seq(4 - |before| % 4, _ => ' ') + after
  {
    LastTab(before, after);
    assert ExpandTabs(before) == before && ColumnOf(before) == |before| by {
      ExpandWithoutTab(before, 0);
      PlainColumn(before);
    }
  }

  lemma PlainColumn(s: string)
    requires '\n' !in s && '\r' !in s
    ensures ColumnOf(s) == |s|
  {
    ColumnOfConcat("", s);
    assert "" + s == s;
  }

  /** A text without its spaces and tabs. */
  function Ink(s: string): string {
    if s == "" then "" else (if s[0] == ' ' || s[0] == '\t' then "" else [s[0]]) + Ink(s[1..])
  }

  lemma {:induction false} InkConcat(s: string, t: string)
    ensures Ink(s + t) == Ink(s) + Ink(t)
  {
    if s == "" {
      assert s + t == t;
    } else {
      assert (s + t)[1..] == s[1..] + t;
      InkConcat(s[1..], t);
    }
  }

  lemma {:induction false} InkOfSpaces(n: nat)
    ensures Ink(Spaces(n)) == ""
  {
    if n > 0 {
      assert Spaces(n)[1..] == Spaces(n - 1);
      InkOfSpaces(n - 1);
    }
  }

  /** Expanding tabs keeps all other characters in their order. */
  lemma {:induction false} InkStays(s: string, column: nat)
    ensures Ink(Expand(s, column)) == Ink(s)
    decreases |s|
  {
    if s != "" {
      var c, rest := s[0], s[1..];
      var next := ColumnAfter([c], column);
      assert s == [c] + rest;
      ExpandConcat([c], rest, column);
      ExpandOne(c, column);
      InkStays(rest, next);
      InkConcat(Expand([c], column), Expand(rest, next));
      InkConcat([c], rest);
      InkOfSpaces(TAB_SIZE - column % TAB_SIZE);
      assert [c][1..] == "";
    }
  }

  // ---------------------------------------------------------------- whitespace

  /** The space at the end of a line is replaced by one newline, and only that newline complies. */
  lemma WhitespaceIs(u: string, b: string)
    requires AllOf(b, IsSpace) && (u == "" || !IsSpace(u[|u| - 1]))
    ensures CheckWhitespace(u + b).fixed == u + "\n"
    ensures CheckWhitespace(u + b).compliant <==> b == "\n"
  {
    RstripAll(b, IsSpace);
    if u == "" {
      assert u + b == b;
    } else {
      RstripStops(u, b, IsSpace);
      assert u + "" == u;
    }
    if CheckWhitespace(u + b).compliant {
      assert b == (u + b)[|u|..] && "\n" == (u + "\n")[|u|..];
    }
  }

  // ---------------------------------------------------------------- emacs

  /** A line holds a text somewhere. */
  ghost predicate Holds(line: string, text: string) {
    exists a, b :: line == a + text + b
  }

  lemma HoldsIffContains(line: string, text: string)
    ensures Holds(line, text) <==> Contains(line, text)
  {
    if Contains(line, text) {
      var i :| 0 <= i <= |line| && OccursAt(line, text, i);
      assert line == line[..i] + text + line[i + |text|..];
    }
    if a, b :| line == a + text + b {
      assert OccursAt(line, text, |a|);
    }
  }

  /** Exactly the lines that hold one of the two emacs texts are deleted. */
  lemma EmacsIff(line: string)
    ensures !CheckEmacs(line).compliant <==> Holds(line, "c-file-style:") || Holds(line, "py-indent-offset:")
    ensures CheckEmacs(line).fixed == if CheckEmacs(line).compliant then line else ""
  {
    EmacsTexts();
    OccursInStripped(line, "c-file-style:");
    OccursInStripped(line, "py-indent-offset:");
    HoldsIffContains(line, "c-file-style:");
    HoldsIffContains(line, "py-indent-offset:");
  }

  // ---------------------------------------------------------------- guards

  /** A line is a text with space around it. */
  ghost predicate Around(line: string, a: string, text: string, b: string) {
    line == a + text + b && AllOf(a, IsSpace) && AllOf(b, IsSpace)
  }

  /** The guards that switch the checks off and on. */
  lemma GuardIff(line: string)
    ensures IsOff(line) <==>
            exists a, g, b :: Around(line, a, g, b) && g in {"// clang-format off", "# cmake-format: off", "# fmt: off"}
    ensures IsOn(line) <==>
            exists a, g, b :: Around(line, a, g, b) && g in {"// clang-format on", "# cmake-format: on", "# fmt: on"}
  {
    var p, q := StripSplit(line, IsSpace);
    assert Around(line, p, Strip(line), q);
    forall a, g, b | Around(line, a, g, b) && (g in FORMAT_GUARD_ON || g in FORMAT_GUARD_OFF)
      ensures Strip(line) == g
    {
      GuardAround(a, g, b);
    }
  }

  // ---------------------------------------------------------------- licenses

  /** Space, comment marks and space again, each of any length. */
  ghost predicate Margin(p: string) {
    exists a, m, b :: p == a + m + b && AllOf(a, IsSpace) && Marks(m) && AllOf(b, IsSpace)
  }

  ghost predicate Marks(m: string) {
    forall c :: c in m ==> c in {'*', '#', '/'}
  }

  lemma MarksAre(m: string)
    ensures Marks(m) <==> AllOf(m, IsCommentMark)
  {
    if Marks(m) {
      forall i | 0 <= i < |m| ensures IsCommentMark(m[i]) {
        assert m[i] in m;
      }
    }
  }

  lemma LeftMargin(p: string)
    ensures Margin(p) <==> LeftOf(p) == ""
  {
    if a, m, b :| p == a + m + b && AllOf(a, IsSpace) && Marks(m) && AllOf(b, IsSpace) {
      MarksAre(m);
      LstripMargin(a, m, b);
    }
    if LeftOf(p) == "" {
      var a := LstripSplit(p, IsSpace);
      var q := LstripBy(p, IsSpace);
      var m := LstripSplit(q, IsCommentMark);
      var b := LstripSplit(LstripBy(q, IsCommentMark), IsSpace);
      MarksAre(m);
      assert p == a + m + b;
    }
  }

  lemma LstripMargin(a: string, m: string, b: string)
    requires AllOf(a, IsSpace) && AllOf(m, IsCommentMark) && AllOf(b, IsSpace)
    ensures LeftOf(a + m + b) == ""
  {
    LstripAll(a, IsSpace);
    LstripAll(m, IsCommentMark);
    LstripAll(b, IsSpace);
    if m == "" {
      assert AllOf(a + m + b, IsSpace);
      LstripAll(a + m + b, IsSpace);
    } else {
      assert a + m + b == a + (m + b) && "" + (m + b) == m + b;
      LstripStops(a, m + b, IsSpace);
      if b == "" {
        assert m + b == m;
      } else {
        LstripStops(m, b, IsCommentMark);
        assert "" + b == b;
      }
    }
  }

  lemma RightMargin(q: string)
    ensures Margin(q) <==> RightOf(q) == ""
  {
    if a, m, b :| q == a + m + b && AllOf(a, IsSpace) && Marks(m) && AllOf(b, IsSpace) {
      MarksAre(m);
      RstripMargin(a, m, b);
    }
    if RightOf(q) == "" {
      var b := RstripSplit(q, IsSpace);
      var r := RstripBy(q, IsSpace);
      var m := RstripSplit(r, IsCommentMark);
      var a := RstripSplit(RstripBy(r, IsCommentMark), IsSpace);
      MarksAre(m);
      assert q == a + m + b;
    }
  }

  lemma RstripMargin(a: string, m: string, b: string)
    requires AllOf(a, IsSpace) && AllOf(m, IsCommentMark) && AllOf(b, IsSpace)
    ensures RightOf(a + m + b) == ""
  {
    RstripAll(a, IsSpace);
    RstripAll(m, IsCommentMark);
    RstripAll(b, IsSpace);
    if m == "" {
      assert AllOf(a + m + b, IsSpace);
      RstripAll(a + m + b, IsSpace);
    } else {
      RstripStops(a + m, b, IsSpace);
      assert a + m + "" == a + m;
      if a == "" {
        assert a + m == m;
      } else {
        RstripStops(a, m, IsCommentMark);
        assert a + "" == a;
      }
    }
  }

  /** A line of the license between two margins. */
  ghost predicate LicenseLine(line: string, p: string, g: string, q: string) {
    line == p + g + q && Margin(p) && Margin(q) && (g == GPL_FIRST_LINE || g in GPL_OTHER_LINES)
  }

  lemma GplEndsInText(g: string)
    requires g == GPL_FIRST_LINE || g in GPL_OTHER_LINES
    ensures g != "" && IsText(g[0]) && IsText(g[|g| - 1])
  {
    if g == GPL_FIRST_LINE {
      FirstGplLine();
    } else {
      OtherGplLine(g);
      OtherGplEnd(g);
    }
  }

  lemma OtherGplEnd(g: string)
    requires g in GPL_OTHER_LINES && g != ""
    ensures IsText(g[|g| - 1])
  {
    var i :| 0 <= i < |GPL_OTHER_LINES| && GPL_OTHER_LINES[i] == g;
    assert i == 0 || i == 1 || i == 2 || i == 3 || i == 4 || i == 5 || i == 6 || i == 7 || i == 8;
  }

  /** Exactly the license lines between comment marks are detected. */
  lemma LicenseIff(line: string)
    ensures !CheckLicense(line).compliant <==> exists p, g, q :: LicenseLine(line, p, g, q)
  {
    if !CheckLicense(line).compliant {
      var g := CommentText(line);
      var p, q := CommentTextSplit(line);
      GplEndsInText(g);
      CommentTextAround(p, g, q);
      assert |LeftOf(p)| + |g| + |RightOf(q)| == |g|;
      LeftMargin(p);
      RightMargin(q);
      assert LicenseLine(line, p, g, q);
    }
    if p, g, q :| LicenseLine(line, p, g, q) {
      LicenseIsFixed(line, p, g, q);
    }
  }

  /** The first line gives way to the identifier, margins and all kept; the other lines are deleted. */
  lemma LicenseIsFixed(line: string, p: string, g: string, q: string)
    requires LicenseLine(line, p, g, q)
    ensures !CheckLicense(line).compliant
    ensures CheckLicense(line).fixed == if g == GPL_FIRST_LINE then p + SPDX_LICENSE + q else ""
  {
    TextBetweenMargins(p, g, q);
    if g == GPL_FIRST_LINE {
      FirstGplLine();
      NoTextInMargin(p);
      NoTextInMargin(q);
      assert IsText('T');
      ReplaceOnce(p, g, q, SPDX_LICENSE);
    }
  }

  lemma TextBetweenMargins(p: string, g: string, q: string)
    requires Margin(p) && Margin(q) && (g == GPL_FIRST_LINE || g in GPL_OTHER_LINES)
    ensures CommentText(p + g + q) == g
  {
    assert g != "" && IsText(g[0]) && IsText(g[|g| - 1]) by {
      GplEndsInText(g);
    }
    LeftMargin(p);
    RightMargin(q);
    CommentTextAround(p, g, q);
    assert "" + g + "" == g;
  }

  lemma NoTextInMargin(p: string)
    requires Margin(p)
    ensures NoText(p)
  {
    var a, m, b :| p == a + m + b && AllOf(a, IsSpace) && Marks(m) && AllOf(b, IsSpace);
    MarksAre(m);
  }

  /** A line as it stands in the older source files. */
  lemma LicenseInComment()
    ensures CheckLicense(" * " + GPL_FIRST_LINE + "\n")
            == LineResult(false, " * " + "SPDX-License-Identifier: GPL-2.0-only" + "\n")
  {
    var line := " * " + GPL_FIRST_LINE + "\n";
    assert " * " == " " + "*" + " " && AllOf(" ", IsSpace) && Marks("*");
    assert "\n" == "\n" + "" + "" && AllOf("\n", IsSpace) && Marks("") && AllOf("", IsSpace);
    assert Margin(" * ") && Margin("\n");
    LicenseIsFixed(line, " * ", GPL_FIRST_LINE, "\n");
  }
}
