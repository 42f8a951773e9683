/**
  What one fixer of check-style-clang-format.py does to the work of another: which checks
  a file still passes after a later fixer has rewritten it.
 */
module StylePipeline {
  import opened PyStrings
  import opened LineCheckers
  import opened FileChecker

  // ---------------------------------------------------------------- a later fixer

  /** A line that complies with the check a still does after the fixer b has changed it. */
  ghost predicate Keeps(a: LineChecker, b: LineChecker) {
    forall line :: IsLine(line) && a(line).compliant && !b(line).compliant && b(line).fixed != ""
                   ==> a(b(line).fixed).compliant
  }

  ghost predicate KeepsGuards(b: LineChecker) {
    forall line :: IsLine(line) && !b(line).compliant ==>
                     IsOn(b(line).fixed) == IsOn(line) && IsOff(b(line).fixed) == IsOff(line)
  }

  /** What lets the check a survive a run of the fixer b. */
  ghost predicate Survives(a: LineChecker, ra: bool, b: LineChecker, rb: bool) {
    Fixes(b, rb) && Keeps(a, b) && (rb || KeepsGuards(b))
  }

  /**
    One line: ea is where the check a stands before the run of b, eb where b stands,
    e2 where a stands after it.
   */
  lemma LineSurvives(a: LineChecker, ra: bool, b: LineChecker, rb: bool,
                     ea: bool, eb: bool, e2: bool, line: string)
    requires Survives(a, ra, b, rb) && IsLine(line)
    requires ra ==> (e2 ==> ea) && (rb ==> ea == eb)
    requires Visited(ra, ea, line) ==> a(line).compliant
    ensures var fixed := FixedLine(b, rb, eb, line);
            && (fixed != "" && Visited(ra, e2, fixed) ==> a(fixed).compliant)
            && (ra && EnabledAfter(ra, e2, fixed) ==> EnabledAfter(ra, ea, line))
  {
    if Visited(rb, eb, line) && !b(line).compliant {
      assert FixesLine(b, rb, line);
    }
    OnIsNotOff(line);
  }

  lemma {:induction false} LinesSurvive(a: LineChecker, ra: bool, b: LineChecker, rb: bool,
                                        ea: bool, eb: bool, e2: bool, lines: seq<string>)
    requires Survives(a, ra, b, rb) && AreLines(lines)
    requires ra ==> (e2 ==> ea) && (rb ==> ea == eb)
    requires AllCompliant(a, ra, ea, lines)
    ensures AllCompliant(a, ra, e2, NonEmpty(FixedLines(b, rb, eb, lines)))
    decreases |lines|
  {
    if lines != [] {
      var fixed := FixedLine(b, rb, eb, lines[0]);
      LineSurvives(a, ra, b, rb, ea, eb, e2, lines[0]);
      EmptyIsNoGuard();
      LinesSurvive(a, ra, b, rb, EnabledAfter(ra, ea, lines[0]), EnabledAfter(rb, eb, lines[0]),
                   EnabledAfter(ra, e2, fixed), lines[1..]);
    }
  }

  lemma TextSurvives(a: LineChecker, ra: bool, b: LineChecker, rb: bool, text: string)
    requires Survives(a, ra, b, rb) && Complies(a, ra, text)
    ensures Complies(a, ra, FixedText(b, rb, text))
  {
    var lines := ReadLines(text);
    ReadGivesLines(text);
    FixedLinesAreLines(b, rb, true, lines);
    ReadBack(FixedLines(b, rb, true, lines));
    LinesSurvive(a, ra, b, rb, true, true, true, lines);
  }

  // ---------------------------------------------------------------- which checks survive

  /** Whitespace at the end of a line does not belong to its text. */
  lemma WhitespaceKeepsText(line: string)
    ensures Strip(CheckWhitespace(line).fixed) == Strip(line)
  {
    var a, b := StripSplit(line, IsSpace);
    var t := Strip(line);
    NewlineIsStripped();
    LstripAll(a, IsSpace);
    RstripAll(b, IsSpace);
    if t == "" {
      assert line == a + b;
      RstripAll(line, IsSpace);
      assert Rstrip(line) + "\n" == "\n";
    } else {
      assert Rstrip(line) == a + t by {
        RstripStops(a + t, b, IsSpace);
      }
      StripAround(a, t, "\n", IsSpace);
      assert "" + t + "" == t;
    }
  }

  lemma NewlineIsStripped()
    ensures Rstrip("\n") == "" && Strip("\n") == ""
  {
    assert AllOf("\n", IsSpace);
    LstripAll("\n", IsSpace);
    RstripAll("\n", IsSpace);
  }

  /** Checks that look at the text of a line only. */
  lemma SameTextSameVerdict(s: string, t: string)
    requires Strip(s) == Strip(t)
    ensures CheckEmacs(s).compliant == CheckEmacs(t).compliant
    ensures CheckLicense(s).compliant == CheckLicense(t).compliant
    ensures IsOn(s) == IsOn(t) && IsOff(s) == IsOff(t)
  {
  }

  lemma WhitespaceRunsLate()
    ensures Survives(CheckEmacs, true, CheckWhitespace, false)
    ensures Survives(CheckLicense, true, CheckWhitespace, false)
  {
    WhitespaceFixes();
    forall line: string
      ensures CheckEmacs(CheckWhitespace(line).fixed).compliant == CheckEmacs(line).compliant
      ensures CheckLicense(CheckWhitespace(line).fixed).compliant == CheckLicense(line).compliant
      ensures IsOn(CheckWhitespace(line).fixed) == IsOn(line)
      ensures IsOff(CheckWhitespace(line).fixed) == IsOff(line)
    {
      WhitespaceKeepsText(line);
      SameTextSameVerdict(CheckWhitespace(line).fixed, line);
    }
  }

  lemma EmacsRunsLate()
    ensures Survives(CheckLicense, true, CheckEmacs, true)
  {
    EmacsFixes();
  }

  lemma TabsKeepWhitespace(line: string)
    requires CheckWhitespace(line).compliant
    ensures CheckWhitespace(ExpandTabs(line)).compliant
  {
    var u := Rstrip(line);
    RstripKeeps(line);
    RstripAll("\n", IsSpace);
    var column := ColumnAfter(u, 0);
    ExpandConcat(u, "\n", 0);
    assert Expand("\n", column) == "\n";
    var v := Expand(u, 0);
    if u == "" {
      assert v + "\n" == "\n";
    } else {
      var front, c := u[..|u| - 1], u[|u| - 1];
      assert u == front + [c];
      ExpandConcat(front, [c], 0);
      assert !IsSpace(c) && c != '\t';
      ExpandWithoutTab([c], ColumnAfter(front, 0));
      assert v == Expand(front, 0) + [c];
      RstripStops(v, "\n", IsSpace);
    }
  }

  // ---------------------------------------------------------------- emacs text and tabs

  ghost predicate NoSpaces(s: string) {
    forall i :: 0 <= i < |s| ==> !IsSpace(s[i])
  }

  lemma OccursShift(a: string, s: string, p: string, i: nat)
    ensures OccursAt(a + s, p, |a| + i) <==> OccursAt(s, p, i)
  {
    if i + |p| <= |s| {
      assert (a + s)[|a| + i..|a| + i + |p|] == s[i..i + |p|];
    }
  }

  /** The characters of an expanded string that come from its first one. */
  lemma ExpandFirst(s: string, column: nat) returns (front: string, rest: string)
    requires s != ""
    ensures Expand(s, column) == front + rest && front != ""
    ensures s[0] == '\t' ==> AllOf(front, IsSpace) && rest == Expand(s[1..], column + |front|)
    ensures s[0] != '\t' ==> |front| == 1 &&
                             rest == Expand(s[1..], if s[0] == '\n' || s[0] == '\r' then 0 else column + 1)
  {
    if s[0] == '\t' {
      front := Spaces(TAB_SIZE - column % TAB_SIZE);
      rest := Expand(s[1..], column + |front|);
    } else {
      front := [s[0]];
      rest := Expand(s[1..], if s[0] == '\n' || s[0] == '\r' then 0 else column + 1);
    }
  }

  /** Tabs become spaces, so a text without spaces is not made by expanding them. */
  lemma {:induction false} PrefixOfExpanded(s: string, p: string, column: nat)
    requires p <= Expand(s, column) && NoSpaces(p)
    ensures p <= s
    decreases |s|
  {
    if p != "" {
      var front, rest := ExpandFirst(s, column);
      assert p[0] == front[0] && !IsSpace(p[0]);
      assert p[1..] <= (front + rest)[1..];
      PrefixOfExpanded(s[1..], p[1..], if s[0] == '\n' || s[0] == '\r' then 0 else column + 1);
      assert p == [s[0]] + p[1..];
    }
  }

  lemma {:induction false} OccursInExpanded(s: string, p: string, i: nat, column: nat) returns (j: nat)
    requires p != "" && NoSpaces(p) && OccursAt(Expand(s, column), p, i)
    ensures OccursAt(s, p, j)
    decreases |s|
  {
    if i == 0 {
      assert p <= Expand(s, column);
      PrefixOfExpanded(s, p, column);
      return 0;
    }
    var front, rest := ExpandFirst(s, column);
    assert i >= |front| by {
      assert front[|front| - 1..][0] == front[|front| - 1];
      assert (front + rest)[i..i + |p|][0] == p[0];
    }
    OccursShift(front, rest, p, i - |front|);
    var next := if s[0] == '\t' then column + |front| else if s[0] == '\n' || s[0] == '\r' then 0 else column + 1;
    j := OccursInExpanded(s[1..], p, i - |front|, next);
    OccursShift([s[0]], s[1..], p, j);
    assert [s[0]] + s[1..] == s;
    j := 1 + j;
  }

  /** A text without spaces occurs in a line exactly when it does in the stripped line. */
  lemma OccursInStripped(s: string, p: string)
    requires p != "" && NoSpaces(p)
    ensures Contains(s, p) <==> Contains(Strip(s), p)
  {
    var a, b := StripSplit(s, IsSpace);
    var t := Strip(s);
    if Contains(t, p) {
      var i :| 0 <= i <= |t| && OccursAt(t, p, i);
      assert s[|a| + i..|a| + i + |p|] == t[i..i + |p|];
      assert OccursAt(s, p, |a| + i);
    }
    if Contains(s, p) {
      var i :| 0 <= i <= |s| && OccursAt(s, p, i);
      assert i >= |a| && i + |p| <= |a| + |t| by {
        assert s[i..i + |p|][0] == s[i] && s[i..i + |p|][|p| - 1] == s[i + |p| - 1];
      }
      assert t[i - |a|..i - |a| + |p|] == s[i..i + |p|];
      assert OccursAt(t, p, i - |a|);
    }
  }

  lemma TabsMakeNoText(line: string, p: string)
    requires p != "" && NoSpaces(p) && Contains(Strip(ExpandTabs(line)), p)
    ensures Contains(Strip(line), p)
  {
    var e := ExpandTabs(line);
    OccursInStripped(e, p);
    var i :| 0 <= i <= |e| && OccursAt(e, p, i);
    var j := OccursInExpanded(line, p, i, 0);
    OccursInStripped(line, p);
  }

  lemma EmacsTexts()
    ensures NoSpaces("c-file-style:") && "c-file-style:"[9] == 'y' && "c-file-style:"[10] == 'l'
    ensures NoSpaces("py-indent-offset:") && "py-indent-offset:"[1] == 'y' && "py-indent-offset:"[2] == '-'
  {
  }

  lemma TabsRunLate()
    ensures Survives(CheckWhitespace, false, CheckTabs, true)
    ensures Survives(CheckEmacs, true, CheckTabs, true)
  {
    TabsFix();
    forall line | CheckWhitespace(line).compliant ensures CheckWhitespace(ExpandTabs(line)).compliant {
      TabsKeepWhitespace(line);
    }
    EmacsTexts();
    forall line | CheckEmacs(line).compliant ensures CheckEmacs(ExpandTabs(line)).compliant {
      if Contains(Strip(ExpandTabs(line)), "c-file-style:") {
        TabsMakeNoText(line, "c-file-style:");
      }
      if Contains(Strip(ExpandTabs(line)), "py-indent-offset:") {
        TabsMakeNoText(line, "py-indent-offset:");
      }
    }
  }

  // ---------------------------------------------------------------- a license is replaced

  /** The first line of the license is exchanged for the identifier between the comment marks. */
  lemma LicenseChange(line: string) returns (p: string, q: string)
    requires CommentText(line) == GPL_FIRST_LINE
    ensures line == p + GPL_FIRST_LINE + q && NoText(p) && NoText(q)
    ensures CheckLicense(line).fixed == p + SPDX_LICENSE + q
  {
    p, q := CommentTextSplit(line);
    FirstGplLine();
    assert 'T' !in p && 'T' !in q by {
      assert IsText('T');
    }
    ReplaceOnce(p, GPL_FIRST_LINE, q, SPDX_LICENSE);
  }

  lemma LicenseKeepsTabs(line: string)
    requires CommentText(line) == GPL_FIRST_LINE && '\t' !in line
    ensures '\t' !in CheckLicense(line).fixed
  {
    var p, q := LicenseChange(line);
    assert '\t' !in SPDX_LICENSE;
  }

  lemma LicenseKeepsWhitespace(line: string)
    requires CommentText(line) == GPL_FIRST_LINE && CheckWhitespace(line).compliant
    ensures CheckWhitespace(CheckLicense(line).fixed).compliant
  {
    var p, q := LicenseChange(line);
    FirstGplLine();
    SpdxText();
    var r := Rstrip(q);
    RstripStops(p + GPL_FIRST_LINE, q, IsSpace);
    RstripStops(p + SPDX_LICENSE, q, IsSpace);
    SamePrefix(p + GPL_FIRST_LINE, q, r + "\n");
    assert p + SPDX_LICENSE + q == p + SPDX_LICENSE + r + "\n";
  }

  lemma SamePrefix(a: string, b: string, c: string)
    requires a + b == a + c
    ensures b == c
  {
    assert b == (a + b)[|a|..] && c == (a + c)[|a|..];
  }

  /** Neither emacs text stands in a line made of comment marks and the identifier. */
  lemma NoEmacsText(p: string, q: string, e: string, k: nat)
    requires NoText(p) && NoText(q) && k < |e| - 1 && e[k] == 'y' && IsText(e[k + 1]) && NoSpaces(e)
    ensures !Contains(Strip(p + SPDX_LICENSE + q), e)
  {
    var s := p + SPDX_LICENSE + q;
    OccursInStripped(s, e);
    if Contains(s, e) {
      var i :| 0 <= i <= |s| && OccursAt(s, e, i);
      assert s[i..i + |e|][k] == s[i + k] && s[i..i + |e|][k + 1] == s[i + k + 1];
      OnlyLastIsY(p, q, i + k);
    }
  }

  /** The only y of such a line ends the identifier, and no text comes after it. */
  lemma OnlyLastIsY(p: string, q: string, i: nat)
    requires NoText(p) && NoText(q)
    requires i + 1 < |p + SPDX_LICENSE + q| && (p + SPDX_LICENSE + q)[i] == 'y'
    ensures !IsText((p + SPDX_LICENSE + q)[i + 1])
  {
    var u := SPDX_LICENSE;
    assert |u| == 37 && u[36] == 'y';
    assert forall j :: 0 <= j < 36 ==> u[j] != 'y';
    assert IsText('y');
  }

  lemma LicenseKeepsEmacs(line: string)
    requires CommentText(line) == GPL_FIRST_LINE
    ensures CheckEmacs(CheckLicense(line).fixed).compliant
  {
    var p, q := LicenseChange(line);
    EmacsTexts();
    NoEmacsText(p, q, "c-file-style:", 9);
    NoEmacsText(p, q, "py-indent-offset:", 1);
  }

  /** Nothing that the other three fixers have done is undone by the license fixer. */
  lemma LicenseRunsLate()
    ensures Survives(CheckTabs, true, CheckLicense, true)
    ensures Survives(CheckWhitespace, false, CheckLicense, true)
    ensures Survives(CheckEmacs, true, CheckLicense, true)
  {
    LicenseFixes();
    forall line | !CheckLicense(line).compliant && CheckLicense(line).fixed != ""
      ensures CheckTabs(line).compliant ==> CheckTabs(CheckLicense(line).fixed).compliant
      ensures CheckWhitespace(line).compliant ==> CheckWhitespace(CheckLicense(line).fixed).compliant
      ensures CheckEmacs(CheckLicense(line).fixed).compliant
    {
      if '\t' !in line { LicenseKeepsTabs(line); }
      if CheckWhitespace(line).compliant { LicenseKeepsWhitespace(line); }
      LicenseKeepsEmacs(line);
    }
  }
}
