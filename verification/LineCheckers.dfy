/** The line checkers of check-style-clang-format.py and what a fixed line is like. */
module LineCheckers {
  import opened PyStrings

  const FORMAT_GUARD_ON := ["// clang-format on", "# cmake-format: on", "# fmt: on"]
  const FORMAT_GUARD_OFF := ["// clang-format off", "# cmake-format: off", "# fmt: off"]

  const GPL_FIRST_LINE := "This program is free software; you " + "can redistribute it and/or modify"
  const GPL_OTHER_LINES := [
    "it under the terms of the GNU General " + "Public License version 2 as",
    "published by the Free Software " + "Foundation;",
    "This program is distributed in the " + "hope that it will be useful,",
    "but WITHOUT ANY WARRANTY; without " + "even the implied warranty of",
    "MERCHANTABILITY or FITNESS FOR A " + "PARTICULAR PURPOSE.  See the",
    "GNU General Public License for more " + "details.",
    "You should have received a copy of " + "the GNU General Public License",
    "along with this program; if not, " + "write to the Free Software",
    "Foundation, Inc., 59 Temple Place, " + "Suite 330, Boston, MA  02111-1307  USA"
  ]
  const SPDX_LICENSE := "SPDX-License-Identifier: GPL-2.0-only"

  /** Whether the line complies before the check, and the line that replaces it if not. */
  datatype LineResult = LineResult(compliant: bool, fixed: string)

  type LineChecker = string -> LineResult

  predicate IsOn(line: string) { Strip(line) in FORMAT_GUARD_ON }

  predicate IsOff(line: string) { Strip(line) in FORMAT_GUARD_OFF }

  function CheckWhitespace(line: string): LineResult {
    var fixed := Rstrip(line) + "\n";
    LineResult(fixed == line, fixed)
  }

  function CheckTabs(line: string): LineResult {
    if '\t' in line then LineResult(false, ExpandTabs(line)) else LineResult(true, line)
  }

  predicate IsCommentMark(c: char) { c == '*' || c == '#' || c == '/' }

  /** The text of a line without the marks of a comment around it. */
  function CommentText(line: string): string {
    Strip(StripBy(Strip(line), IsCommentMark))
  }

  function CheckLicense(line: string): LineResult {
    var text := CommentText(line);
    if text == GPL_FIRST_LINE then LineResult(false, Replace(line, text, SPDX_LICENSE))
    else if text in GPL_OTHER_LINES then LineResult(false, "")
    else LineResult(true, line)
  }

  function CheckEmacs(line: string): LineResult {
    var text := Strip(line);
    if Contains(text, "c-file-style:") || Contains(text, "py-indent-offset:")
    then LineResult(false, "")
    else LineResult(true, line)
  }

  // ---------------------------------------------------------------- lines of a file

  /** A line as readlines() gives it: only its last character may be a newline. */
  ghost predicate IsLine(s: string) {
    s != "" && '\n' !in s[..|s| - 1]
  }

  predicate Ended(s: string) { s != "" && s[|s| - 1] == '\n' }

  /**
    What makes a second run accept the work of the first: a fixed line is deleted or
    complies, it is still one line, and it still switches the checks off if it did.
   */
  ghost predicate FixesLine(check: LineChecker, respectGuards: bool, line: string) {
    var fixed := check(line).fixed;
    && (fixed != "" ==> check(fixed).compliant && IsLine(fixed))
    && (fixed != "" && Ended(line) ==> Ended(fixed))
    && (respectGuards && IsOff(line) ==> IsOff(fixed))
  }

  ghost predicate Fixes(check: LineChecker, respectGuards: bool) {
    forall line :: IsLine(line) && !check(line).compliant ==> FixesLine(check, respectGuards, line)
  }

  // ---------------------------------------------------------------- whitespace

  lemma {:induction false} RstripKeeps(s: string)
    ensures Rstrip(s) <= s
    ensures Rstrip(s) != "" ==> !IsSpace(Rstrip(s)[|Rstrip(s)| - 1])
  {
    var b := RstripSplit(s, IsSpace);
  }

  lemma WhitespaceFixes()
    ensures Fixes(CheckWhitespace, false)
  {
    forall line | IsLine(line) && !CheckWhitespace(line).compliant
      ensures FixesLine(CheckWhitespace, false, line)
    {
      var text := Rstrip(line);
      RstripKeeps(line);
      if text == "" {
        assert text + "\n" == "\n";
        RstripAll("\n", IsSpace);
      } else {
        RstripStops(text, "\n", IsSpace);
        RstripAll("\n", IsSpace);
        forall i | 0 <= i < |text| ensures text[i] != '\n' {
          assert i < |line| - 1 ==> text[i] == line[..|line| - 1][i];
        }
      }
    }
  }

  // ---------------------------------------------------------------- tabs

  lemma GuardText(g: string)
    requires g in FORMAT_GUARD_ON || g in FORMAT_GUARD_OFF
    ensures g != "" && !IsSpace(g[0]) && !IsSpace(g[|g| - 1])
    ensures '\t' !in g && 'y' !in g && |g| < 20
  {
  }

  /** Spaces around a guard do not matter. */
  lemma GuardAround(a: string, g: string, b: string)
    requires (g in FORMAT_GUARD_ON || g in FORMAT_GUARD_OFF) && AllOf(a, IsSpace) && AllOf(b, IsSpace)
    ensures Strip(a + g + b) == g
  {
    assert g != "" && !IsSpace(g[0]) && !IsSpace(g[|g| - 1]) by {
      GuardText(g);
    }
    StripAround(a, g, b, IsSpace);
    LstripAll(a, IsSpace);
    RstripAll(b, IsSpace);
    assert "" + g + "" == g;
  }

  /** Tabs stand outside the text of a guard, so expanding them leaves a guard a guard. */
  lemma TabsKeepGuard(line: string)
    requires IsOn(line) || IsOff(line)
    ensures Strip(ExpandTabs(line)) == Strip(line)
  {
    var g := Strip(line);
    var a, b := StripSplit(line, IsSpace);
    GuardText(g);
    var column := ColumnAfter(a + g, 0);
    ExpandConcat(a + g, b, 0);
    ExpandConcat(a, g, 0);
    ExpandWithoutTab(g, ColumnAfter(a, 0));
    ExpandSpaces(a, 0);
    ExpandSpaces(b, column);
    GuardAround(Expand(a, 0), g, Expand(b, column));
  }

  lemma TabsKeepLine(line: string)
    requires IsLine(line)
    ensures IsLine(ExpandTabs(line)) && (Ended(line) ==> Ended(ExpandTabs(line)))
  {
    var body, last := line[..|line| - 1], line[|line| - 1..];
    assert line == body + last;
    var column := ColumnAfter(body, 0);
    ExpandConcat(body, last, 0);
    ExpandHasNoTab(body, 0);
    ExpandHasNoTab(last, column);
    var fixed := ExpandTabs(line);
    if Ended(line) {
      assert last == "\n";
      assert Expand(last, column) == "\n";
      assert fixed[..|fixed| - 1] == Expand(body, 0);
    } else {
      assert '\n' !in fixed;
      assert Expand(last, column) != "";
      forall i | 0 <= i < |fixed| - 1 ensures fixed[i] != '\n' {
        assert fixed[i] in fixed;
      }
    }
  }

  lemma TabsFix()
    ensures Fixes(CheckTabs, true)
  {
    forall line | IsLine(line) && !CheckTabs(line).compliant
      ensures FixesLine(CheckTabs, true, line)
    {
      ExpandHasNoTab(line, 0);
      TabsKeepLine(line);
      if IsOff(line) {
        TabsKeepGuard(line);
      }
    }
  }

  // ---------------------------------------------------------------- emacs

  lemma ContainsY(s: string, sub: string)
    requires Contains(s, sub) && 'y' in sub
    ensures 'y' in s
  {
    var i :| 0 <= i <= |s| && OccursAt(s, sub, i);
    var k :| 0 <= k < |sub| && sub[k] == 'y';
    assert s[i..i + |sub|][k] == s[i + k];
  }

  lemma EmacsFixes()
    ensures Fixes(CheckEmacs, true)
  {
    forall line | IsLine(line) && !CheckEmacs(line).compliant
      ensures FixesLine(CheckEmacs, true, line)
    {
      var text := Strip(line);
      assert 'y' in "c-file-style:" && 'y' in "py-indent-offset:" by {
        assert "c-file-style:"[9] == 'y' && "py-indent-offset:"[1] == 'y';
      }
      if Contains(text, "c-file-style:") {
        ContainsY(text, "c-file-style:");
      } else {
        ContainsY(text, "py-indent-offset:");
      }
      if IsOff(line) {
        GuardText(text);
      }
    }
  }

  // ---------------------------------------------------------------- licenses

  /** What is left of the text before, and after, the core of a comment line. */
  function LeftOf(p: string): string { LstripBy(LstripBy(LstripBy(p, IsSpace), IsCommentMark), IsSpace) }

  function RightOf(q: string): string { RstripBy(RstripBy(RstripBy(q, IsSpace), IsCommentMark), IsSpace) }

  predicate IsText(c: char) { !IsSpace(c) && !IsCommentMark(c) }

  lemma CommentTextAround(p: string, u: string, q: string)
    requires u != "" && IsText(u[0]) && IsText(u[|u| - 1])
    ensures CommentText(p + u + q) == LeftOf(p) + u + RightOf(q)
  {
    StripAround(p, u, q, IsSpace);
    var p1, q1 := LstripBy(p, IsSpace), RstripBy(q, IsSpace);
    StripAround(p1, u, q1, IsCommentMark);
    StripAround(LstripBy(p1, IsCommentMark), u, RstripBy(q1, IsCommentMark), IsSpace);
  }

  ghost predicate NoText(s: string) {
    forall i :: 0 <= i < |s| ==> !IsText(s[i])
  }

  lemma CommentTextSplit(line: string) returns (p: string, q: string)
    ensures line == p + CommentText(line) + q && NoText(p) && NoText(q)
  {
    var t := Strip(line);
    var v := StripBy(t, IsCommentMark);
    var u := CommentText(line);
    var a, b := StripSplit(line, IsSpace);
    var c, d := StripSplit(t, IsCommentMark);
    var e, f := StripSplit(v, IsSpace);
    p, q := a + c + e, f + d + b;
    assert line == a + (c + (e + u + f) + d) + b;
    assert line == p + u + q;
  }

  /** Putting another text in the place of the comment text leaves the marks alone. */
  lemma CommentTextExchanged(p: string, u: string, q: string, w: string)
    requires u != "" && IsText(u[0]) && IsText(u[|u| - 1]) && CommentText(p + u + q) == u
    requires w != "" && IsText(w[0]) && IsText(w[|w| - 1])
    ensures CommentText(p + w + q) == w
  {
    CommentTextAround(p, u, q);
    CommentTextAround(p, w, q);
    assert |LeftOf(p)| + |u| + |RightOf(q)| == |u|;
    assert LeftOf(p) == "" && RightOf(q) == "";
  }

  /** What the proofs need to know of a license text. */
  ghost predicate LicenseText(u: string) {
    |u| > 20 && IsText(u[0]) && IsText(u[|u| - 1]) && '\n' !in u
  }

  lemma FirstGplLine()
    ensures LicenseText(GPL_FIRST_LINE) && GPL_FIRST_LINE[0] == 'T'
  {
    var u := GPL_FIRST_LINE;
    assert |u| == 68 && u[0] == 'T' && u[67] == 'y';
  }

  lemma SpdxText()
    ensures LicenseText(SPDX_LICENSE) && SPDX_LICENSE[0] == 'S'
  {
    var u := SPDX_LICENSE;
    assert |u| == 37 && u[0] == 'S' && u[36] == 'y';
  }

  lemma OtherGplLine(g: string)
    requires g in GPL_OTHER_LINES
    ensures |g| > 20 && g[0] != 'S' && IsText(g[0]) && |g| != |GPL_FIRST_LINE|
  {
    var i :| 0 <= i < |GPL_OTHER_LINES| && GPL_OTHER_LINES[i] == g;
    assert i == 0 || i == 1 || i == 2 || i == 3 || i == 4 || i == 5 || i == 6 || i == 7 || i == 8;
  }

  lemma StripShortens(s: string, p: char -> bool)
    ensures |StripBy(s, p)| <= |s|
  {
    var a, b := StripSplit(s, p);
  }

  lemma GuardIsNoLicense(line: string)
    requires IsOn(line) || IsOff(line)
    ensures CheckLicense(line).compliant
  {
    var g := Strip(line);
    GuardText(g);
    StripShortens(g, IsCommentMark);
    StripShortens(StripBy(g, IsCommentMark), IsSpace);
    FirstGplLine();
    if CommentText(line) in GPL_OTHER_LINES {
      OtherGplLine(CommentText(line));
    }
  }

  lemma ExchangeKeepsLine(p: string, u: string, q: string, w: string)
    requires IsLine(p + u + q) && u != "" && '\n' !in u && w != "" && '\n' !in w
    ensures IsLine(p + w + q) && (Ended(p + u + q) ==> Ended(p + w + q))
  {
    var s, t := p + u + q, p + w + q;
    forall i | 0 <= i < |t| - 1 ensures t[i] != '\n' {
      if i < |p| {
        assert s[..|s| - 1][i] == t[i];
      } else if i < |p| + |w| {
        assert t[i] == w[i - |p|];
      } else {
        assert s[..|s| - 1][i - |w| + |u|] == t[i];
      }
    }
    if q == "" {
      assert s[|s| - 1] == u[|u| - 1] && u[|u| - 1] in u;
    }
  }

  lemma LicenseIsReplaced(line: string, u: string, w: string)
    requires IsLine(line) && CommentText(line) == u && LicenseText(u) && LicenseText(w) && u[0] == 'T'
    ensures var fixed := Replace(line, u, w);
            && CommentText(fixed) == w && IsLine(fixed)
            && (Ended(line) ==> Ended(fixed))
  {
    var p, q := CommentTextSplit(line);
    assert 'T' !in p && 'T' !in q by {
      assert IsText('T');
    }
    ReplaceOnce(p, u, q, w);
    CommentTextExchanged(p, u, q, w);
    ExchangeKeepsLine(p, u, q, w);
  }

  lemma SpdxComplies(fixed: string)
    requires CommentText(fixed) == SPDX_LICENSE
    ensures CheckLicense(fixed).compliant
  {
    FirstGplLine();
    SpdxText();
    if SPDX_LICENSE in GPL_OTHER_LINES {
      OtherGplLine(SPDX_LICENSE);
    }
  }

  lemma LicenseFixes()
    ensures Fixes(CheckLicense, true)
  {
    forall line | IsLine(line) && !CheckLicense(line).compliant
      ensures FixesLine(CheckLicense, true, line)
    {
      if IsOff(line) {
        GuardIsNoLicense(line);
      } else if CommentText(line) == GPL_FIRST_LINE {
        FirstGplLine();
        SpdxText();
        LicenseIsReplaced(line, GPL_FIRST_LINE, SPDX_LICENSE);
        SpdxComplies(CheckLicense(line).fixed);
      }
    }
  }
}
