/**
  License text behind tabs: the lines of a file that only become license text when the
  tabs fixer expands them, after the license check has run.
 */
module HiddenLicenses {
  import opened PyStrings
  import opened LineCheckers
  import opened FileChecker
  import opened StylePipeline

  // ---------------------------------------------------------------- tabs uncover a license

  /** The lines of a file with the tabs of every line expanded, guards or not. */
  function Expanded(lines: seq<string>): (expanded: seq<string>) {
    seq(|lines|, i requires 0 <= i < |lines| => ExpandTabs(lines[i]))
  }

  /** A line that is license text only when its tabs are expanded. */
  predicate Hidden(line: string) {
    CheckLicense(line).compliant && !CheckLicense(ExpandTabs(line)).compliant
  }

  /** Line i is such a line, and in no OFF region of the lines as they are and with their tabs expanded. */
  predicate HidesLicense(lines: seq<string>, i: nat)
    requires i < |lines|
  {
    EnabledAt(true, true, lines, i) && EnabledAt(true, true, Expanded(lines), i) && Hidden(lines[i])
  }

  /** No line of the file hides a license. */
  ghost predicate NothingHidden(lines: seq<string>) {
    forall i :: 0 <= i < |lines| ==> !HidesLicense(lines, i)
  }

  lemma ExpandedGuard(line: string)
    ensures IsOn(line) ==> IsOn(ExpandTabs(line))
    ensures IsOff(line) ==> IsOff(ExpandTabs(line))
  {
    if IsOn(line) || IsOff(line) {
      TabsKeepGuard(line);
    }
  }

  lemma FixedTabs(enabled: bool, line: string)
    ensures FixedLine(CheckTabs, true, enabled, line) ==
            if Visited(true, enabled, line) then ExpandTabs(line) else line
    ensures line != "" ==> ExpandTabs(line) != ""
  {
    if '\t' !in line { ExpandWithoutTab(line, 0); }
  }

  /** Where the guards of the file enable the checks, the fixed file and the expanded one agree. */
  lemma {:induction false} FixedOrExpanded(lines: seq<string>, i: nat)
    requires i <= |lines|
    ensures var fixed := FixedLines(CheckTabs, true, true, lines);
            && |fixed| == |lines|
            && (EnabledAt(true, true, lines, i) ==>
                  EnabledAt(true, true, fixed, i) == EnabledAt(true, true, Expanded(lines), i))
  {
    if i == 0 {
      if lines != [] { FixedLinesAt(CheckTabs, true, true, lines, 0); }
    } else {
      FixedOrExpanded(lines, i - 1);
      FixedLinesAt(CheckTabs, true, true, lines, i - 1);
      FixedTabs(EnabledAt(true, true, lines, i - 1), lines[i - 1]);
      ExpandedGuard(lines[i - 1]);
    }
  }

  /** One line: the fixed file passes the license check there unless the line hides a license. */
  lemma LicenseAfterTabs(lines: seq<string>, i: nat)
    requires AreLines(lines) && AllCompliant(CheckLicense, true, true, lines) && i < |lines|
    ensures var fixed := FixedLines(CheckTabs, true, true, lines);
            && |fixed| == |lines|
            && ((Visited(true, EnabledAt(true, true, fixed, i), fixed[i]) ==> CheckLicense(fixed[i]).compliant)
                <==> !HidesLicense(lines, i))
  {
    var fixed := FixedLines(CheckTabs, true, true, lines);
    var line := lines[i];
    FixedLinesAt(CheckTabs, true, true, lines, i);
    FixedOrExpanded(lines, i);
    FixedTabs(EnabledAt(true, true, lines, i), line);
    AllCompliantByLine(CheckLicense, true, true, lines);
    TabsFix();
    SecondPassVisitsFewer(CheckTabs, true, lines, i);
    ExpandedGuard(line);
    if IsOn(fixed[i]) || IsOff(fixed[i]) {
      GuardIsNoLicense(fixed[i]);
    }
    if '\t' !in line { ExpandWithoutTab(line, 0); }
  }

  lemma {:induction false} NothingDeleted(lines: seq<string>)
    requires forall i :: 0 <= i < |lines| ==> lines[i] != ""
    ensures NonEmpty(lines) == lines
  {
    if lines != [] { NothingDeleted(lines[1..]); }
  }

  /** Exactly when the tabs fixer leaves a file without license text without license text. */
  lemma LicenseSurvivesTabs(text: string)
    requires Complies(CheckLicense, true, text)
    ensures Complies(CheckLicense, true, FixedText(CheckTabs, true, text)) <==> NothingHidden(ReadLines(text))
  {
    var lines := ReadLines(text);
    var fixed := FixedLines(CheckTabs, true, true, lines);
    ReadGivesLines(text);
    TabsFix();
    FixedLinesAreLines(CheckTabs, true, true, lines);
    forall i | 0 <= i < |lines| ensures fixed[i] != "" {
      FixedLinesAt(CheckTabs, true, true, lines, i);
      FixedTabs(EnabledAt(true, true, lines, i), lines[i]);
    }
    NothingDeleted(fixed);
    ReadBack(fixed);
    AllCompliantByLine(CheckLicense, true, true, fixed);
    forall i | 0 <= i < |lines|
      ensures (Visited(true, EnabledAt(true, true, fixed, i), fixed[i]) ==> CheckLicense(fixed[i]).compliant)
              <==> !HidesLicense(lines, i)
    {
      LicenseAfterTabs(lines, i);
    }
  }

  // ---------------------------------------------------------------- the other fixers hide and uncover nothing

  /** The same, walking down the lines; e and x are the two states of the guards. */
  predicate HiddenFrom(e: bool, x: bool, lines: seq<string>)
    decreases |lines|
  {
    lines != [] &&
    ((e && x && Hidden(lines[0])) ||
     HiddenFrom(EnabledAfter(true, e, lines[0]), EnabledAfter(true, x, ExpandTabs(lines[0])), lines[1..]))
  }

  ghost predicate HidesAt(e: bool, x: bool, lines: seq<string>, i: nat) {
    i < |lines| && EnabledAt(true, e, lines, i) && EnabledAt(true, x, Expanded(lines), i) && Hidden(lines[i])
  }

  lemma {:induction false} HiddenFromIff(e: bool, x: bool, lines: seq<string>)
    ensures HiddenFrom(e, x, lines) <==> exists i: nat :: HidesAt(e, x, lines, i)
    decreases |lines|
  {
    if lines != [] {
      var rest := lines[1..];
      var e', x' := EnabledAfter(true, e, lines[0]), EnabledAfter(true, x, ExpandTabs(lines[0]));
      HiddenFromIff(e', x', rest);
      assert HidesAt(e, x, lines, 0) <==> e && x && Hidden(lines[0]);
      forall i: nat ensures HidesAt(e, x, lines, i + 1) <==> HidesAt(e', x', rest, i) {
        HidesAtShift(e, x, lines, i);
      }
      if i: nat :| HidesAt(e, x, lines, i) {
        assert i > 0 ==> HidesAt(e', x', rest, i - 1);
      }
    }
  }

  lemma HidesAtShift(e: bool, x: bool, lines: seq<string>, i: nat)
    requires lines != []
    ensures HidesAt(e, x, lines, i + 1) <==>
            HidesAt(EnabledAfter(true, e, lines[0]), EnabledAfter(true, x, ExpandTabs(lines[0])), lines[1..], i)
  {
    if i + 1 < |lines| {
      EnabledShift(true, e, lines, i + 1);
      EnabledShift(true, x, Expanded(lines), i + 1);
      assert Expanded(lines)[1..] == Expanded(lines[1..]);
    }
  }

  lemma NothingHiddenIff(lines: seq<string>)
    ensures NothingHidden(lines) <==> !HiddenFrom(true, true, lines)
  {
    HiddenFromIff(true, true, lines);
    if HiddenFrom(true, true, lines) {
      var i: nat :| HidesAt(true, true, lines, i);
      assert HidesLicense(lines, i);
    } else {
      forall i | 0 <= i < |lines| ensures !HidesLicense(lines, i) {
        assert !HidesAt(true, true, lines, i);
      }
    }
  }

  /** What a changed line does to the guards and to the license text behind its tabs: nothing. */
  ghost predicate Transparent(line: string, fixed: string) {
    && IsOn(fixed) == IsOn(line) && IsOff(fixed) == IsOff(line)
    && IsOn(ExpandTabs(fixed)) == IsOn(ExpandTabs(line)) && IsOff(ExpandTabs(fixed)) == IsOff(ExpandTabs(line))
    && Hidden(fixed) == Hidden(line)
  }

  ghost predicate LeavesHidden(check: LineChecker) {
    forall line :: !check(line).compliant ==> Transparent(line, check(line).fixed)
  }

  lemma EmptyHidesNothing()
    ensures !IsOn("") && !IsOff("") && ExpandTabs("") == "" && !Hidden("")
  {
    EmptyIsNoGuard();
  }

  lemma {:induction false} HiddenSurvives(check: LineChecker, respectGuards: bool, enabled: bool,
                                          e: bool, x: bool, lines: seq<string>)
    requires LeavesHidden(check)
    ensures HiddenFrom(e, x, NonEmpty(FixedLines(check, respectGuards, enabled, lines))) == HiddenFrom(e, x, lines)
    decreases |lines|
  {
    if lines != [] {
      var line := lines[0];
      var fixed := FixedLine(check, respectGuards, enabled, line);
      assert Transparent(line, fixed);
      EmptyHidesNothing();
      HiddenSurvives(check, respectGuards, EnabledAfter(respectGuards, enabled, line),
                     EnabledAfter(true, e, line), EnabledAfter(true, x, ExpandTabs(line)), lines[1..]);
    }
  }

  /** A fixer that leaves them alone neither hides nor uncovers a license. */
  lemma NothingHiddenSurvives(check: LineChecker, respectGuards: bool, text: string)
    requires Fixes(check, respectGuards) && LeavesHidden(check)
    ensures NothingHidden(ReadLines(FixedText(check, respectGuards, text))) <==> NothingHidden(ReadLines(text))
  {
    var lines := ReadLines(text);
    ReadGivesLines(text);
    FixedLinesAreLines(check, respectGuards, true, lines);
    ReadBack(FixedLines(check, respectGuards, true, lines));
    HiddenSurvives(check, respectGuards, true, true, true, lines);
    NothingHiddenIff(lines);
    NothingHiddenIff(ReadLines(FixedText(check, respectGuards, text)));
  }

  // ---------------------------------------------------------------- whitespace

  /** Space at the end of a line does not belong to its text. */
  lemma StripTail(v: string, b: string)
    requires AllOf(b, IsSpace)
    ensures Strip(v + b) == Strip(v)
  {
    var p, q := StripSplit(v, IsSpace);
    var t := Strip(v);
    LstripAll(p, IsSpace);
    if t == "" {
      assert v == p + q;
      LstripAll(v + b, IsSpace);
    } else {
      assert v + b == p + t + (q + b);
      StripAround(p, t, q + b, IsSpace);
      RstripAll(q + b, IsSpace);
      assert "" + t + "" == t;
    }
  }

  lemma WhitespaceLeavesHidden()
    ensures LeavesHidden(CheckWhitespace)
  {
    forall line ensures Transparent(line, CheckWhitespace(line).fixed) {
      WhitespaceKeepsText(line);
      WhitespaceKeepsExpandedText(line);
      SameTextSameVerdict(line, CheckWhitespace(line).fixed);
      SameTextSameVerdict(ExpandTabs(line), ExpandTabs(CheckWhitespace(line).fixed));
    }
  }

  lemma WhitespaceKeepsExpandedText(line: string)
    ensures Strip(ExpandTabs(CheckWhitespace(line).fixed)) == Strip(ExpandTabs(line))
  {
    var u := Rstrip(line);
    var b := RstripSplit(line, IsSpace);
    var column := ColumnAfter(u, 0);
    ExpandConcat(u, b, 0);
    ExpandConcat(u, "\n", 0);
    ExpandSpaces(b, column);
    ExpandSpaces("\n", column);
    StripTail(Expand(u, 0), Expand(b, column));
    StripTail(Expand(u, 0), Expand("\n", column));
  }

  // ---------------------------------------------------------------- license text and its replacement

  lemma {:induction false} ExpandKeeps(s: string, column: nat)
    ensures |Expand(s, column)| >= |s|
    ensures forall c :: c in s && c != '\t' ==> c in Expand(s, column)
    decreases |s|
  {
    if s != "" {
      var front, rest := ExpandFirst(s, column);
      ExpandKeeps(s[1..], if s[0] == '\t' then column + |front|
                          else if s[0] == '\n' || s[0] == '\r' then 0 else column + 1);
      assert s == [s[0]] + s[1..];
    }
  }

  /** The text that stays of a line, before and after its tabs are expanded. */
  lemma ExpandAround(p: string, u: string, q: string) returns (p': string, u': string, q': string)
    requires u != "" && !IsSpace(u[0]) && !IsSpace(u[|u| - 1])
    ensures ExpandTabs(p + u + q) == p' + u' + q'
    ensures |u'| >= |u| && u'[0] == u[0] && u'[|u'| - 1] == u[|u| - 1]
    ensures NoText(p) ==> NoText(p')
    ensures NoText(q) ==> NoText(q')
  {
    var column, after := ColumnAfter(p, 0), ColumnAfter(p + u, 0);
    p', u', q' := Expand(p, 0), Expand(u, column), Expand(q, after);
    ExpandConcat(p + u, q, 0);
    ExpandConcat(p, u, 0);
    if NoText(p) { ExpandNoText(p, 0); }
    if NoText(q) { ExpandNoText(q, after); }
    ExpandKeeps(u, column);
    var front, rest := ExpandFirst(u, column);
    var last := [u[|u| - 1]];
    assert u == u[..|u| - 1] + last;
    ExpandConcat(u[..|u| - 1], last, column);
    ExpandWithoutTab(last, ColumnAfter(u[..|u| - 1], column));
  }

  lemma ExpandNoText(s: string, column: nat)
    requires NoText(s)
    ensures NoText(Expand(s, column))
  {
    ExpandHasNoTab(s, column);
    var t := Expand(s, column);
    forall i | 0 <= i < |t| ensures !IsText(t[i]) {
      assert t[i] in t;
    }
  }

  /** A line with a long text is no guard, with its tabs or without. */
  lemma LongIsNoGuard(p: string, u: string, q: string)
    requires |u| > 20 && !IsSpace(u[0]) && !IsSpace(u[|u| - 1])
    ensures !IsOn(p + u + q) && !IsOff(p + u + q)
    ensures !IsOn(ExpandTabs(p + u + q)) && !IsOff(ExpandTabs(p + u + q))
  {
    LongTextIsNoGuard(p, u, q);
    var p', u', q' := ExpandAround(p, u, q);
    LongTextIsNoGuard(p', u', q');
  }

  lemma LongTextIsNoGuard(p: string, u: string, q: string)
    requires |u| > 20 && !IsSpace(u[0]) && !IsSpace(u[|u| - 1])
    ensures !IsOn(p + u + q) && !IsOff(p + u + q)
  {
    StripAround(p, u, q, IsSpace);
    var g := Strip(p + u + q);
    if g in FORMAT_GUARD_ON || g in FORMAT_GUARD_OFF {
      GuardText(g);
    }
  }

  lemma GplLine(g: string)
    requires g == GPL_FIRST_LINE || g in GPL_OTHER_LINES
    ensures |g| > 20 && IsText(g[0]) && g[0] != 'S'
  {
    if g == GPL_FIRST_LINE { FirstGplLine(); } else { OtherGplLine(g); }
  }

  lemma LeftHasNoText(p: string)
    requires NoText(p)
    ensures NoText(LeftOf(p))
  {
    var a := LstripSplit(p, IsSpace);
    var q := LstripBy(p, IsSpace);
    var b := LstripSplit(q, IsCommentMark);
    var c := LstripSplit(LstripBy(q, IsCommentMark), IsSpace);
    assert p == a + (b + (c + LeftOf(p)));
    assert LeftOf(p) == p[|a| + |b| + |c|..];
  }

  /** The identifier is no license text, with its tabs or without. */
  lemma SpdxHidesNothing(p: string, q: string)
    requires NoText(p) && NoText(q)
    ensures CheckLicense(ExpandTabs(p + SPDX_LICENSE + q)).compliant
  {
    SpdxText();
    var p', u, q' := ExpandAround(p, SPDX_LICENSE, q);
    CommentTextAround(p', u, q');
    LeftHasNoText(p');
    var text := LeftOf(p') + u + RightOf(q');
    assert text[0] == if LeftOf(p') == "" then 'S' else LeftOf(p')[0];
    if text == GPL_FIRST_LINE || text in GPL_OTHER_LINES { GplLine(text); }
  }

  lemma LicenseLeavesHidden()
    ensures LeavesHidden(CheckLicense)
  {
    forall line | !CheckLicense(line).compliant ensures Transparent(line, CheckLicense(line).fixed) {
      var u := CommentText(line);
      var p, q := CommentTextSplit(line);
      GplLine(u);
      var a, b := StripSplit(StripBy(Strip(line), IsCommentMark), IsSpace);
      LongIsNoGuard(p, u, q);
      EmptyHidesNothing();
      if u == GPL_FIRST_LINE {
        var p', q' := LicenseChange(line);
        SpdxText();
        LongIsNoGuard(p', SPDX_LICENSE, q');
        SpdxHidesNothing(p', q');
      }
    }
  }

  // ---------------------------------------------------------------- emacs

  ghost predicate NoColon(s: string) {
    forall i :: 0 <= i < |s| ==> s[i] != ':'
  }

  lemma OpeningHasNoColon()
    ensures NoColon(GPL_FIRST_LINE) && NoColon(GPL_OTHER_LINES[0]) && NoColon(GPL_OTHER_LINES[1])
  {
  }

  lemma DistributionHasNoColon()
    ensures NoColon(GPL_OTHER_LINES[2]) && NoColon(GPL_OTHER_LINES[3]) && NoColon(GPL_OTHER_LINES[4])
  {
  }

  lemma ParticularHasNoColon()
    ensures NoColon(GPL_OTHER_LINES[5]) && NoColon(GPL_OTHER_LINES[6])
  {
  }

  lemma AddressHasNoColon()
    ensures NoColon(GPL_OTHER_LINES[7]) && NoColon(GPL_OTHER_LINES[8])
  {
  }

  lemma GplLinesHaveNoColon()
    ensures NoColon(GPL_FIRST_LINE) && forall i :: 0 <= i < |GPL_OTHER_LINES| ==> NoColon(GPL_OTHER_LINES[i])
  {
    OpeningHasNoColon();
    DistributionHasNoColon();
    ParticularHasNoColon();
    AddressHasNoColon();
  }

  lemma TextSurvivesExpansion(line: string, c: char)
    requires c in line && !IsSpace(c)
    ensures c in ExpandTabs(line) && c in Strip(ExpandTabs(line))
  {
    ExpandKeeps(line, 0);
    var e := ExpandTabs(line);
    var a, b := StripSplit(e, IsSpace);
    var i :| 0 <= i < |e| && e[i] == c;
    assert |a| <= i < |a| + |Strip(e)|;
    assert Strip(e)[i - |a|] == c;
  }

  /** A line with a colon is no license text, with its tabs or without. */
  lemma ColonIsNoLicense(line: string)
    requires ':' in line
    ensures CheckLicense(line).compliant
  {
    GplLinesHaveNoColon();
    var p, q := CommentTextSplit(line);
    var u := CommentText(line);
    var i :| 0 <= i < |line| && line[i] == ':';
    assert IsText(':');
    assert |p| <= i < |p| + |u|;
    assert u[i - |p|] == ':';
  }

  lemma OccursInText(line: string, p: string, k: nat)
    requires Contains(Strip(line), p) && k < |p|
    ensures p[k] in line
  {
    var a, b := StripSplit(line, IsSpace);
    var i :| 0 <= i <= |Strip(line)| && OccursAt(Strip(line), p, i);
    assert line[|a| + i + k] == Strip(line)[i..i + |p|][k];
  }

  lemma EmacsText(line: string)
    requires !CheckEmacs(line).compliant
    ensures ':' in line && 'y' in line
  {
    if Contains(Strip(line), "c-file-style:") {
      OccursInText(line, "c-file-style:", 12);
      OccursInText(line, "c-file-style:", 9);
    } else {
      OccursInText(line, "py-indent-offset:", 16);
      OccursInText(line, "py-indent-offset:", 1);
    }
  }

  lemma YIsNoGuard(line: string)
    requires 'y' in Strip(line)
    ensures !IsOn(line) && !IsOff(line)
  {
    if IsOn(line) || IsOff(line) { GuardText(Strip(line)); }
  }

  lemma EmacsLeavesHidden()
    ensures LeavesHidden(CheckEmacs)
  {
    forall line | !CheckEmacs(line).compliant ensures Transparent(line, CheckEmacs(line).fixed) {
      EmacsText(line);
      EmptyHidesNothing();
      TextSurvivesExpansion(line, ':');
      TextSurvivesExpansion(line, 'y');
      ColonIsNoLicense(ExpandTabs(line));
      YIsNoGuard(ExpandTabs(line));
      ExpandedGuard(line);
    }
  }
}
