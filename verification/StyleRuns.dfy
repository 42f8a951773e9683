/**
  One fixing run of check-style-clang-format.py over a file: license, emacs, whitespace
  and then tabs.  The script takes the file for compliant afterwards.  That is true of
  three of the checks; expanding the tabs may uncover a license line, which only the
  next run replaces.
 */
module StyleRuns {
  import opened PyStrings
  import opened LineCheckers
  import opened FileChecker
  import opened StylePipeline
  import opened HiddenLicenses
  import opened LineLaws

  /** Which of the four checks select a file. */
  datatype Selection = Selection(license: bool, emacs: bool, whitespace: bool, tabs: bool)

  const ALL := Selection(true, true, true, true)

  ghost predicate CompliesWith(s: Selection, text: string) {
    && (s.license ==> Complies(CheckLicense, true, text))
    && (s.emacs ==> Complies(CheckEmacs, true, text))
    && (s.whitespace ==> Complies(CheckWhitespace, false, text))
    && (s.tabs ==> Complies(CheckTabs, true, text))
  }

  function FixedIf(selected: bool, check: LineChecker, respectGuards: bool, text: string): string {
    if selected then FixedText(check, respectGuards, text) else text
  }

  /** The file as the license, the emacs, the whitespace and the tabs fixers leave it. */
  function Licensed(s: Selection, text: string): string {
    FixedIf(s.license, CheckLicense, true, text)
  }

  function Cleared(s: Selection, text: string): string {
    FixedIf(s.emacs, CheckEmacs, true, Licensed(s, text))
  }

  function BeforeTabs(s: Selection, text: string): string {
    FixedIf(s.whitespace, CheckWhitespace, false, Cleared(s, text))
  }

  function FixedBy(s: Selection, text: string): string {
    FixedIf(s.tabs, CheckTabs, true, BeforeTabs(s, text))
  }

  // ---------------------------------------------------------------- compliant files

  lemma {:induction false} CompliantLinesStay(check: LineChecker, respectGuards: bool, enabled: bool,
                                              lines: seq<string>)
    requires AllCompliant(check, respectGuards, enabled, lines)
    ensures FixedLines(check, respectGuards, enabled, lines) == lines
    decreases |lines|
  {
    if lines != [] {
      CompliantLinesStay(check, respectGuards, EnabledAfter(respectGuards, enabled, lines[0]), lines[1..]);
      assert [lines[0]] + lines[1..] == lines;
    }
  }

  /** A file that complies is not changed by the fixer, byte for byte. */
  lemma CompliantIsLeftAlone(check: LineChecker, respectGuards: bool, text: string)
    requires Complies(check, respectGuards, text)
    ensures FixedText(check, respectGuards, text) == text
  {
    CompliantLinesStay(check, respectGuards, true, ReadLines(text));
    ReadGivesLines(text);
  }

  // ---------------------------------------------------------------- one run, two runs

  /** What a check finds after another fixer that may be selected or not. */
  lemma SurvivesIf(a: LineChecker, ra: bool, selected: bool, b: LineChecker, rb: bool, text: string)
    requires Survives(a, ra, b, rb) && Complies(a, ra, text)
    ensures Complies(a, ra, FixedIf(selected, b, rb, text))
  {
    if selected { TextSurvives(a, ra, b, rb, text); }
  }

  lemma NothingHiddenIf(selected: bool, check: LineChecker, respectGuards: bool, text: string)
    requires Fixes(check, respectGuards) && LeavesHidden(check)
    ensures NothingHidden(ReadLines(FixedIf(selected, check, respectGuards, text))) <==> NothingHidden(ReadLines(text))
  {
    if selected { NothingHiddenSurvives(check, respectGuards, text); }
  }

  /**
    One fixing run makes the file comply with the checks that select it exactly when no
    line of the file as it is given hides a license behind its tabs, unless the license
    or the tabs check does not select it.
   */
  lemma OneRunFixes(s: Selection, text: string)
    ensures s.tabs ==> Complies(CheckTabs, true, FixedBy(s, text))
    ensures s.whitespace ==> Complies(CheckWhitespace, false, FixedBy(s, text))
    ensures s.emacs ==> Complies(CheckEmacs, true, FixedBy(s, text))
    ensures CompliesWith(s, FixedBy(s, text)) <==> (s.license && s.tabs ==> NothingHidden(ReadLines(text)))
  {
    var trimmed := BeforeTabs(s, text);
    PassedBeforeTabs(s, text);
    PassedByTabs(s, trimmed);
    HiddenBeforeTabs(s, text);
    if s.license && s.tabs {
      LicenseSurvivesTabs(trimmed);
    }
  }

  lemma PassedByTabs(s: Selection, trimmed: string)
    requires s.emacs ==> Complies(CheckEmacs, true, trimmed)
    requires s.whitespace ==> Complies(CheckWhitespace, false, trimmed)
    ensures var fixed := FixedIf(s.tabs, CheckTabs, true, trimmed);
            && (s.tabs ==> Complies(CheckTabs, true, fixed))
            && (s.whitespace ==> Complies(CheckWhitespace, false, fixed))
            && (s.emacs ==> Complies(CheckEmacs, true, fixed))
  {
    FixThenCheckAll(trimmed);
    TabsRunLate();
    if s.emacs { SurvivesIf(CheckEmacs, true, s.tabs, CheckTabs, true, trimmed); }
    if s.whitespace { SurvivesIf(CheckWhitespace, false, s.tabs, CheckTabs, true, trimmed); }
  }

  lemma PassedBeforeTabs(s: Selection, text: string)
    ensures s.license ==> Complies(CheckLicense, true, BeforeTabs(s, text))
    ensures s.emacs ==> Complies(CheckEmacs, true, BeforeTabs(s, text))
    ensures s.whitespace ==> Complies(CheckWhitespace, false, BeforeTabs(s, text))
  {
    var licensed, cleared := Licensed(s, text), Cleared(s, text);
    FixThenCheckAll(text);
    FixThenCheckAll(licensed);
    FixThenCheckAll(cleared);
    EmacsRunsLate();
    WhitespaceRunsLate();
    if s.license {
      SurvivesIf(CheckLicense, true, s.emacs, CheckEmacs, true, licensed);
      SurvivesIf(CheckLicense, true, s.whitespace, CheckWhitespace, false, cleared);
    }
    if s.emacs {
      SurvivesIf(CheckEmacs, true, s.whitespace, CheckWhitespace, false, cleared);
    }
  }

  /** The first three fixers neither hide nor uncover a license. */
  lemma HiddenBeforeTabs(s: Selection, text: string)
    ensures NothingHidden(ReadLines(BeforeTabs(s, text))) <==> NothingHidden(ReadLines(text))
  {
    LicenseFixes();
    EmacsFixes();
    WhitespaceFixes();
    LicenseLeavesHidden();
    EmacsLeavesHidden();
    WhitespaceLeavesHidden();
    NothingHiddenIf(s.license, CheckLicense, true, text);
    NothingHiddenIf(s.emacs, CheckEmacs, true, Licensed(s, text));
    NothingHiddenIf(s.whitespace, CheckWhitespace, false, Cleared(s, text));
  }

  /** A run on a file that complies except for license text only replaces that text. */
  lemma OnlyLicenseLeft(s: Selection, text: string)
    requires s.tabs ==> Complies(CheckTabs, true, text)
    requires s.whitespace ==> Complies(CheckWhitespace, false, text)
    requires s.emacs ==> Complies(CheckEmacs, true, text)
    ensures FixedBy(s, text) == Licensed(s, text) && CompliesWith(s, FixedBy(s, text))
  {
    var licensed := Licensed(s, text);
    FixThenCheckAll(text);
    LicenseRunsLate();
    if s.emacs {
      SurvivesIf(CheckEmacs, true, s.license, CheckLicense, true, text);
      CompliantIsLeftAlone(CheckEmacs, true, licensed);
    }
    if s.whitespace {
      SurvivesIf(CheckWhitespace, false, s.license, CheckLicense, true, text);
      CompliantIsLeftAlone(CheckWhitespace, false, licensed);
    }
    if s.tabs {
      SurvivesIf(CheckTabs, true, s.license, CheckLicense, true, text);
      CompliantIsLeftAlone(CheckTabs, true, licensed);
    }
  }

  /** Two fixing runs always suffice, and further runs change nothing. */
  lemma TwoRunsFix(s: Selection, text: string)
    ensures CompliesWith(s, FixedBy(s, FixedBy(s, text)))
    ensures FixedBy(s, FixedBy(s, FixedBy(s, text))) == FixedBy(s, FixedBy(s, text))
  {
    OneRunFixes(s, text);
    OnlyLicenseLeft(s, FixedBy(s, text));
    var fixed := FixedBy(s, FixedBy(s, text));
    OnlyLicenseLeft(s, fixed);
    if s.license {
      CompliantIsLeftAlone(CheckLicense, true, fixed);
    }
  }

  // ---------------------------------------------------------------- a file that takes two runs

  /** A tab one column before a tab stop becomes a single space. */
  lemma TabAsSpace(before: string, after: string)
    requires '\t' !in before && '\n' !in before && '\r' !in before && |before| % 4 == 3
    requires '\t' !in after
    ensures ExpandTabs(before + "\t" + after) == before + " " + after
  {
    FirstTab(before, after);
    assert seq(1, _ => ' ') == " ";
  }

  /** A tab between characters that stay belongs to the text of the line. */
  lemma TabInside(line: string, j: nat, i: nat, k: nat)
    requires j < i < k < |line| && line[i] == '\t' && !IsSpace(line[j]) && !IsSpace(line[k])
    ensures '\t' in Strip(line)
  {
    var a, b := StripSplit(line, IsSpace);
    assert |a| <= j && k < |a| + |Strip(line)|;
    assert Strip(line)[i - |a|] == '\t';
  }

  const TABBED_GUARD := " //" + "\t" + "clang-format off"

  /** Expanding a tab can make a guard of a line, so that less is checked afterwards. */
  lemma TabMakesGuard()
    ensures !IsOff(TABBED_GUARD) && IsOff(ExpandTabs(TABBED_GUARD))
  {
    TabAsSpace(" //", "clang-format off");
    SpacesAroundGuard();
    TabInside(TABBED_GUARD, 2, 3, 4);
    if IsOff(TABBED_GUARD) { GuardText(Strip(TABBED_GUARD)); }
  }

  lemma SpacesAroundGuard()
    ensures IsOff(" //" + " " + "clang-format off")
  {
    var g := FORMAT_GUARD_OFF[0];
    assert g == "// clang-format off";
    assert " //" + " " + "clang-format off" == " " + g + "";
    GuardAround(" ", g, "");
  }

  /** The first line of the license with a tab in the place of the space after "This program is". */
  const TABBED_LICENSE := GPL_FIRST_LINE[..15] + "\t" + GPL_FIRST_LINE[16..]

  ghost predicate Plain(s: string) {
    forall i :: 0 <= i < |s| ==> s[i] != '\t' && s[i] != '\n' && s[i] != '\r' && s[i] != ':'
  }

  lemma GplIsPlain()
    ensures Plain(GPL_FIRST_LINE)
  {
    assert Plain("This program is free software; you ");
    assert Plain("can redistribute it and/or modify");
    PlainConcat("This program is free software; you ", "can redistribute it and/or modify");
  }

  lemma PlainConcat(s: string, t: string)
    requires Plain(s) && Plain(t)
    ensures Plain(s + t)
  {
  }

  lemma GplLength()
    ensures |GPL_FIRST_LINE| == 68 && GPL_FIRST_LINE[15] == ' '
  {
  }

  lemma TabbedLicenseIsNone()
    ensures CheckLicense(TABBED_LICENSE + "\n").compliant
    ensures ExpandTabs(TABBED_LICENSE + "\n") == GPL_FIRST_LINE + "\n"
  {
    var u, w := GPL_FIRST_LINE, TABBED_LICENSE;
    GplIsPlain();
    GplLength();
    FirstGplLine();
    TabAsSpace(u[..15], u[16..] + "\n");
    assert u[..15] + "\t" + (u[16..] + "\n") == w + "\n";
    assert u[..15] + " " + (u[16..] + "\n") == u + "\n";
    assert "" + w + "\n" == w + "\n";
    NoMarks();
    CommentTextAround("", w, "\n");
    assert CommentText(w + "\n") == w;
    assert w[15] != u[15];
    if w in GPL_OTHER_LINES { OtherGplLine(w); }
  }

  lemma NoMarks()
    ensures LeftOf("") == "" && RightOf("\n") == ""
  {
    NewlineIsStripped();
  }

  lemma OneLine(check: LineChecker, respectGuards: bool, line: string)
    requires IsLine(line)
    ensures ReadLines(line) == [line]
    ensures check(line).compliant ==> FixedText(check, respectGuards, line) == line
  {
    LineLengthOf(line, "");
    assert line + "" == line;
    assert ReadLines(line) == [line];
    if check(line).compliant {
      assert Complies(check, respectGuards, line);
      CompliantIsLeftAlone(check, respectGuards, line);
    }
  }

  /**
    A file of one line that the first run changes only by expanding its tab, and that
    holds license text afterwards.
   */
  lemma OneRunIsNotEnough()
    ensures FixedBy(ALL, TABBED_LICENSE + "\n") == GPL_FIRST_LINE + "\n"
    ensures !CompliesWith(ALL, FixedBy(ALL, TABBED_LICENSE + "\n"))
  {
    var text := TABBED_LICENSE + "\n";
    TabbedLicenseIsLine();
    TabbedLicensePasses();
    assert BeforeTabs(ALL, text) == text;
    TabIsFixed(text);
    TabbedLicenseIsNone();
    LicenseLineAlone();
  }

  lemma TabbedLicenseIsLine()
    ensures IsLine(TABBED_LICENSE + "\n") && '\t' in TABBED_LICENSE + "\n" && ':' !in TABBED_LICENSE + "\n"
    ensures !IsSpace(TABBED_LICENSE[|TABBED_LICENSE| - 1])
  {
    GplIsPlain();
    GplLength();
    FirstGplLine();
    assert TABBED_LICENSE[15] == '\t';
    assert TABBED_LICENSE[|TABBED_LICENSE| - 1] == GPL_FIRST_LINE[67];
  }

  lemma TabbedLicensePasses()
    ensures var text := TABBED_LICENSE + "\n";
            && FixedText(CheckLicense, true, text) == text && FixedText(CheckEmacs, true, text) == text
            && FixedText(CheckWhitespace, false, text) == text
  {
    var text := TABBED_LICENSE + "\n";
    TabbedLicenseIsLine();
    TabbedLicenseIsNone();
    if !CheckEmacs(text).compliant { EmacsText(text); }
    NewlineIsStripped();
    RstripStops(TABBED_LICENSE, "\n", IsSpace);
    OneLine(CheckLicense, true, text);
    OneLine(CheckEmacs, true, text);
    OneLine(CheckWhitespace, false, text);
  }

  lemma TabIsFixed(text: string)
    requires IsLine(text) && '\t' in text
    ensures FixedText(CheckTabs, true, text) == ExpandTabs(text)
  {
    OneLine(CheckTabs, true, text);
    assert FixedLines(CheckTabs, true, true, [text]) == [FixedLine(CheckTabs, true, true, text)];
    assert WriteLines([ExpandTabs(text)]) == ExpandTabs(text) + WriteLines([]);
  }

  lemma LicenseLineAlone()
    ensures !Complies(CheckLicense, true, GPL_FIRST_LINE + "\n")
  {
    var line := GPL_FIRST_LINE + "\n";
    FirstGplLine();
    NoMarks();
    assert "" + GPL_FIRST_LINE + "\n" == line;
    CommentTextAround("", GPL_FIRST_LINE, "\n");
    OneLine(CheckLicense, true, line);
    if IsOff(line) { GuardIsNoLicense(line); }
  }
}
