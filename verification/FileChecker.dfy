/**
  check_manually_file of check-style-clang-format.py: the lines of a file pass an
  automaton that the format guards switch off and on; where it is on, a line checker
  checks, and if asked to fixes, the line.
 */
module FileChecker {
  import opened LineCheckers

  // ---------------------------------------------------------------- reading and writing

  function LineLength(text: string): (n: nat)
    requires text != ""
    ensures 0 < n <= |text|
  {
    if text[0] == '\n' || |text| == 1 then 1 else 1 + LineLength(text[1..])
  }

  /** readlines(): every line keeps its newline, only the last may have none. */
  function ReadLines(text: string): seq<string> {
    if text == "" then [] else
    var n := LineLength(text);
    [text[..n]] + ReadLines(text[n..])
  }

  /** writelines(): the lines one after the other. */
  function WriteLines(lines: seq<string>): string {
    if lines == [] then "" else lines[0] + WriteLines(lines[1..])
  }

  ghost predicate AreLines(lines: seq<string>) {
    && (forall i :: 0 <= i < |lines| ==> IsLine(lines[i]))
    && (forall i :: 0 <= i < |lines| - 1 ==> Ended(lines[i]))
  }

  lemma {:induction false} LineLengthIsFirst(text: string)
    requires text != ""
    ensures var n := LineLength(text);
            IsLine(text[..n]) && (n < |text| ==> Ended(text[..n]))
  {
    if text[0] != '\n' && |text| > 1 {
      var n := LineLength(text[1..]);
      LineLengthIsFirst(text[1..]);
      assert text[..n + 1] == [text[0]] + text[1..][..n];
      assert text[..n + 1][..n] == [text[0]] + text[1..][..n][..n - 1];
    }
  }

  lemma {:induction false} LineLengthOf(line: string, rest: string)
    requires IsLine(line) && (rest != "" ==> Ended(line))
    ensures LineLength(line + rest) == |line|
  {
    if |line| > 1 {
      assert line[..|line| - 1][0] == line[0];
      assert line[1..][..|line| - 2] == line[..|line| - 1][1..];
      assert (line + rest)[1..] == line[1..] + rest;
      LineLengthOf(line[1..], rest);
    } else if rest == "" {
      assert line + rest == line;
    }
  }

  lemma {:induction false} ReadGivesLines(text: string)
    ensures AreLines(ReadLines(text)) && WriteLines(ReadLines(text)) == text
    decreases |text|
  {
    if text != "" {
      var n := LineLength(text);
      LineLengthIsFirst(text);
      ReadGivesLines(text[n..]);
      assert text[..n] + text[n..] == text;
    }
  }

  /** The lines that are not deleted. */
  function NonEmpty(lines: seq<string>): seq<string> {
    if lines == [] then []
    else if lines[0] == "" then NonEmpty(lines[1..])
    else [lines[0]] + NonEmpty(lines[1..])
  }

  /** Written lines are read back as they are, without the deleted ones. */
  lemma {:induction false} ReadBack(lines: seq<string>)
    requires forall i :: 0 <= i < |lines| && lines[i] != "" ==> IsLine(lines[i])
    requires forall i :: 0 <= i < |lines| - 1 && lines[i] != "" ==> Ended(lines[i])
    ensures ReadLines(WriteLines(lines)) == NonEmpty(lines)
    decreases |lines|
  {
    if lines != [] {
      var rest := lines[1..];
      assert forall i :: 0 <= i < |rest| ==> rest[i] == lines[i + 1];
      ReadBack(rest);
      if lines[0] == "" {
        assert WriteLines(lines) == WriteLines(rest);
      } else {
        if |lines| == 1 {
          assert rest == [];
        }
        LineLengthOf(lines[0], WriteLines(rest));
        assert (lines[0] + WriteLines(rest))[|lines[0]|..] == WriteLines(rest);
      }
    }
  }

  // ---------------------------------------------------------------- the automaton

  function EnabledAfter(respectGuards: bool, enabled: bool, line: string): bool {
    if !respectGuards then enabled
    else if IsOn(line) then true
    else if IsOff(line) then false
    else enabled
  }

  /** Whether the line is checked when the automaton stands at `enabled` before it. */
  predicate Visited(respectGuards: bool, enabled: bool, line: string) {
    !respectGuards || EnabledAfter(respectGuards, enabled, line) || IsOn(line) || IsOff(line)
  }

  /** What becomes of one line in fix mode. */
  function FixedLine(check: LineChecker, respectGuards: bool, enabled: bool, line: string): string {
    if Visited(respectGuards, enabled, line) && !check(line).compliant then check(line).fixed else line
  }

  function FixedLines(check: LineChecker, respectGuards: bool, enabled: bool, lines: seq<string>): seq<string>
    decreases |lines|
  {
    if lines == [] then [] else
    [FixedLine(check, respectGuards, enabled, lines[0])]
    + FixedLines(check, respectGuards, EnabledAfter(respectGuards, enabled, lines[0]), lines[1..])
  }

  /** Whether every line that is checked complies. */
  predicate AllCompliant(check: LineChecker, respectGuards: bool, enabled: bool, lines: seq<string>)
    decreases |lines|
  {
    lines == [] ||
    ((Visited(respectGuards, enabled, lines[0]) ==> check(lines[0]).compliant)
     && AllCompliant(check, respectGuards, EnabledAfter(respectGuards, enabled, lines[0]), lines[1..]))
  }

  /** The verdict on a text, and the text after a run in fix mode. */
  predicate Complies(check: LineChecker, respectGuards: bool, text: string) {
    AllCompliant(check, respectGuards, true, ReadLines(text))
  }

  function FixedText(check: LineChecker, respectGuards: bool, text: string): string {
    WriteLines(FixedLines(check, respectGuards, true, ReadLines(text)))
  }

  class TextFile {
    var content: string

    constructor (content: string)
      ensures this.content == content
    {
      this.content := content;
    }
  }

  /** What the loop keeps: lines before i are fixed, the others are as read. */
  ghost predicate Progress(check: LineChecker, respectGuards: bool, lines: seq<string>,
                           i: nat, enabled: bool, compliant: bool, fileLines: seq<string>)
  {
    && i <= |lines| == |fileLines| && fileLines[i..] == lines[i..]
    && FixedLines(check, respectGuards, true, lines)
       == fileLines[..i] + FixedLines(check, respectGuards, enabled, lines[i..])
    && AllCompliant(check, respectGuards, true, lines)
       == (compliant && AllCompliant(check, respectGuards, enabled, lines[i..]))
  }

  lemma ProgressStep(check: LineChecker, respectGuards: bool, lines: seq<string>,
                     i: nat, enabled: bool, compliant: bool, fileLines: seq<string>)
    requires i < |lines| && Progress(check, respectGuards, lines, i, enabled, compliant, fileLines)
    ensures fileLines[i := lines[i]] == fileLines
    ensures Progress(check, respectGuards, lines, i + 1, EnabledAfter(respectGuards, enabled, lines[i]),
                     compliant && (Visited(respectGuards, enabled, lines[i]) ==> check(lines[i]).compliant),
                     fileLines[i := FixedLine(check, respectGuards, enabled, lines[i])])
  {
    var fixed := FixedLine(check, respectGuards, enabled, lines[i]);
    var rest := FixedLines(check, respectGuards, EnabledAfter(respectGuards, enabled, lines[i]), lines[i + 1..]);
    assert lines[i..][1..] == lines[i + 1..];
    assert fileLines[i] == fileLines[i..][0];
    assert fileLines[i := fixed][i + 1..] == fileLines[i..][1..];
    assert fileLines[i := fixed][..i + 1] == fileLines[..i] + [fixed];
    assert fileLines[..i] + ([fixed] + rest) == (fileLines[..i] + [fixed]) + rest;
  }

  /** The loop over the lines. */
  method CheckLines(lines: seq<string>, fix: bool, verbose: bool, respectGuards: bool, check: LineChecker)
      returns (compliant: bool, fileLines: seq<string>)
    ensures compliant == AllCompliant(check, respectGuards, true, lines)
    ensures fix || verbose ==> fileLines == FixedLines(check, respectGuards, true, lines)
  {
    compliant, fileLines := true, lines;
    var enabled := true;
    for i := 0 to |lines|
      invariant Progress(check, respectGuards, lines, i, enabled, compliant, fileLines)
    {
      var line := lines[i];
      ProgressStep(check, respectGuards, lines, i, enabled, compliant, fileLines);
      if respectGuards {
        if IsOn(line) {
          enabled := true;
        } else if IsOff(line) {
          enabled := false;
        }
        if !enabled && !IsOn(line) && !IsOff(line) {
          continue;
        }
      }
      var r := check(line);
      if !r.compliant {
        compliant := false;
        fileLines := fileLines[i := r.fixed];
        if !fix && !verbose {
          break;
        }
      }
    }
  }

  /** The verdict is the same in every mode; only fix mode writes, and only if needed. */
  method CheckManuallyFile(file: TextFile, fix: bool, verbose: bool, respectGuards: bool, check: LineChecker)
      returns (compliant: bool)
    modifies file
    ensures compliant == Complies(check, respectGuards, old(file.content))
    ensures file.content == if fix && !compliant then FixedText(check, respectGuards, old(file.content))
                            else old(file.content)
  {
    var lines := ReadLines(file.content);
    var fileLines;
    compliant, fileLines := CheckLines(lines, fix, verbose, respectGuards, check);
    if fix && !compliant {
      file.content := WriteLines(fileLines);
    }
  }

  // ---------------------------------------------------------------- fix, then check

  /** The automaton state before line i. */
  function EnabledAt(respectGuards: bool, enabled: bool, lines: seq<string>, i: nat): bool
    requires i <= |lines|
    decreases i
  {
    if i == 0 then enabled
    else EnabledAfter(respectGuards, EnabledAt(respectGuards, enabled, lines, i - 1), lines[i - 1])
  }

  /**
    One line in both passes.  The second pass is never on where the first was off, so
    what it checks has been fixed: even if the fix has made a guard of the line.
   */
  lemma LineInBothPasses(check: LineChecker, respectGuards: bool, e1: bool, e2: bool, line: string)
    requires Fixes(check, respectGuards) && IsLine(line) && (respectGuards && e2 ==> e1)
    ensures var fixed := FixedLine(check, respectGuards, e1, line);
            && (fixed != "" && Visited(respectGuards, e2, fixed) ==>
                  Visited(respectGuards, e1, line) && check(fixed).compliant)
            && (respectGuards && EnabledAfter(respectGuards, e2, fixed) ==> EnabledAfter(respectGuards, e1, line))
            && (fixed != "" ==> IsLine(fixed) && (Ended(line) ==> Ended(fixed)))
  {
    if Visited(respectGuards, e1, line) && !check(line).compliant {
      assert FixesLine(check, respectGuards, line);
    }
  }

  lemma EmptyIsNoGuard()
    ensures !IsOn("") && !IsOff("")
  {
  }

  /** Wherever the first pass stands on, the second may stand off, never the other way round. */
  lemma {:induction false} SecondPassComplies(check: LineChecker, respectGuards: bool, e1: bool, e2: bool,
                                              lines: seq<string>)
    requires Fixes(check, respectGuards) && AreLines(lines) && (respectGuards && e2 ==> e1)
    ensures AllCompliant(check, respectGuards, e2, NonEmpty(FixedLines(check, respectGuards, e1, lines)))
    decreases |lines|
  {
    if lines != [] {
      var fixed := FixedLine(check, respectGuards, e1, lines[0]);
      LineInBothPasses(check, respectGuards, e1, e2, lines[0]);
      EmptyIsNoGuard();
      SecondPassComplies(check, respectGuards, EnabledAfter(respectGuards, e1, lines[0]),
                         EnabledAfter(respectGuards, e2, fixed), lines[1..]);
    }
  }

  lemma {:induction false} FixedLinesAreLines(check: LineChecker, respectGuards: bool, e: bool, lines: seq<string>)
    requires Fixes(check, respectGuards) && AreLines(lines)
    ensures var fixed := FixedLines(check, respectGuards, e, lines);
            && |fixed| == |lines|
            && (forall i :: 0 <= i < |fixed| && fixed[i] != "" ==> IsLine(fixed[i]))
            && (forall i :: 0 <= i < |fixed| - 1 && fixed[i] != "" ==> Ended(fixed[i]))
    decreases |lines|
  {
    if lines != [] {
      LineInBothPasses(check, respectGuards, e, false, lines[0]);
      FixedLinesAreLines(check, respectGuards, EnabledAfter(respectGuards, e, lines[0]), lines[1..]);
      var rest := FixedLines(check, respectGuards, EnabledAfter(respectGuards, e, lines[0]), lines[1..]);
      assert forall i :: 0 < i < |lines| ==>
               FixedLines(check, respectGuards, e, lines)[i] == rest[i - 1];
    }
  }

  /** A file that has been fixed complies, even though fixing may move the guards. */
  lemma FixThenCheck(check: LineChecker, respectGuards: bool, text: string)
    requires Fixes(check, respectGuards)
    ensures Complies(check, respectGuards, FixedText(check, respectGuards, text))
  {
    var lines := ReadLines(text);
    ReadGivesLines(text);
    FixedLinesAreLines(check, respectGuards, true, lines);
    ReadBack(FixedLines(check, respectGuards, true, lines));
    SecondPassComplies(check, respectGuards, true, true, lines);
  }

  /** The four fixers, run as the script runs them: only whitespace disregards the guards. */
  lemma FixThenCheckAll(text: string)
    ensures Complies(CheckTabs, true, FixedText(CheckTabs, true, text))
    ensures Complies(CheckWhitespace, false, FixedText(CheckWhitespace, false, text))
    ensures Complies(CheckLicense, true, FixedText(CheckLicense, true, text))
    ensures Complies(CheckEmacs, true, FixedText(CheckEmacs, true, text))
  {
    TabsFix();
    WhitespaceFixes();
    LicenseFixes();
    EmacsFixes();
    FixThenCheck(CheckTabs, true, text);
    FixThenCheck(CheckWhitespace, false, text);
    FixThenCheck(CheckLicense, true, text);
    FixThenCheck(CheckEmacs, true, text);
  }

  // ---------------------------------------------------------------- what a fix leaves alone

  lemma {:induction false} FixedLinesAt(check: LineChecker, respectGuards: bool, enabled: bool,
                                        lines: seq<string>, i: nat)
    requires i < |lines|
    ensures var fixed := FixedLines(check, respectGuards, enabled, lines);
            && |fixed| == |lines|
            && fixed[i] == FixedLine(check, respectGuards, EnabledAt(respectGuards, enabled, lines, i), lines[i])
    decreases |lines|
  {
    var after := EnabledAfter(respectGuards, enabled, lines[0]);
    if i > 0 {
      FixedLinesAt(check, respectGuards, after, lines[1..], i - 1);
      EnabledShift(respectGuards, enabled, lines, i);
    } else if |lines| > 1 {
      FixedLinesAt(check, respectGuards, after, lines[1..], 0);
    }
  }

  lemma {:induction false} EnabledShift(respectGuards: bool, enabled: bool, lines: seq<string>, i: nat)
    requires 0 < i <= |lines|
    ensures EnabledAt(respectGuards, enabled, lines, i)
            == EnabledAt(respectGuards, EnabledAfter(respectGuards, enabled, lines[0]), lines[1..], i - 1)
  {
    if i > 1 { EnabledShift(respectGuards, enabled, lines, i - 1); }
  }

  /** The second pass is on only where the first was. */
  lemma {:induction false} SecondPassOnLess(check: LineChecker, respectGuards: bool, lines: seq<string>, i: nat)
    requires Fixes(check, respectGuards) && AreLines(lines) && i <= |lines|
    ensures var fixed := FixedLines(check, respectGuards, true, lines);
            && |fixed| == |lines|
            && (respectGuards && EnabledAt(respectGuards, true, fixed, i) ==> EnabledAt(respectGuards, true, lines, i))
  {
    var fixed := FixedLines(check, respectGuards, true, lines);
    FixedLinesAreLines(check, respectGuards, true, lines);
    if i > 0 {
      SecondPassOnLess(check, respectGuards, lines, i - 1);
      FixedLinesAt(check, respectGuards, true, lines, i - 1);
      LineInBothPasses(check, respectGuards, EnabledAt(respectGuards, true, lines, i - 1),
                       EnabledAt(respectGuards, true, fixed, i - 1), lines[i - 1]);
    }
  }

  /** The second pass checks no line that the first has not checked. */
  lemma SecondPassVisitsFewer(check: LineChecker, respectGuards: bool, lines: seq<string>, i: nat)
    requires Fixes(check, respectGuards) && AreLines(lines) && i < |lines|
    ensures var fixed := FixedLines(check, respectGuards, true, lines);
            && |fixed| == |lines|
            && (fixed[i] != "" && Visited(respectGuards, EnabledAt(respectGuards, true, fixed, i), fixed[i])
                ==> Visited(respectGuards, EnabledAt(respectGuards, true, lines, i), lines[i]))
  {
    var fixed := FixedLines(check, respectGuards, true, lines);
    SecondPassOnLess(check, respectGuards, lines, i);
    FixedLinesAt(check, respectGuards, true, lines, i);
    LineInBothPasses(check, respectGuards, EnabledAt(respectGuards, true, lines, i),
                     EnabledAt(respectGuards, true, fixed, i), lines[i]);
  }

  /** The last guard above line i is an OFF guard. */
  ghost predicate OffAbove(lines: seq<string>, i: nat)
    requires i <= |lines|
  {
    exists k :: 0 <= k < i && IsOff(lines[k]) && forall j :: k < j < i ==> !IsOn(lines[j])
  }

  lemma OffAboveNext(lines: seq<string>, i: nat)
    requires i < |lines|
    ensures OffAbove(lines, i + 1) <==> IsOff(lines[i]) || (OffAbove(lines, i) && !IsOn(lines[i]))
  {
  }

  /** The state before line i is set by the last guard above it. */
  lemma {:induction false} EnabledByLastGuard(lines: seq<string>, i: nat)
    requires i <= |lines|
    ensures !EnabledAt(true, true, lines, i) <==> OffAbove(lines, i)
  {
    if i > 0 {
      EnabledByLastGuard(lines, i - 1);
      OffAboveNext(lines, i - 1);
      OnIsNotOff(lines[i - 1]);
    }
  }

  lemma OnIsNotOff(line: string)
    ensures !(IsOn(line) && IsOff(line))
  {
  }

  /**
    Lines that comply and lines below an OFF guard are written back byte for byte; in
    an OFF region only the guard itself is ever checked.
   */
  lemma FixLeavesAlone(check: LineChecker, lines: seq<string>, i: nat)
    requires i < |lines|
    requires check(lines[i]).compliant ||
             (!IsOn(lines[i]) && !IsOff(lines[i]) && OffAbove(lines, i))
    ensures |FixedLines(check, true, true, lines)| == |lines|
    ensures FixedLines(check, true, true, lines)[i] == lines[i]
  {
    FixedLinesAt(check, true, true, lines, i);
    EnabledByLastGuard(lines, i);
  }

  // ---------------------------------------------------------------- line by line

  /** The verdict, line by line. */
  lemma {:induction false} AllCompliantByLine(check: LineChecker, respectGuards: bool, enabled: bool,
                                              lines: seq<string>)
    ensures AllCompliant(check, respectGuards, enabled, lines) <==>
            forall i :: 0 <= i < |lines| &&
                        Visited(respectGuards, EnabledAt(respectGuards, enabled, lines, i), lines[i])
                        ==> check(lines[i]).compliant
    decreases |lines|
  {
    if lines != [] {
      var after := EnabledAfter(respectGuards, enabled, lines[0]);
      var rest := lines[1..];
      AllCompliantByLine(check, respectGuards, after, rest);
      forall i | 0 < i <= |lines|
        ensures EnabledAt(respectGuards, enabled, lines, i) == EnabledAt(respectGuards, after, rest, i - 1)
      {
        EnabledShift(respectGuards, enabled, lines, i);
      }
      forall i | 0 <= i < |rest|
        ensures lines[i + 1] == rest[i]
        ensures EnabledAt(respectGuards, enabled, lines, i + 1) == EnabledAt(respectGuards, after, rest, i)
      {
      }
      if AllCompliant(check, respectGuards, enabled, lines) {
        forall i | 0 <= i < |lines| && Visited(respectGuards, EnabledAt(respectGuards, enabled, lines, i), lines[i])
          ensures check(lines[i]).compliant
        {
          if i > 0 { assert rest[i - 1] == lines[i]; }
        }
      }
    }
  }

  /** Every line counts but those in an OFF region; the guards themselves count everywhere. */
  ghost predicate Counts(lines: seq<string>, i: nat)
    requires i < |lines|
  {
    IsOn(lines[i]) || IsOff(lines[i]) || !OffAbove(lines, i)
  }

  lemma VisitedIffCounts(lines: seq<string>, i: nat)
    requires i < |lines|
    ensures Visited(true, EnabledAt(true, true, lines, i), lines[i]) <==> Counts(lines, i)
  {
    EnabledByLastGuard(lines, i);
  }

  /** The verdict on a file, with the guards respected and without. */
  lemma VerdictIff(check: LineChecker, lines: seq<string>)
    ensures AllCompliant(check, true, true, lines) <==>
            forall i :: 0 <= i < |lines| && Counts(lines, i) ==> check(lines[i]).compliant
    ensures AllCompliant(check, false, true, lines) <==>
            forall i :: 0 <= i < |lines| ==> check(lines[i]).compliant
  {
    AllCompliantByLine(check, true, true, lines);
    AllCompliantByLine(check, false, true, lines);
    forall i | 0 <= i < |lines|
      ensures Visited(true, EnabledAt(true, true, lines, i), lines[i]) <==> Counts(lines, i)
    {
      VisitedIffCounts(lines, i);
    }
  }

  /** The line that a fixing run puts in the place of line i. */
  lemma FixIs(check: LineChecker, lines: seq<string>, i: nat)
    requires i < |lines|
    ensures |FixedLines(check, true, true, lines)| == |FixedLines(check, false, true, lines)| == |lines|
    ensures FixedLines(check, true, true, lines)[i]
            == if Counts(lines, i) && !check(lines[i]).compliant then check(lines[i]).fixed else lines[i]
    ensures FixedLines(check, false, true, lines)[i]
            == if !check(lines[i]).compliant then check(lines[i]).fixed else lines[i]
  {
    FixedLinesAt(check, true, true, lines, i);
    FixedLinesAt(check, false, true, lines, i);
    VisitedIffCounts(lines, i);
  }
}
