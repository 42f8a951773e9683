/**
  check_style_clang_format: the license, emacs, whitespace and tabs checks in the order
  of CHECKS, each over the files that are listed for it.
 */
module StyleScript {
  import opened LineCheckers
  import opened FileChecker
  import opened HiddenLicenses
  import opened StyleRuns

  datatype Check = License | Emacs | Whitespace | Tabs

  const CHECKS := [License, Emacs, Whitespace, Tabs]

  function CheckerOf(check: Check): LineChecker {
    match check
    case License => CheckLicense
    case Emacs => CheckEmacs
    case Whitespace => CheckWhitespace
    case Tabs => CheckTabs
  }

  predicate RespectsGuards(check: Check) { check != Whitespace }

  // ---------------------------------------------------------------- one check

  /** What a check leaves of a file. */
  function Outcome(check: LineChecker, respectGuards: bool, fix: bool, text: string): string {
    if fix then FixedText(check, respectGuards, text) else text
  }

  /** A file that has been fixed is not changed by the same fixer again. */
  lemma OutcomeTwice(check: LineChecker, respectGuards: bool, fix: bool, text: string)
    requires Fixes(check, respectGuards)
    ensures var outcome := Outcome(check, respectGuards, fix, text);
            Outcome(check, respectGuards, fix, outcome) == outcome
  {
    if fix {
      FixThenCheck(check, respectGuards, text);
      CompliantIsLeftAlone(check, respectGuards, FixedText(check, respectGuards, text));
    }
  }

  method CheckStyleFile(file: TextFile, fix: bool, verbose: bool, respectGuards: bool, check: LineChecker)
      returns (compliant: bool)
    modifies file
    ensures compliant == Complies(check, respectGuards, old(file.content))
    ensures file.content == Outcome(check, respectGuards, fix, old(file.content))
  {
    ghost var text := file.content;
    compliant := CheckManuallyFile(file, fix, verbose, respectGuards, check);
    if compliant {
      CompliantIsLeftAlone(check, respectGuards, text);
    }
  }

  /**
    One check of its files.  Files that have just been fixed count as a success.  A file
    that is listed twice is checked twice, which changes nothing.
   */
  method CheckStyleFiles(files: seq<TextFile>, fix: bool, verbose: bool, respectGuards: bool, check: LineChecker)
      returns (successful: bool)
    requires Fixes(check, respectGuards)
    modifies set f | f in files
    ensures successful == (fix || forall f :: f in files ==> Complies(check, respectGuards, old(f.content)))
    ensures forall f :: f in files ==> f.content == Outcome(check, respectGuards, fix, old(f.content))
  {
    ghost var was := map f | f in files :: f.content;
    var allCompliant := true;
    for i := 0 to |files|
      invariant forall f :: f in files ==>
                  f.content == if f in files[..i] then Outcome(check, respectGuards, fix, was[f]) else was[f]
      invariant !fix ==> (allCompliant <==> forall f :: f in files[..i] ==> Complies(check, respectGuards, was[f]))
    {
      var file := files[i];
      OutcomeTwice(check, respectGuards, fix, was[file]);
      assert forall f :: f in files[..i + 1] <==> f in files[..i] || f == file by {
        assert files[..i + 1] == files[..i] + [file];
      }
      var compliant := CheckStyleFile(file, fix, verbose, respectGuards, check);
      allCompliant := allCompliant && compliant;
    }
    assert files[..|files|] == files;
    successful := allCompliant || fix;
  }

  // ---------------------------------------------------------------- all checks

  ghost predicate Passes(check: Check, text: string) {
    Complies(CheckerOf(check), RespectsGuards(check), text)
  }

  function After(check: Check, fix: bool, text: string): string {
    Outcome(CheckerOf(check), RespectsGuards(check), fix, text)
  }

  lemma CheckersFix(check: Check)
    ensures Fixes(CheckerOf(check), RespectsGuards(check))
  {
    LicenseFixes();
    EmacsFixes();
    WhitespaceFixes();
    TabsFix();
  }

  /** One check, if it is enabled; the files that are not listed for it are left alone. */
  method RunCheck(files: set<TextFile>, listed: seq<TextFile>, enabled: bool, fix: bool, verbose: bool, check: Check)
      returns (successful: bool)
    requires forall f :: f in listed ==> f in files
    modifies files
    ensures successful == (fix || !enabled || forall f :: f in listed ==> Passes(check, old(f.content)))
    ensures forall f :: f in files ==>
              f.content == if enabled && f in listed then After(check, fix, old(f.content)) else old(f.content)
  {
    successful := true;
    if enabled {
      CheckersFix(check);
      successful := CheckStyleFiles(listed, fix, verbose, RespectsGuards(check), CheckerOf(check));
    }
  }

  type Listing = map<Check, seq<TextFile>>

  predicate Selects(enabled: set<Check>, lists: Listing, check: Check, f: TextFile)
    requires check in lists
  {
    check in enabled && f in lists[check]
  }

  /** What the first k checks leave of a file: those that select it work on it in order. */
  function AfterChecks(k: nat, enabled: set<Check>, lists: Listing, fix: bool, f: TextFile, text: string): string
    requires k <= |CHECKS| && forall check :: check in lists
  {
    if k == 0 then text else
    var before := AfterChecks(k - 1, enabled, lists, fix, f, text);
    if Selects(enabled, lists, CHECKS[k - 1], f) then After(CHECKS[k - 1], fix, before) else before
  }

  lemma {:induction false} CheckingChangesNothing(k: nat, enabled: set<Check>, lists: Listing,
                                                  f: TextFile, text: string)
    requires k <= |CHECKS| && forall check :: check in lists
    ensures AfterChecks(k, enabled, lists, false, f, text) == text
  {
    if k > 0 { CheckingChangesNothing(k - 1, enabled, lists, f, text); }
  }

  /** Every file passed those of the first k checks that select it. */
  ghost predicate Passed(k: nat, enabled: set<Check>, lists: Listing, was: map<TextFile, string>)
    requires k <= |CHECKS| && forall check :: check in lists
  {
    forall j, f :: 0 <= j < k && f in was && Selects(enabled, lists, CHECKS[j], f) ==> Passes(CHECKS[j], was[f])
  }

  lemma PassedNext(k: nat, enabled: set<Check>, lists: Listing, was: map<TextFile, string>)
    requires k < |CHECKS| && forall check :: check in lists && forall f :: f in lists[check] ==> f in was
    ensures var check := CHECKS[k];
            Passed(k + 1, enabled, lists, was) <==>
            Passed(k, enabled, lists, was) &&
            (check in enabled ==> forall f :: f in lists[check] ==> Passes(check, was[f]))
  {
    var check := CHECKS[k];
    if Passed(k + 1, enabled, lists, was) && check in enabled {
      forall f | f in lists[check] ensures Passes(check, was[f]) {
        assert Selects(enabled, lists, CHECKS[k], f);
      }
    }
  }

  /**
    Without fixing, the run answers whether every file passes the checks that select it;
    with fixing, it always succeeds, and those fixers have worked on the file in order.
   */
  method CheckStyle(files: set<TextFile>, lists: Listing, enabled: set<Check>, fix: bool, verbose: bool)
      returns (successful: bool)
    requires forall check :: check in lists && forall f :: f in lists[check] ==> f in files
    modifies files
    ensures successful == (fix || Passed(|CHECKS|, enabled, lists, old(map f | f in files :: f.content)))
    ensures forall f :: f in files ==>
              f.content == AfterChecks(|CHECKS|, enabled, lists, fix, f, old(f.content))
  {
    ghost var was := map f | f in files :: f.content;
    successful := true;
    for k := 0 to |CHECKS|
      invariant forall f :: f in files ==> f.content == AfterChecks(k, enabled, lists, fix, f, was[f])
      invariant successful == (fix || Passed(k, enabled, lists, was))
    {
      var check := CHECKS[k];
      if !fix {
        forall f | f in files ensures f.content == was[f] {
          CheckingChangesNothing(k, enabled, lists, f, was[f]);
        }
      }
      PassedNext(k, enabled, lists, was);
      var ok := RunCheck(files, lists[check], check in enabled, fix, verbose, check);
      successful := successful && ok;
    }
  }

  // ---------------------------------------------------------------- what the runs do for a file

  function SelectionOf(enabled: set<Check>, lists: Listing, f: TextFile): Selection
    requires forall check :: check in lists
  {
    Selection(Selects(enabled, lists, License, f), Selects(enabled, lists, Emacs, f),
              Selects(enabled, lists, Whitespace, f), Selects(enabled, lists, Tabs, f))
  }

  /** The loop over CHECKS applies the fixers that select the file one after the other. */
  lemma SelectedOutcome(enabled: set<Check>, lists: Listing, f: TextFile, text: string)
    requires forall check :: check in lists
    ensures AfterChecks(|CHECKS|, enabled, lists, true, f, text) == FixedBy(SelectionOf(enabled, lists, f), text)
  {
    var s := SelectionOf(enabled, lists, f);
    NextOutcome(0, enabled, lists, f, text);
    NextOutcome(1, enabled, lists, f, text);
    NextOutcome(2, enabled, lists, f, text);
    NextOutcome(3, enabled, lists, f, text);
    AfterIsFixed();
    assert AfterChecks(1, enabled, lists, true, f, text) == Licensed(s, text);
    assert AfterChecks(2, enabled, lists, true, f, text) == Cleared(s, text);
    assert AfterChecks(3, enabled, lists, true, f, text) == BeforeTabs(s, text);
  }

  lemma NextOutcome(k: nat, enabled: set<Check>, lists: Listing, f: TextFile, text: string)
    requires k < |CHECKS| && forall check :: check in lists
    ensures var before := AfterChecks(k, enabled, lists, true, f, text);
            AfterChecks(k + 1, enabled, lists, true, f, text)
            == if Selects(enabled, lists, CHECKS[k], f) then After(CHECKS[k], true, before) else before
  {
  }

  lemma AfterIsFixed()
    ensures forall text :: After(License, true, text) == FixedText(CheckLicense, true, text)
    ensures forall text :: After(Emacs, true, text) == FixedText(CheckEmacs, true, text)
    ensures forall text :: After(Whitespace, true, text) == FixedText(CheckWhitespace, false, text)
    ensures forall text :: After(Tabs, true, text) == FixedText(CheckTabs, true, text)
  {
  }

  /** The text passes every check that selects the file. */
  ghost predicate PassesSelected(enabled: set<Check>, lists: Listing, f: TextFile, text: string)
    requires forall check :: check in lists
  {
    forall check :: Selects(enabled, lists, check, f) ==> Passes(check, text)
  }

  lemma PassesSelectedIff(enabled: set<Check>, lists: Listing, f: TextFile, text: string)
    requires forall check :: check in lists
    ensures PassesSelected(enabled, lists, f, text) <==> CompliesWith(SelectionOf(enabled, lists, f), text)
  {
    assert Passes(License, text) <==> Complies(CheckLicense, true, text);
    assert Passes(Emacs, text) <==> Complies(CheckEmacs, true, text);
    assert Passes(Whitespace, text) <==> Complies(CheckWhitespace, false, text);
    assert Passes(Tabs, text) <==> Complies(CheckTabs, true, text);
  }

  /** Expanding the tabs of the file can break no check that has worked on it before. */
  ghost predicate Safe(enabled: set<Check>, lists: Listing, f: TextFile, text: string)
    requires forall check :: check in lists
  {
    Selects(enabled, lists, License, f) && Selects(enabled, lists, Tabs, f) ==> NothingHidden(ReadLines(text))
  }

  /**
    After a fixing run a file passes every check that selects it exactly when it hides
    no license, unless the license or the tabs check does not select it.
   */
  lemma FixedFilePasses(enabled: set<Check>, lists: Listing, f: TextFile, text: string)
    requires forall check :: check in lists
    ensures PassesSelected(enabled, lists, f, AfterChecks(|CHECKS|, enabled, lists, true, f, text))
            <==> Safe(enabled, lists, f, text)
  {
    var s := SelectionOf(enabled, lists, f);
    SelectedOutcome(enabled, lists, f, text);
    PassesSelectedIff(enabled, lists, f, FixedBy(s, text));
    OneRunFixes(s, text);
  }

  lemma TwiceFixedFilePasses(enabled: set<Check>, lists: Listing, f: TextFile, text: string)
    requires forall check :: check in lists
    ensures var once := AfterChecks(|CHECKS|, enabled, lists, true, f, text);
            PassesSelected(enabled, lists, f, AfterChecks(|CHECKS|, enabled, lists, true, f, once))
  {
    var s := SelectionOf(enabled, lists, f);
    SelectedOutcome(enabled, lists, f, text);
    SelectedOutcome(enabled, lists, f, FixedBy(s, text));
    PassesSelectedIff(enabled, lists, f, FixedBy(s, FixedBy(s, text)));
    TwoRunsFix(s, text);
  }

  /** Every file passed when each passes the checks that select it. */
  lemma PassedIff(enabled: set<Check>, lists: Listing, was: map<TextFile, string>)
    requires forall check :: check in lists
    ensures Passed(|CHECKS|, enabled, lists, was) <==>
            forall f :: f in was ==> PassesSelected(enabled, lists, f, was[f])
  {
    if Passed(|CHECKS|, enabled, lists, was) {
      forall f, check | f in was && Selects(enabled, lists, check, f) ensures Passes(check, was[f]) {
        var j := if check == License then 0 else if check == Emacs then 1 else if check == Whitespace then 2 else 3;
        assert CHECKS[j] == check;
      }
    }
  }

  /** A fixing run and then a check succeed exactly when every file is safe. */
  method FixThenCheckStyle(files: set<TextFile>, lists: Listing, enabled: set<Check>, verbose: bool)
      returns (successful: bool)
    requires forall check :: check in lists && forall f :: f in lists[check] ==> f in files
    modifies files
    ensures successful <==> forall f :: f in files ==> Safe(enabled, lists, f, old(f.content))
  {
    ghost var was := map f | f in files :: f.content;
    var fixed := CheckStyle(files, lists, enabled, true, verbose);
    ghost var now := map f | f in files :: f.content;
    successful := CheckStyle(files, lists, enabled, false, verbose);
    PassedIff(enabled, lists, now);
    forall f | f in files
      ensures PassesSelected(enabled, lists, f, now[f]) <==> Safe(enabled, lists, f, was[f])
    {
      FixedFilePasses(enabled, lists, f, was[f]);
    }
  }

  /** After two fixing runs a check always succeeds. */
  method FixTwiceThenCheckStyle(files: set<TextFile>, lists: Listing, enabled: set<Check>, verbose: bool)
      returns (successful: bool)
    requires forall check :: check in lists && forall f :: f in lists[check] ==> f in files
    modifies files
    ensures successful
  {
    ghost var was := map f | f in files :: f.content;
    var once := CheckStyle(files, lists, enabled, true, verbose);
    var twice := CheckStyle(files, lists, enabled, true, verbose);
    ghost var now := map f | f in files :: f.content;
    successful := CheckStyle(files, lists, enabled, false, verbose);
    PassedIff(enabled, lists, now);
    forall f | f in files ensures PassesSelected(enabled, lists, f, now[f]) {
      TwiceFixedFilePasses(enabled, lists, f, was[f]);
    }
  }
}
