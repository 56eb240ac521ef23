/** Report generation: `reindent`, `crash_fragment`, and `generate_report`, which
    scans the analyzer's HTML reports and failure records, writes the bug, summary
    and crash fragments, assembles `index.html` when there is anything to show and
    removes the fragments again. */
module Report {
  import opened Wrappers
  import opened Text
  import opened ReportScan
  import opened Tally
  import opened ReportBugs

  /** `' ' * n`. */
  function Spaces(n: int): (r: string)
    ensures |r| == (if n <= 0 then 0 else n)
    ensures forall i :: 0 <= i < |r| ==> r[i] == ' '
    decreases n
  {
    if n <= 0 then "" else [' '] + Spaces(n - 1)
  }

  /** What one line of a template contributes: nothing when it is blank, otherwise
      the indentation, the text between its first and second `|`, and the line
      separator; `None` where `line.split('|')[1]` raises for want of a `|`. */
  function ReindentLine(line: string, indent: int, linesep: string): Option<string> {
    if |Strip(line)| == 0 then Some("")
    else
      var pieces := SplitOn(line, '|');
      if |pieces| < 2 then None else Some(Spaces(indent) + pieces[1] + linesep)
  }

  /** Joining the contributions of two runs of lines; `None` once either raised. */
  function Both(a: Option<string>, b: Option<string>): (r: Option<string>)
    ensures r.Some? <==> a.Some? && b.Some?
    ensures r.Some? ==> r.value == a.value + b.value
  {
    if a.Some? && b.Some? then Some(a.value + b.value) else None
  }

  /** The lines' contributions, in order. */
  function ReindentLines(lines: seq<string>, indent: int, linesep: string): Option<string>
    decreases |lines|
  {
    if lines == [] then Some("")
    else Both(ReindentLines(lines[..|lines| - 1], indent, linesep), ReindentLine(lines[|lines| - 1], indent, linesep))
  }

  /** What `reindent(text, indent)` returns; `linesep` is `os.linesep`. */
  function Reindented(text: string, indent: int, linesep: string): Option<string> {
    ReindentLines(SplitLines(text), indent, linesep)
  }

  /** `reindent`: keep each non-blank line's text after its margin bar, re-indented. */
  method Reindent(text: string, indent: int, linesep: string) returns (r: Option<string>)
    ensures r == Reindented(text, indent, linesep)
  {
    var lines := SplitLines(text);
    var result := "";
    var i := 0;
    while i < |lines|
      invariant i <= |lines|
      invariant ReindentLines(lines[..i], indent, linesep) == Some(result)
    {
      var line := lines[i];
      ReindentStep(lines, i, indent, linesep);
      if |Strip(line)| > 0 {
        var pieces := SplitOn(line, '|');
        if |pieces| < 2 {
          ReindentStuck(lines, i + 1, indent, linesep);
          return None;
        }
        var piece := Spaces(indent) + pieces[1] + linesep;
        result := result + piece;
      } else {
        assert result + "" == result;
      }
      i := i + 1;
    }
    WholePrefix(lines, i);
    r := Some(result);
  }

  lemma ReindentStep(lines: seq<string>, i: nat, indent: int, linesep: string)
    requires i < |lines|
    ensures ReindentLines(lines[..i + 1], indent, linesep)
      == Both(ReindentLines(lines[..i], indent, linesep), ReindentLine(lines[i], indent, linesep))
  {
    assert lines[..i + 1][..i] == lines[..i];
  }

  /** Once a line has raised, the later lines do not matter. */
  lemma {:induction false} ReindentStuck(lines: seq<string>, i: nat, indent: int, linesep: string)
    requires i <= |lines| && ReindentLines(lines[..i], indent, linesep).None?
    ensures ReindentLines(lines, indent, linesep).None?
    decreases |lines| - i
  {
    if i < |lines| {
      ReindentStep(lines, i, indent, linesep);
      ReindentStuck(lines, i + 1, indent, linesep);
    } else {
      WholePrefix(lines, i);
    }
  }

  lemma {:induction false} ReindentLinesAppend(a: seq<string>, b: seq<string>, indent: int, linesep: string)
    ensures ReindentLines(a + b, indent, linesep) ==
      Both(ReindentLines(a, indent, linesep), ReindentLines(b, indent, linesep))
    decreases |b|
  {
    if b == [] {
      assert a + b == a;
      var x := ReindentLines(a, indent, linesep);
      assert ReindentLines(b, indent, linesep) == Some("");
      assert x.Some? ==> x.value + "" == x.value;
    } else {
      var n := |b| - 1;
      ReindentLast(a, b, indent, linesep);
      ReindentLinesAppend(a, b[..n], indent, linesep);
      BothAssociative(ReindentLines(a, indent, linesep), ReindentLines(b[..n], indent, linesep), ReindentLine(b[n], indent, linesep));
    }
  }

  lemma ReindentLast(a: seq<string>, b: seq<string>, indent: int, linesep: string)
    requires b != []
    ensures ReindentLines(a + b, indent, linesep)
      == Both(ReindentLines(a + b[..|b| - 1], indent, linesep), ReindentLine(b[|b| - 1], indent, linesep))
  {
    var n := |b| - 1;
    assert (a + b)[..|a + b| - 1] == a + b[..n];
    assert (a + b)[|a + b| - 1] == b[n];
  }

  lemma BothAssociative(x: Option<string>, y: Option<string>, z: Option<string>)
    ensures Both(Both(x, y), z) == Both(x, Both(y, z))
  {
    if x.Some? && y.Some? && z.Some? {
      assert x.value + y.value + z.value == x.value + (y.value + z.value);
    }
  }

  /** A blank line contributes nothing wherever it stands. */
  lemma BlankLineDropped(a: seq<string>, blank: string, b: seq<string>, indent: int, linesep: string)
    requires Strip(blank) == []
    ensures ReindentLines(a + [blank] + b, indent, linesep) == ReindentLines(a + b, indent, linesep)
  {
    ReindentLinesAppend(a + [blank], b, indent, linesep);
    ReindentLinesAppend(a, b, indent, linesep);
    assert ReindentLines(a + [blank], indent, linesep) == ReindentLines(a, indent, linesep) by {
      assert (a + [blank])[..|a|] == a;
      assert ReindentLine(blank, indent, linesep) == Some("");
      var x := ReindentLines(a, indent, linesep);
      assert x.Some? ==> x.value + "" == x.value;
    }
  }

  /** A line with a non-space character is not blank. */
  lemma NotBlank(s: string, i: nat)
    requires i < |s| && !IsSpace(s[i])
    ensures Strip(s) != []
  {
    var l := LStrip(s);
    assert l != [] by {
      assert i >= |s| - |l|;
    }
    var r := RStrip(l);
    assert r != [];
  }

  /** A template line `margin|text` comes out as the indentation, `text` and the
      line separator. */
  lemma BarLine(margin: string, text: string, indent: int, linesep: string)
    requires '|' !in margin && '|' !in text
    ensures ReindentLine(margin + "|" + text, indent, linesep) == Some(Spaces(indent) + text + linesep)
  {
    var line := margin + "|" + text;
    assert Strip(line) != [] by {
      assert line[|margin|] == '|';
      NotBlank(line, |margin|);
    }
    assert SplitOn(line, '|')[1] == text by {
      SplitOnPiece(margin, text, '|');
      SplitOnNoSep(text, '|');
    }
  }

  /** The template lines `margins[k]|texts[k]`. */
  function Bars(margins: seq<string>, texts: seq<string>): (r: seq<string>)
    requires |margins| == |texts|
    ensures |r| == |margins|
    ensures forall k :: 0 <= k < |r| ==> r[k] == margins[k] + "|" + texts[k]
  {
    if margins == [] then [] else [margins[0] + "|" + texts[0]] + Bars(margins[1..], texts[1..])
  }

  /** The text `reindent` should produce for those template lines. */
  function Indented(texts: seq<string>, indent: int, linesep: string): string {
    if texts == [] then ""
    else Indented(texts[..|texts| - 1], indent, linesep) + (Spaces(indent) + texts[|texts| - 1] + linesep)
  }

  lemma {:induction false} BarsReindented(margins: seq<string>, texts: seq<string>, indent: int, linesep: string)
    requires |margins| == |texts|
    requires forall k :: 0 <= k < |margins| ==> '|' !in margins[k] && '|' !in texts[k]
    ensures ReindentLines(Bars(margins, texts), indent, linesep) == Some(Indented(texts, indent, linesep))
    decreases |margins|
  {
    if margins != [] {
      var n := |margins| - 1;
      var lines := Bars(margins, texts);
      assert lines[..n] == Bars(margins[..n], texts[..n]);
      BarsReindented(margins[..n], texts[..n], indent, linesep);
      BarLine(margins[n], texts[n], indent, linesep);
      ReindentLastLine(lines, indent, linesep);
    }
  }

  lemma ReindentLastLine(lines: seq<string>, indent: int, linesep: string)
    requires lines != []
    ensures ReindentLines(lines, indent, linesep)
      == Both(ReindentLines(lines[..|lines| - 1], indent, linesep), ReindentLine(lines[|lines| - 1], indent, linesep))
  {
  }

  /** The templates of the report: a newline, then lines `margin|text`. Each line
      comes out as `indent` spaces, its text and the line separator, in order. */
  lemma TemplateReindented(margins: seq<string>, texts: seq<string>, indent: int, linesep: string)
    requires |margins| == |texts| >= 1
    requires forall k :: 0 <= k < |margins| ==> '|' !in margins[k] && '|' !in texts[k]
    requires forall k :: 0 <= k < |margins| ==> NoBreak(margins[k]) && NoBreak(texts[k])
    ensures Reindented("\n" + JoinWith(Bars(margins, texts), '\n'), indent, linesep)
      == Some(Indented(texts, indent, linesep))
  {
    var bars := Bars(margins, texts);
    var lines := [""] + bars;
    forall k | 0 <= k < |lines|
      ensures NoBreak(lines[k])
    {
      if k > 0 {
        NoBreakBar(margins[k - 1], texts[k - 1]);
      }
    }
    assert lines[|lines| - 1] != [] by {
      assert lines[|lines| - 1] == bars[|bars| - 1];
    }
    var text := "\n" + JoinWith(bars, '\n');
    assert SplitLines(text) == lines by {
      JoinFirstEmpty(bars);
      SplitLinesJoin(lines);
    }
    var body := Indented(texts, indent, linesep);
    assert ReindentLines(lines, indent, linesep) == Some("" + body) by {
      BarsReindented(margins, texts, indent, linesep);
      ReindentLinesAppend([""], bars, indent, linesep);
      assert ReindentLines([""], indent, linesep) == Some("") by {
        assert [""][..0] == [];
      }
    }
    assert "" + body == body;
  }

  lemma NoBreakBar(margin: string, text: string)
    requires NoBreak(margin) && NoBreak(text)
    ensures NoBreak(margin + "|" + text)
  {
    var s := margin + "|" + text;
    forall i | 0 <= i < |s|
      ensures !IsLineBreak(s[i])
    {
      if i < |margin| {
        assert s[i] == margin[i];
      } else if i > |margin| {
        assert s[i] == text[i - |margin| - 1];
      }
    }
  }

  lemma JoinFirstEmpty(bars: seq<string>)
    requires bars != []
    ensures JoinWith([""] + bars, '\n') == "\n" + JoinWith(bars, '\n')
  {
    assert ([""] + bars)[1..] == bars;
  }

  /** `crash_fragment`'s loop: a table row and one more in the count per failure. */
  method CrashFragment(crashes: seq<Crash>) returns (rows: seq<Crash>, count: nat)
    ensures rows == crashes && count == |crashes|
  {
    rows := [];
    count := 0;
    var i := 0;
    while i < |crashes|
      invariant i <= |crashes|
      invariant rows == crashes[..i] && count == i
    {
      var current := crashes[i];
      count := count + 1;
      rows := rows + [current];
      i := i + 1;
    }
    assert crashes[..i] == crashes;
  }

  /** A file found by `glob`: its path and its text. */
  datatype InputFile = InputFile(path: string, content: string)

  /** A pool's `imap_unordered(scan, files)`, consumed: the value of every call, in
      the order the files arrive, or `None` where one of the calls raised. */
  function ScanAll<T>(files: seq<InputFile>, scan: InputFile -> Option<T>): (r: Option<seq<T>>)
    ensures r.Some? <==> forall k :: 0 <= k < |files| ==> scan(files[k]).Some?
    ensures r.Some? ==> |r.value| == |files|
    ensures r.Some? ==> forall k :: 0 <= k < |files| ==> r.value[k] == scan(files[k]).value
  {
    if files == [] then Some([])
    else
      match scan(files[0])
      case None => None
      case Some(v) =>
        match ScanAll(files[1..], scan)
        case None => None
        case Some(rest) => Some([v] + rest)
  }

  /** `scan_bug` on one report. */
  function ScanBugFile(f: InputFile): Option<Bug> {
    ScanBugSpec(f.path, ReadLines(f.content))
  }

  /** `scan_crash` on one failure record. */
  function ScanCrashFile(f: InputFile): Option<Crash> {
    ScanCrash(f.path, ReadLines(f.content))
  }

  /** `imap_unordered(scan_bug, …)` over the reports. */
  function ScanBugs(files: seq<InputFile>): Option<seq<Bug>> {
    ScanAll(files, ScanBugFile)
  }

  /** `imap_unordered(scan_crash, …)` over the failure records. */
  function ScanCrashes(files: seq<InputFile>): Option<seq<Crash>> {
    ScanAll(files, ScanCrashFile)
  }

  /** The fragment files in the output directory. */
  datatype FragmentFile = BugsFile | SummaryFile | CrashesFile

  /** A `ReportFragment`: its file and its count. */
  datatype Fragment = Fragment(file: FragmentFile, count: nat)

  /** `os.remove`: `None` where the file is not there. */
  function Remove(disk: set<FragmentFile>, f: FragmentFile): (r: Option<set<FragmentFile>>)
    ensures r.Some? <==> f in disk
    ensures r.Some? ==> r.value == disk - {f}
  {
    if f in disk then Some(disk - {f}) else None
  }

  /** What `bug_fragment` leaves behind: the fragment it returns, the fragment
      files present afterwards, and its tally. */
  datatype BugStage = BugStage(fragment: Fragment, disk: set<FragmentFile>, tally: BugTally)

  /** `bug_fragment` as written: `bugs.html.fragment` is written, then removed on
      leaving its `with`, even when it is the fragment returned (no unique bug). */
  function BugFragmentAsWritten(bugs: seq<Bug>, disk: set<FragmentFile>): (r: Option<BugStage>)
    ensures r.Some? <==> Aggregate(bugs).Some?
    ensures r.Some? ==> BugsFile !in r.value.disk
  {
    match Aggregate(bugs)
    case None => None
    case Some(t) =>
      var count := |t.uniques|;
      if count > 0 then
        Some(BugStage(Fragment(SummaryFile, count), (disk + {BugsFile, SummaryFile}) - {BugsFile}, t))
      else
        Some(BugStage(Fragment(BugsFile, 0), (disk + {BugsFile}) - {BugsFile}, t))
  }

  /** `bug_fragment` as intended: the same, except that a bug fragment that is
      returned stays on disk for its caller to remove. */
  function BugFragmentStage(bugs: seq<Bug>, disk: set<FragmentFile>): (r: Option<BugStage>)
    ensures r.Some? <==> Aggregate(bugs).Some?
    ensures r.Some? ==> r.value.fragment.file in r.value.disk
  {
    match Aggregate(bugs)
    case None => None
    case Some(t) =>
      var count := |t.uniques|;
      if count > 0 then
        Some(BugStage(Fragment(SummaryFile, count), (disk + {BugsFile, SummaryFile}) - {BugsFile}, t))
      else
        Some(BugStage(Fragment(BugsFile, 0), disk + {BugsFile}, t))
  }

  /** `index.html`, when it is written: the fragments `assembly_report` copies in,
      each only when its count is not zero. */
  datatype Page = Page(summary: seq<SummaryRow>, bugs: seq<Bug>, crashes: seq<Crash>)

  /** What `generate_report` returns, the page it writes (if any), and the fragment
      files left in the output directory. */
  datatype Outcome = Outcome(count: nat, page: Option<Page>, disk: set<FragmentFile>)

  /** The rest of `generate_report` once `bug_fragment` has returned: the crash
      fragment, the page when the sum of the counts is not zero, then the two
      `with` exits, inner first. */
  function Finish(stage: BugStage, crashFiles: seq<InputFile>): Option<Outcome> {
    match ScanCrashes(crashFiles)
    case None => None
    case Some(crashes) =>
      var bugs := stage.fragment;
      var count := bugs.count + |crashes|;
      var page :=
        if count == 0 then None
        else if bugs.count == 0 then Some(Page([], [], crashes))
        else Some(Page(SummaryRows(stage.tally.counters, bugs.count), stage.tally.rows, crashes));
      match Remove(stage.disk + {CrashesFile}, CrashesFile)
      case None => None
      case Some(disk) =>
        match Remove(disk, bugs.file)
        case None => None
        case Some(disk') => Some(Outcome(count, page, disk'))
  }

  /** `generate_report` as written; `None` where it raises. */
  function GenerateReportAsWritten(bugFiles: seq<InputFile>, crashFiles: seq<InputFile>, disk: set<FragmentFile>): Option<Outcome> {
    match ScanBugs(bugFiles)
    case None => None
    case Some(bugs) =>
      match BugFragmentAsWritten(bugs, disk)
      case None => None
      case Some(stage) => Finish(stage, crashFiles)
  }

  /** `generate_report` with each fragment removed once. */
  function GenerateReport(bugFiles: seq<InputFile>, crashFiles: seq<InputFile>, disk: set<FragmentFile>): Option<Outcome> {
    match ScanBugs(bugFiles)
    case None => None
    case Some(bugs) =>
      match BugFragmentStage(bugs, disk)
      case None => None
      case Some(stage) => Finish(stage, crashFiles)
  }

  /** As written, a run without a single bug report raises when `generate_report`
      leaves the `with` of `bug_fragment`: the fragment it got back was already
      removed. */
  lemma NoBugsRaises(crashFiles: seq<InputFile>, disk: set<FragmentFile>)
    ensures GenerateReportAsWritten([], crashFiles, disk).None?
  {
    assert ScanBugs([]) == Some([]);
    var stage := BugFragmentAsWritten([], disk).value;
    assert stage.fragment == Fragment(BugsFile, 0);
  }

  /** The smallest case: nothing to report, and the intended run reports 0, writes
      no page and leaves no fragment behind, where the run as written raises. */
  lemma EmptyRunDiffers()
    ensures GenerateReportAsWritten([], [], {}).None?
    ensures GenerateReport([], [], {}) == Some(Outcome(0, None, {}))
  {
    NoBugsRaises([], {});
    assert ScanBugs([]) == Some([]);
    assert ScanCrashes([]) == Some([]);
  }

  /** Where some bug is reported the two agree. */
  lemma AsWrittenWithBugs(bugFiles: seq<InputFile>, crashFiles: seq<InputFile>, disk: set<FragmentFile>)
    requires ScanBugs(bugFiles).Some?
    requires var a := Aggregate(ScanBugs(bugFiles).value); a.Some? && |a.value.uniques| > 0
    ensures GenerateReportAsWritten(bugFiles, crashFiles, disk) == GenerateReport(bugFiles, crashFiles, disk)
  {
  }

  /** The fragment files `generate_report` writes: the bug and crash fragments, and
      the summary fragment when some bug is unique. */
  function Written(unique: nat): (r: set<FragmentFile>)
    ensures BugsFile in r && CrashesFile in r
    ensures SummaryFile in r <==> unique > 0
  {
    if unique > 0 then {BugsFile, SummaryFile, CrashesFile} else {BugsFile, CrashesFile}
  }

  /** `bug_fragment` as intended returns the number of distinct bugs, and its
      fragment is on disk; removing that fragment and the crash fragment leaves
      what was there before, less what the run wrote. */
  lemma StageSpec(bugs: seq<Bug>, disk: set<FragmentFile>)
    requires Aggregate(bugs).Some?
    ensures var st := BugFragmentStage(bugs, disk).value;
      && st.tally == Aggregate(bugs).value
      && st.fragment.count == |Aggregate(bugs).value.uniques|
      && st.fragment.file in st.disk && st.fragment.file != CrashesFile
      && st.disk - {CrashesFile, st.fragment.file} == disk - Written(st.fragment.count)
  {
  }

  /** The rest of `generate_report` succeeds exactly when every failure record
      scans; it adds the failures to the count, writes a page exactly when the
      count is not zero, and removes the crash fragment and the returned one. */
  lemma FinishSpec(stage: BugStage, crashFiles: seq<InputFile>)
    requires stage.fragment.file in stage.disk && stage.fragment.file != CrashesFile
    ensures Finish(stage, crashFiles).Some? <==> ScanCrashes(crashFiles).Some?
    ensures Finish(stage, crashFiles).Some? ==>
      var o := Finish(stage, crashFiles).value;
      var n := stage.fragment.count;
      && o.count == n + |crashFiles|
      && (o.page.Some? <==> o.count > 0)
      && o.disk == stage.disk - {CrashesFile, stage.fragment.file}
      && (o.page.Some? ==> o.page.value.crashes == ScanCrashes(crashFiles).value)
      && (o.page.Some? ==> o.page.value.bugs == if n == 0 then [] else stage.tally.rows)
      && (o.page.Some? && n > 0 ==> o.page.value.summary == SummaryRows(stage.tally.counters, n))
  {
  }

  /** `generate_report` runs `bug_fragment` on the scanned reports, then the rest. */
  lemma GenerateReportSteps(bugFiles: seq<InputFile>, crashFiles: seq<InputFile>, disk: set<FragmentFile>)
    ensures GenerateReport(bugFiles, crashFiles, disk) ==
      if ScanBugs(bugFiles).None? || Aggregate(ScanBugs(bugFiles).value).None? then None
      else Finish(BugFragmentStage(ScanBugs(bugFiles).value, disk).value, crashFiles)
  {
  }

  /** `generate_report` succeeds exactly when every file scans and every report
      names a file and, when new, a bug type. */
  lemma GenerateReportSucceeds(bugFiles: seq<InputFile>, crashFiles: seq<InputFile>, disk: set<FragmentFile>)
    ensures GenerateReport(bugFiles, crashFiles, disk).Some? <==>
      && ScanBugs(bugFiles).Some?
      && ScanCrashes(crashFiles).Some?
      && !(exists k :: 0 <= k < |bugFiles| && FailsAt(ScanBugs(bugFiles).value, k))
  {
    GenerateReportSteps(bugFiles, crashFiles, disk);
    if ScanBugs(bugFiles).Some? {
      var bugs := ScanBugs(bugFiles).value;
      assert |bugs| == |bugFiles|;
      AggregateFails(bugs);
      if Aggregate(bugs).Some? {
        StageSpec(bugs, disk);
        FinishSpec(BugFragmentStage(bugs, disk).value, crashFiles);
      }
    }
  }

  /** When it succeeds, `generate_report` returns the number of distinct bugs plus
      the number of failures, writes a page exactly when that is not zero, with the
      first report of each bug and every failure, and removes every fragment it
      wrote and nothing else. */
  lemma GenerateReportOutcome(bugFiles: seq<InputFile>, crashFiles: seq<InputFile>, disk: set<FragmentFile>)
    requires GenerateReport(bugFiles, crashFiles, disk).Some?
    ensures ScanBugs(bugFiles).Some? && ScanCrashes(crashFiles).Some?
    ensures var o := GenerateReport(bugFiles, crashFiles, disk).value;
      var bugs := ScanBugs(bugFiles).value;
      && o.count == |KeySet(bugs)| + |crashFiles|
      && (o.page.Some? <==> o.count > 0)
      && (o.page.Some? ==> o.page.value.bugs == FirstOfEach(bugs))
      && (o.page.Some? ==> o.page.value.crashes == ScanCrashes(crashFiles).value)
      && o.disk == disk - Written(|KeySet(bugs)|)
  {
    GenerateReportSteps(bugFiles, crashFiles, disk);
    var bugs := ScanBugs(bugFiles).value;
    AggregateFails(bugs);
    AggregateRows(bugs);
    StageSpec(bugs, disk);
    FinishSpec(BugFragmentStage(bugs, disk).value, crashFiles);
  }

  /** The page's summary counts every distinct bug once, in its "All Bugs" row and
      across its type rows, and heads the categories in order of first report. */
  lemma PageSummary(bugFiles: seq<InputFile>, crashFiles: seq<InputFile>, disk: set<FragmentFile>)
    requires GenerateReport(bugFiles, crashFiles, disk).Some?
    requires ScanBugs(bugFiles).Some? && |KeySet(ScanBugs(bugFiles).value)| > 0
    ensures var p := GenerateReport(bugFiles, crashFiles, disk).value.page;
      var bugs := ScanBugs(bugFiles).value;
      var n := |KeySet(bugs)|;
      && p.Some? && |p.value.summary| > 0
      && p.value.summary[0] == AllBugs(n) && Quantities(p.value.summary) == n
      && Headers(p.value.summary) == Distinct(CategoriesOf(FirstOfEach(bugs)))
  {
    GenerateReportSteps(bugFiles, crashFiles, disk);
    var bugs := ScanBugs(bugFiles).value;
    AggregateFails(bugs);
    AggregateRows(bugs);
    StageSpec(bugs, disk);
    FinishSpec(BugFragmentStage(bugs, disk).value, crashFiles);
    SummaryAgrees(bugs);
  }
}
