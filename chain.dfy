/** The per-entry decision chain of `libscanbuild/analyze.py`: `run` classifies the
    compiler call, then `exclude`, `arch_check`, `language_check`,
    `filter_debug_flags` and `run_analyzer` each rewrite the job's flags and either
    pass it on or stop, and `report_failure` describes a failed analysis.

    The stages' shared dictionary becomes the typed record `Job`; the keys a stage
    `require`s are its fields, so the decorator's `KeyError` cannot happen. Each stage
    returns a `Verdict`: `Continue(job)` where the source calls its continuation with
    that dictionary, `Skip` where it returns `None`, `Raise` where it throws. */
module Chain {
  import opened Wrappers
  import opened Text
  import opened Paths
  import opened Collaborators
  import opened Classify

  datatype Verdict<T> = Skip | Raise | Continue(next: T)

  /** A compilation database entry: `command` is either an argument list or one
      shell-escaped string. */
  datatype Command = Argv(args: seq<string>) | Shell(line: string)
  datatype Entry = Entry(directory: string, file: string, command: Command)

  /** The constants `analyze_parameters` derives from the command line. */
  datatype Config = Config(
    clang: string,
    outputDir: string,
    outputFormat: string,
    outputFailures: bool,
    directArgs: seq<string>,
    forceDebug: bool,
    excludes: seq<string>)

  /** The dictionary passed from stage to stage once `classify_parameters` has run. */
  datatype Job = Job(
    directory: string,
    file: string,
    config: Config,
    flags: seq<string>,
    archList: seq<string>,
    language: Option<string>,
    compiler: Option<Compiler>)

  /** `any(contains(dir, file) for dir in dirs)`, stopping at the first `True`;
      `None` where `relpath` raises on the way. */
  function AnyContains(cwd: string, dirs: seq<string>, file: string): (r: Option<bool>)
    requires StartsWith(cwd, "/")
    ensures r.None? <==> dirs != [] && file == ""
    ensures file != "" ==> r == Some(Excluded(cwd, dirs, file))
  {
    if dirs == [] then Some(false)
    else
      match Contains(cwd, dirs[0], file)
      case None => None
      case Some(true) =>
        ContainsIffPrefix(cwd, dirs[0], file);
        Some(true)
      case Some(false) =>
        var rest := AnyContains(cwd, dirs[1..], file);
        ContainsIffPrefix(cwd, dirs[0], file);
        assert forall k :: 1 <= k < |dirs| ==> dirs[k] == dirs[1..][k - 1];
        rest
  }

  /** Some directory of `dirs` is, component by component, a prefix of `file`. */
  ghost predicate Excluded(cwd: string, dirs: seq<string>, file: string)
    requires StartsWith(cwd, "/")
  {
    exists k :: 0 <= k < |dirs| && IsPrefix(Components(cwd, dirs[k]), Components(cwd, file))
  }

  /** `exclude`: stop when one of the excluded directories contains the file, and
      pass the job on untouched otherwise. */
  function Exclude(job: Job, cwd: string): (r: Verdict<Job>)
    requires StartsWith(cwd, "/")
    ensures r.Raise? <==> job.file == "" && job.config.excludes != []
    ensures r.Skip? <==> job.file != "" && Excluded(cwd, job.config.excludes, job.file)
    ensures r.Continue? ==> r.next == job
  {
    match AnyContains(cwd, job.config.excludes, job.file)
    case None => Raise
    case Some(true) => Skip
    case Some(false) => Continue(job)
  }

  predicate Disabled(arch: string) {
    arch == "ppc" || arch == "ppc64"
  }

  /** `[a for a in archs if a not in disabled]`. */
  function Enabled(archs: seq<string>): (r: seq<string>)
    ensures forall k :: 0 <= k < |r| ==> !Disabled(r[k])
    ensures r == [] <==> forall k :: 0 <= k < |archs| ==> Disabled(archs[k])
  {
    if archs == [] then []
    else
      var rest := Enabled(archs[1..]);
      assert forall k :: 1 <= k < |archs| ==> archs[k] == archs[1..][k - 1];
      if Disabled(archs[0]) then rest else [archs[0]] + rest
  }

  /** The last element of `Enabled(archs)` is enabled and followed only by disabled
      architectures. */
  lemma LastEnabled(archs: seq<string>)
    requires Enabled(archs) != []
    ensures exists k :: (0 <= k < |archs| && archs[k] == Enabled(archs)[|Enabled(archs)| - 1] &&
      forall l :: k < l < |archs| ==> Disabled(archs[l]))
  {
    var k := LastEnabledAt(archs);
  }

  /** The position of the last enabled architecture. */
  lemma {:induction false} LastEnabledAt(archs: seq<string>) returns (k: nat)
    requires Enabled(archs) != []
    ensures k < |archs| && archs[k] == Enabled(archs)[|Enabled(archs)| - 1]
    ensures forall l :: k < l < |archs| ==> Disabled(archs[l])
  {
    var rest := Enabled(archs[1..]);
    if rest == [] {
      k := 0;
      assert !Disabled(archs[0]) && Enabled(archs) == [archs[0]];
      assert forall l :: 0 < l < |archs| ==> archs[l] == archs[1..][l - 1];
    } else {
      var j := LastEnabledAt(archs[1..]);
      k := j + 1;
      assert Enabled(archs)[|Enabled(archs)| - 1] == rest[|rest| - 1];
      assert forall l :: k < l < |archs| ==> archs[l] == archs[1..][l - 1];
    }
  }

  /** `arch_check`: no `-arch` at all keeps the flags; only disabled ones stop the
      analysis; otherwise the last enabled one is passed first in the flags. */
  function ArchCheck(job: Job): (r: Verdict<Job>)
    ensures !r.Raise?
    ensures r.Skip? <==> job.archList != [] && forall k :: 0 <= k < |job.archList| ==> Disabled(job.archList[k])
    ensures job.archList == [] ==> r == Continue(job)
    ensures r.Continue? && job.archList != [] ==>
      exists k :: 0 <= k < |job.archList| && !Disabled(job.archList[k]) &&
        (forall l :: k < l < |job.archList| ==> Disabled(job.archList[l])) &&
        r.next == job.(flags := ["-arch", job.archList[k]] + job.flags)
  {
    if job.archList == [] then Continue(job)
    else
      var enabled := Enabled(job.archList);
      if enabled == [] then Skip
      else
        LastEnabled(job.archList);
        Continue(job.(flags := ["-arch", enabled[|enabled| - 1]] + job.flags))
  }

  /** The languages `language_check` lets through. */
  predicate Accepted(language: string) {
    language in {"c", "c++", "objective-c", "objective-c++", "c-cpp-output",
                 "c++-cpp-output", "objective-c-cpp-output"}
  }

  /** The language the job is analyzed as: the `-x` value, or else what the file
      name implies for the compiler in use. */
  function ResolvedLanguage(job: Job, tc: Toolchain): (r: Option<string>)
    ensures job.language.Some? ==> r == job.language
    ensures job.language.None? && job.compiler.None? ==> r.None?
  {
    if job.language.None? && job.compiler.Some? then tc.classifySource(job.file, job.compiler.value == C)
    else job.language
  }

  /** `language_check`: stop for an unknown or unsupported language, otherwise put
      `-x language` in front of the flags. */
  function LanguageCheck(job: Job, tc: Toolchain): (r: Verdict<Job>)
    ensures !r.Raise?
    ensures r.Continue? <==> ResolvedLanguage(job, tc).Some? && Accepted(ResolvedLanguage(job, tc).value)
    ensures r.Continue? ==> var l := ResolvedLanguage(job, tc).value;
      r.next == job.(language := Some(l), flags := ["-x", l] + job.flags)
  {
    match ResolvedLanguage(job, tc)
    case None => Skip
    case Some(l) =>
      if !Accepted(l) then Skip
      else Continue(job.(language := Some(l), flags := ["-x", l] + job.flags))
  }

  /** `filter_debug_flags`: with `force_debug`, `-UNDEBUG` goes last. */
  function FilterDebugFlags(job: Job): (r: Job)
    ensures job.config.forceDebug ==> r.flags == job.flags + ["-UNDEBUG"]
    ensures !job.config.forceDebug ==> r.flags == job.flags
    ensures r == job.(flags := r.flags)
  {
    if job.config.forceDebug then job.(flags := job.flags + ["-UNDEBUG"]) else job
  }

  /** `target()` of `run_analyzer`: a fresh `report-*.plist` for the plist formats,
      the output directory otherwise. */
  function ReportTarget(config: Config): (r: Target)
    ensures r.FreshPlist? <==> config.outputFormat == "plist" || config.outputFormat == "plist-html"
    ensures r.dir == config.outputDir
  {
    if config.outputFormat in {"plist", "plist-html"} then FreshPlist(config.outputDir)
    else OutputDir(config.outputDir)
  }

  /** The analysis command before `get_arguments` expands it. */
  function AnalyzerCall(job: Job): (r: AnalyzerCommand)
    ensures |r.args| >= 4 && r.args[..2] == [job.config.clang, "--analyze"]
    ensures r.args[|r.args| - 2..] == [job.file, "-o"]
    ensures r.args[2..|r.args| - 2] == job.config.directArgs + job.flags
    ensures r.target == ReportTarget(job.config)
  {
    AnalyzerCommand([job.config.clang, "--analyze"] + job.config.directArgs + job.flags + [job.file, "-o"],
                    ReportTarget(job.config))
  }

  /** How `report_failure` names a failure. */
  datatype ErrorKind = Crash | OtherError

  function ErrorName(kind: ErrorKind): string {
    match kind
    case Crash => "crash"
    case OtherError => "other_error"
  }

  /** A process killed by a signal reports a negative status: that is a crash. */
  function Classification(exitCode: int): (r: ErrorKind)
    ensures r == Crash <==> exitCode < 0
  {
    if exitCode < 0 then Crash else OtherError
  }

  predicate IsAsciiLetter(c: char) {
    'a' <= c <= 'z' || 'A' <= c <= 'Z'
  }

  function UpperChar(c: char): char {
    if 'a' <= c <= 'z' then (c as int - 32) as char else c
  }

  /** `str.title()` for ASCII text: a letter is upper-cased when it follows a
      non-letter (or starts the text) and lower-cased otherwise. */
  function TitleFrom(s: string, afterLetter: bool): (r: string)
    ensures |r| == |s|
  {
    if s == [] then []
    else if IsAsciiLetter(s[0]) then
      [if afterLetter then LowerChar(s[0]) else UpperChar(s[0])] + TitleFrom(s[1..], true)
    else [s[0]] + TitleFrom(s[1..], false)
  }

  /** `error.title().replace('_', ' ')`, the second line of the `.info.txt` file. */
  function Label(kind: ErrorKind): string {
    ReplaceChar(TitleFrom(ErrorName(kind), false), '_', " ")
  }

  lemma CrashLabel()
    ensures Label(Crash) == "Crash"
  {
    assert TitleFrom("crash", false) == "Crash" by {
      assert "crash"[1..] == "rash" && "rash"[1..] == "ash" && "ash"[1..] == "sh" && "sh"[1..] == "h";
    }
    assert ReplaceChar("Crash", '_', " ") == "Crash" by {
      assert "Crash"[1..] == "rash" && "rash"[1..] == "ash" && "ash"[1..] == "sh" && "sh"[1..] == "h";
    }
  }

  lemma OtherErrorLabel()
    ensures Label(OtherError) == "Other Error"
  {
    assert ErrorName(OtherError) == "other_error";
    TitleOtherError();
    UnderscoreToSpace();
  }

  lemma TitleOtherError()
    ensures TitleFrom("other_error", false) == "Other" + ("_" + "Error")
  {
    OtherErrorWords();
    TitleAppend("other", "_" + "error", false);
    TitleFirstWord();
    TitleSecondWord();
  }

  lemma OtherErrorWords()
    ensures "other_error" == "other" + ("_" + "error")
    ensures IsAsciiLetter("other"[4])
  {
  }

  lemma TitleFirstWord()
    ensures TitleFrom("other", false) == "Other"
  {
    TitleOfWord("other", false);
  }

  lemma TitleSecondWord()
    ensures TitleFrom("_" + "error", true) == "_" + "Error"
  {
    TitleAppend("_", "error", true);
    TitleOfWord("error", false);
    assert TitleFrom("_", true) == "_";
  }

  lemma UnderscoreToSpace()
    ensures ReplaceChar("Other" + ("_" + "Error"), '_', " ") == "Other Error"
  {
    ReplaceCharAppend("Other", "_" + "Error", '_', " ");
    ReplaceCharAppend("_", "Error", '_', " ");
    ReplaceAbsent("Other", '_', " ");
    ReplaceAbsent("Error", '_', " ");
    assert ReplaceChar("_", '_', " ") == " ";
    SpacedWords();
  }

  lemma SpacedWords()
    ensures "Other" + (" " + "Error") == "Other Error"
  {
  }

  predicate AllLower(s: string) {
    forall i :: 0 <= i < |s| ==> 'a' <= s[i] <= 'z'
  }

  /** A lower-case word keeps its letters; only its first one is capitalised, and
      only when it does not follow a letter. */
  lemma {:induction false} TitleOfWord(s: string, afterLetter: bool)
    requires s != [] && AllLower(s)
    ensures TitleFrom(s, afterLetter) == [if afterLetter then s[0] else UpperChar(s[0])] + s[1..]
  {
    if |s| > 1 {
      TitleOfWord(s[1..], true);
      assert [s[1]] + s[2..] == s[1..];
    }
  }

  /** Title-casing runs left to right: the second part only sees whether the first
      ended in a letter. */
  lemma {:induction false} TitleAppend(a: string, b: string, afterLetter: bool)
    ensures TitleFrom(a + b, afterLetter) ==
      TitleFrom(a, afterLetter) + TitleFrom(b, if a == [] then afterLetter else IsAsciiLetter(a[|a| - 1]))
  {
    if a == [] {
      assert a + b == b;
    } else {
      assert (a + b)[0] == a[0];
      assert (a + b)[1..] == a[1..] + b;
      TitleAppend(a[1..], b, IsAsciiLetter(a[0]));
    }
  }

  /** `extension()` of `report_failure`: the preprocessed-output suffix per language. */
  function Extension(language: Option<string>): (r: string)
    ensures r == ".mii" <==> language == Some("objective-c++")
    ensures r == ".mi" <==> language == Some("objective-c")
    ensures r == ".ii" <==> language == Some("c++")
    ensures r == ".i" <==> language !in {Some("objective-c++"), Some("objective-c"), Some("c++")}
  {
    match language
    case Some("objective-c++") => ".mii"
    case Some("objective-c") => ".mi"
    case Some("c++") => ".ii"
    case _ => ".i"
  }

  /** What `report_failure` produces for a failed analysis: the preprocessed output
      is made by `syntaxArgs` followed by the name of a fresh file in `directory`
      starting with `prefix` and ending with `suffix`; `errorOutput` goes to its
      `.stderr.txt` companion and `title` into its `.info.txt` companion. */
  datatype FailureReport = FailureReport(
    kind: ErrorKind,
    title: string,
    directory: string,
    prefix: string,
    suffix: string,
    syntaxArgs: seq<string>,
    errorOutput: string)

  /** `os.path.join(output_dir, 'failures')`. */
  function PathJoin(a: string, b: string): string {
    if StartsWith(b, "/") then b
    else if a == [] || EndsWith(a, "/") then a + b
    else a + "/" + b
  }

  /** `os.path.join(output_dir, 'failures')`: the `failures` directory inside the
      output directory, with a separator added only where one is missing. */
  function FailuresDirectory(outputDir: string): (r: string)
    ensures outputDir == [] ==> r == "failures"
    ensures EndsWith(outputDir, "/") ==> r == outputDir + "failures"
    ensures outputDir != [] && !EndsWith(outputDir, "/") ==> r == outputDir + "/failures"
  {
    assert !StartsWith("failures", "/") by { assert "failures"[0] == 'f'; }
    PathJoin(outputDir, "failures")
  }

  function ReportFailure(job: Job, exec: Exec): (r: FailureReport)
    ensures r.kind == Crash <==> exec.exitCode < 0
    ensures r.prefix == "clang_" + ErrorName(r.kind) + "_"
    ensures r.suffix == Extension(job.language)
    ensures r.syntaxArgs == [job.config.clang, "-fsyntax-only", "-E"] + job.flags + [job.file, "-o"]
    ensures r.title == (if exec.exitCode < 0 then "Crash" else "Other Error")
    ensures r.directory == FailuresDirectory(job.config.outputDir)
    ensures r.errorOutput == exec.output
  {
    CrashLabel();
    OtherErrorLabel();
    var kind := Classification(exec.exitCode);
    FailureReport(kind, Label(kind), FailuresDirectory(job.config.outputDir), "clang_" + ErrorName(kind) + "_",
                  Extension(job.language), [job.config.clang, "-fsyntax-only", "-E"] + job.flags + [job.file, "-o"],
                  exec.output)
  }

  /** The dictionary `run_analyzer` returns, and the failure report it asked for. */
  datatype Outcome = Outcome(errorOutput: string, exitCode: int, failure: Option<FailureReport>)

  /** Whether `report_failure` returns rather than raises: the failures directory
      and the temporary file are made, the syntax-only re-run exits with status
      zero, and both companion files are written. */
  predicate ReportCompletes(job: Job, report: FailureReport, tc: Toolchain) {
    && tc.saveFailure(report.directory, report.prefix, report.suffix)
    && tc.runSyntaxOnly(job.directory, report.syntaxArgs).exitCode == 0
  }

  /** `run_analyzer`: a zero status is success; any other status is the
      `CalledProcessError` branch, which reports the failure when asked to. An
      exception from the report is not caught there, so it gives `None`. */
  function RunAnalyzer(job: Job, tc: Toolchain): (r: Option<Outcome>)
    ensures var exec := tc.runAnalyzer(job.directory, AnalyzerCall(job));
      var asked := exec.exitCode != 0 && job.config.outputFailures;
      && (r.None? <==> asked && !ReportCompletes(job, ReportFailure(job, exec), tc))
      && (r.Some? ==>
            && r.value.errorOutput == exec.output
            && r.value.exitCode == exec.exitCode
            && (r.value.failure.Some? <==> asked)
            && (r.value.failure.Some? ==> r.value.failure.value == ReportFailure(job, exec)))
  {
    var exec := tc.runAnalyzer(job.directory, AnalyzerCall(job));
    if exec.exitCode == 0 then Some(Outcome(exec.output, 0, None))
    else if !job.config.outputFailures then Some(Outcome(exec.output, exec.exitCode, None))
    else
      var report := ReportFailure(job, exec);
      if ReportCompletes(job, report, tc) then Some(Outcome(exec.output, exec.exitCode, Some(report)))
      else None
  }

  /** `command if isinstance(command, list) else decode(command)`. */
  function CommandArgs(command: Command, tc: Toolchain): Option<seq<string>> {
    match command
    case Argv(args) => Some(args)
    case Shell(line) => tc.decode(line)
  }

  /** The job as `run` hands it to `exclude`; `None` where `classify_parameters`
      raises. */
  function Classified(entry: Entry, config: Config, tc: Toolchain): Option<Job> {
    match CommandArgs(entry.command, tc)
    case None => None
    case Some(args) =>
    match ClassifySpec(args, tc)
    case None => None
    case Some(c) => Some(Job(entry.directory, entry.file, config, c.flags, c.archList, c.language, c.compiler))
  }

  /** The job as it reaches `run_analyzer`, after every stage up to
      `filter_debug_flags`. */
  function Prepared(entry: Entry, config: Config, cwd: string, tc: Toolchain): Verdict<Job>
    requires StartsWith(cwd, "/")
  {
    match Classified(entry, config, tc)
    case None => Raise
    case Some(job) =>
      match Exclude(job, cwd)
      case Skip => Skip
      case Raise => Raise
      case Continue(j1) =>
        match ArchCheck(j1)
        case Skip => Skip
        case Raise => Raise
        case Continue(j2) =>
          match LanguageCheck(j2, tc)
          case Skip => Skip
          case Raise => Raise
          case Continue(j3) => Continue(FilterDebugFlags(j3))
  }

  /** `run(opts)`: the analyzer's result, or `None` when a stage stopped or raised,
      or when writing the failure report raised (the catch-all turns an exception
      into `None`). */
  function Run(entry: Entry, config: Config, cwd: string, tc: Toolchain): (r: Option<Outcome>)
    requires StartsWith(cwd, "/")
    ensures r.Some? ==> Prepared(entry, config, cwd, tc).Continue?
    ensures Prepared(entry, config, cwd, tc).Continue? ==> r == RunAnalyzer(Prepared(entry, config, cwd, tc).next, tc)
  {
    match Prepared(entry, config, cwd, tc)
    case Continue(job) => RunAnalyzer(job, tc)
    case _ => None
  }

  /** `-arch a` for the last enabled architecture, or nothing when none was
      given. */
  ghost predicate ArchPart(archList: seq<string>, part: seq<string>) {
    if archList == [] then part == []
    else exists k :: (0 <= k < |archList| && !Disabled(archList[k]) &&
      (forall l :: k < l < |archList| ==> Disabled(archList[l])) && part == ["-arch", archList[k]])
  }

  /** The flags that reach the analyzer are, in order: `-x language`, then
      `-arch a` when any `-arch` was given, then the flags `classify_parameters`
      kept, then `-UNDEBUG` with `force_debug`; the language is an accepted one. */
  lemma PreparedFlags(entry: Entry, config: Config, cwd: string, tc: Toolchain)
    requires StartsWith(cwd, "/")
    requires Prepared(entry, config, cwd, tc).Continue?
    ensures Classified(entry, config, tc).Some?
    ensures var job := Classified(entry, config, tc).value;
      var ready := Prepared(entry, config, cwd, tc).next;
      && ready.language.Some? && Accepted(ready.language.value)
      && (exists arch :: ArchPart(job.archList, arch) &&
           ready.flags == ["-x", ready.language.value] + arch + job.flags
                          + (if config.forceDebug then ["-UNDEBUG"] else []))
      && ready.file == entry.file && ready.directory == entry.directory && ready.config == config
  {
    PreparedSteps(entry, config, cwd, tc);
    var job := Classified(entry, config, tc).value;
    var arch := ArchCheckPart(job);
    var j2 := ArchCheck(job).next;
    var l := ResolvedLanguage(j2, tc).value;
    var j3 := LanguageCheck(j2, tc).next;
    assert j3 == j2.(language := Some(l), flags := ["-x", l] + j2.flags);
    var debug := if config.forceDebug then ["-UNDEBUG"] else [];
    assert FilterDebugFlags(j3).flags == j3.flags + debug;
    FlagsInOrder(l, arch, job.flags, debug);
  }

  /** The whole analyzer command of a job that gets that far: clang and `--analyze`,
      the `direct_args`, `-x language`, the `-arch` pair if any, the kept flags,
      `-UNDEBUG` with `force_debug`, then the file and `-o` before the target the
      output format chooses. */
  lemma PreparedCommand(entry: Entry, config: Config, cwd: string, tc: Toolchain)
    requires StartsWith(cwd, "/")
    requires Prepared(entry, config, cwd, tc).Continue?
    ensures Classified(entry, config, tc).Some?
    ensures var job := Classified(entry, config, tc).value;
      var ready := Prepared(entry, config, cwd, tc).next;
      var call := AnalyzerCall(ready);
      && ready.language.Some? && Accepted(ready.language.value)
      && (exists arch :: ArchPart(job.archList, arch) &&
           call.args == [config.clang, "--analyze"] + config.directArgs
                        + (["-x", ready.language.value] + arch + job.flags
                           + (if config.forceDebug then ["-UNDEBUG"] else []))
                        + [entry.file, "-o"])
      && call.target == ReportTarget(config)
  {
    PreparedFlags(entry, config, cwd, tc);
    var job := Classified(entry, config, tc).value;
    var ready := Prepared(entry, config, cwd, tc).next;
    var debug := if config.forceDebug then ["-UNDEBUG"] else [];
    var arch :| ArchPart(job.archList, arch) &&
      ready.flags == ["-x", ready.language.value] + arch + job.flags + debug;
    assert AnalyzerCall(ready).args == [config.clang, "--analyze"] + config.directArgs + ready.flags + [entry.file, "-o"];
  }

  lemma FlagsInOrder(l: string, arch: seq<string>, flags: seq<string>, debug: seq<string>)
    ensures ["-x", l] + (arch + flags) + debug == ["-x", l] + arch + flags + debug
  {
  }

  /** The stages a job that reaches the analyzer went through. */
  lemma PreparedSteps(entry: Entry, config: Config, cwd: string, tc: Toolchain)
    requires StartsWith(cwd, "/")
    requires Prepared(entry, config, cwd, tc).Continue?
    ensures Classified(entry, config, tc).Some?
    ensures var job := Classified(entry, config, tc).value;
      && job.file == entry.file && job.directory == entry.directory && job.config == config
      && ArchCheck(job).Continue? && LanguageCheck(ArchCheck(job).next, tc).Continue?
      && Prepared(entry, config, cwd, tc).next == FilterDebugFlags(LanguageCheck(ArchCheck(job).next, tc).next)
  {
    var job := Classified(entry, config, tc).value;
    assert Exclude(job, cwd) == Continue(job);
  }

  /** What `arch_check` put in front of the flags. */
  lemma ArchCheckPart(job: Job) returns (arch: seq<string>)
    requires ArchCheck(job).Continue?
    ensures ArchPart(job.archList, arch)
    ensures ArchCheck(job).next == job.(flags := arch + job.flags)
  {
    if job.archList == [] {
      arch := [];
      assert arch + job.flags == job.flags;
    } else {
      var k :| 0 <= k < |job.archList| && !Disabled(job.archList[k]) &&
        (forall l :: k < l < |job.archList| ==> Disabled(job.archList[l])) &&
        ArchCheck(job).next == job.(flags := ["-arch", job.archList[k]] + job.flags);
      arch := ["-arch", job.archList[k]];
    }
  }

  /** A file inside an excluded directory is never analyzed. */
  lemma ExcludedNeverAnalyzed(entry: Entry, config: Config, cwd: string, tc: Toolchain, k: nat)
    requires StartsWith(cwd, "/")
    requires k < |config.excludes| && entry.file != ""
    requires IsPrefix(Components(cwd, config.excludes[k]), Components(cwd, entry.file))
    ensures Run(entry, config, cwd, tc) == None
  {
    if Classified(entry, config, tc).Some? {
      assert Exclude(Classified(entry, config, tc).value, cwd).Skip?;
    }
  }

  /** A job that every stage lets through still gives `None` exactly when the
      analysis failed, failure reports were asked for, and writing the report
      raised; in particular when the syntax-only re-run fails as well. */
  lemma RunAbandoned(entry: Entry, config: Config, cwd: string, tc: Toolchain)
    requires StartsWith(cwd, "/")
    requires Prepared(entry, config, cwd, tc).Continue?
    ensures var job := Prepared(entry, config, cwd, tc).next;
      var exec := tc.runAnalyzer(entry.directory, AnalyzerCall(job));
      var report := ReportFailure(job, exec);
      && (Run(entry, config, cwd, tc).None? <==>
            exec.exitCode != 0 && config.outputFailures && !ReportCompletes(job, report, tc))
      && ((exec.exitCode != 0 && config.outputFailures
           && tc.runSyntaxOnly(entry.directory, report.syntaxArgs).exitCode != 0)
          ==> Run(entry, config, cwd, tc).None?)
  {
    PreparedFlags(entry, config, cwd, tc);
  }

  /** A failed analysis is reported exactly when failures are asked for, and it is
      a crash exactly when the analyzer was killed by a signal; the report carries
      the matching title, goes under `failures` in the output directory and keeps
      the analyzer's output. */
  lemma FailureReported(entry: Entry, config: Config, cwd: string, tc: Toolchain)
    requires StartsWith(cwd, "/")
    requires Run(entry, config, cwd, tc).Some?
    ensures var o := Run(entry, config, cwd, tc).value;
      && (o.failure.Some? <==> o.exitCode != 0 && config.outputFailures)
      && (o.failure.Some? ==> (o.failure.value.kind == Crash <==> o.exitCode < 0))
      && (o.failure.Some? ==> o.failure.value.title == (if o.exitCode < 0 then "Crash" else "Other Error"))
      && (o.failure.Some? ==> o.failure.value.directory == FailuresDirectory(config.outputDir))
      && (o.failure.Some? ==> o.failure.value.errorOutput == o.errorOutput)
  {
    PreparedFlags(entry, config, cwd, tc);
  }
}
