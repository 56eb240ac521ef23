# scan-build: analyzer decision chain and report aggregation

This project models two pieces of scan-build, the Python driver for the Clang static
analyzer.

**The per-entry decision chain of `libscanbuild/analyze.py`.**
- `classify_parameters` walks a compiler command once, driven by the `IGNORED_FLAGS`
  table. It sorts the command into:
  - kept flags;
  - `-arch` values;
  - the `-x` language;
  - the compiler kind.
- The job then passes through `exclude`, `arch_check`, `language_check` and
  `filter_debug_flags`. Each stage may stop it.
- `run_analyzer` assembles the analyzer command and its output target. A failed run
  is handed to `report_failure`, which names the failure.
- Helpers: `prefix_with` and `direct_args` build the `-Xclang` arguments, and
  `need_analyzer` recognises configure steps.

**The report generator of `analyzer/report.py`.**
- `scan_bug` reads the metadata comments of an HTML report up to the end marker.
- `scan_crash` reads a failure record.
- `bug_fragment` deduplicates the bugs by `hash_bug` and tallies them by category and
  type with `update_counters`.
- `summary_fragment` turns the tally into summary rows, and `crash_fragment` lists
  every failure.
- `generate_report` adds up the counts, writes the page when there is something to
  show, and removes the fragment files.
- `reindent` turns the `|`-margined templates into indented HTML.

Modules (one file each):
- `Wrappers` — Option.
- `Text` — Python's `str` built-ins: strip, lower, replace, split/join, `splitlines`,
  `readlines`, `str(int)`, `int(str)`.
- `Html` — `cgi.escape`.
- `Paths` — `abspath`/`normpath`/`relpath`.
- `Collaborators` — the foreign helpers, as function-typed parameters.
- `Classify`, `AnalyzerArgs` and `Chain` — the analyze.py side.
- `ReportScan`, `Tally`, `ReportBugs` and `Report` — the report.py side.

Where the source raises, the model returns `None`:
- a dangling `-arch`, `-x` or ignored option;
- `int()` on text that is not a number;
- a report without a file name, or a new key without a bug type;
- a failure record with fewer than two lines, or with no `.info.txt` in its name;
- a command string `decode` cannot split;
- a failure report whose syntax-only re-run fails or whose files cannot be made or
  written (`run` catches the exception);
- a template line without `|`;
- removing a file that is not there.

The source's loops are methods, each proved equal to a specification function. The
properties are proved about those functions.

## Model

| member | source | states |
|---|---|---|
| AnalyzerArgs.PrefixWith | libscanbuild/analyze.py:105-111 | the interleaved list is exactly twice as long as the pieces |
| AnalyzerArgs.PrefixWithIndex | libscanbuild/analyze.py:105-111 | every even position holds the constant and position 2k+1 holds piece k |
| AnalyzerArgs.OddsPrefixWith | libscanbuild/analyze.py:105-111 | taking every second element gives the pieces back, so interleaving loses nothing |
| AnalyzerArgs.PrefixWithAppend | libscanbuild/analyze.py:105-111 | interleaving distributes over concatenation, as building the list with `extend` requires |
| AnalyzerArgs.DirectArgs | libscanbuild/analyze.py:113-149 | twice as many arguments as selected flags; every even position is `-Xclang` and the odd positions are exactly the selected flags, in the order the source tests the options |
| AnalyzerArgs.OptionsPassed | libscanbuild/analyze.py:119-147 | every option asked for is passed on: each switch, the store, constraints and output arguments, the configuration string and every plugin appear, and `UBIVIZ` puts its switch last |
| AnalyzerArgs.LoopBoundPassed | libscanbuild/analyze.py:131-132 | a non-zero loop bound is passed as `-analyzer-max-loop` directly followed by its decimal text |
| AnalyzerArgs.NoOptionsNoArgs | libscanbuild/analyze.py:117-149 | with no option given and `UBIVIZ` unset, nothing is passed to the analyzer |
| AnalyzerArgs.EnabledCheckers | libscanbuild/analyze.py:140-142 | with checkers enabled and none disabled, the last two arguments are `-analyzer-checker` and one comma-joined word that splits back into the checker names |
| AnalyzerArgs.NeedAnalyzer | libscanbuild/analyze.py:96 | the analyzer is needed iff the command is non-empty and its first word contains neither `configure` nor `autogen` anywhere |
| AnalyzerArgs.ConfigureNotAnalyzed | libscanbuild/analyze.py:96 | a command whose program path contains `./configure` is never analyzed, whatever its arguments |
| Classify.NextToken | libscanbuild/analyze.py:497-518 | a step that succeeds is the one the chain of tests picks for the argument, and it consumes a prefix of the remaining arguments |
| Classify.SkipValues | libscanbuild/analyze.py:509-511 | skipping `count` values succeeds iff that many remain, and it lands exactly `count` places further |
| Classify.ReadArgument | libscanbuild/analyze.py:497-518 | one round of the loop fails iff `next(args)` would run out; otherwise it yields the step for that argument and the position after everything it consumed |
| Classify.ClassifyArguments | libscanbuild/analyze.py:496-520 | the loop's flags, `-arch` list and language are those of the complete walk over the arguments, or `None` where a `next` raised |
| Classify.ClassifyParameters | libscanbuild/analyze.py:480-520 | the dictionary returned is the walk over the arguments after the compiler, with the compiler kind, and `None` where the walk raises |
| Classify.TokenizeSound | libscanbuild/analyze.py:496-518 | every argument is consumed exactly once and in order (the steps flatten back to the arguments), and every step is the one the chain of tests picks |
| Classify.FlagsAreSubsequence | libscanbuild/analyze.py:505-518 | the kept flags are an order-preserving subsequence of the arguments |
| Classify.FlagsEmbedding | libscanbuild/analyze.py:516-518 | the positions at which the kept flags occur in the consumed arguments, strictly increasing |
| Classify.FlagsAreOrdinary | libscanbuild/analyze.py:499-518 | no kept flag is `-arch`, `-x`, an `IGNORED_FLAGS` key, a dropped `-W` warning or a source file |
| Classify.TokenizeAppend | libscanbuild/analyze.py:496-511 | a walk that completes never consumes from what follows, so the walk of `a + b` is the walk of `a` followed by that of `b` |
| Classify.ClassifyConcatenation | libscanbuild/analyze.py:497-518 | over two runs of arguments, the flags and `-arch` values concatenate and the last `-x` wins |
| Classify.DanglingSwitch | libscanbuild/analyze.py:499-511 | a trailing `-arch`, `-x` or value-taking ignored option makes the walk fail |
| Classify.IgnoredFlagsAreOptions | libscanbuild/analyze.py:458-477 | every `IGNORED_FLAGS` key starts with `-` and has a name after it |
| Classify.IgnoredFlagsEntries | libscanbuild/analyze.py:459-463 | `-c` and `-g` take no value and `-o` takes one |
| Classify.CompileLineKeepsNoFlags | libscanbuild/analyze.py:505-511 | `-c -g -o out.o foo.c`, with `foo.c` a source, is three ignored options (the last with its value) and a source, and keeps no flag |
| Classify.CompileLineTokens | libscanbuild/analyze.py:505-511 | the same walk for any table that gives `-c`, `-g` and `-o` those value counts |
| Chain.AnyContains | libscanbuild/analyze.py:441-447 | the `any` raises iff there is an excluded directory and the file name is empty; otherwise it is true iff some directory is a component-wise prefix of the file |
| Chain.Exclude | libscanbuild/analyze.py:436-451 | the job is skipped iff the file lies inside an excluded directory, raises only for an empty file name, and otherwise continues unchanged |
| Chain.Enabled | libscanbuild/analyze.py:412-417 | the filtered list holds no `ppc`/`ppc64`, and it is empty iff every given architecture is disabled |
| Chain.LastEnabledAt | libscanbuild/analyze.py:417-423 | the architecture `pop` takes is an element of the list followed only by disabled ones |
| Chain.ArchCheck | libscanbuild/analyze.py:408-433 | never raises; skips iff the list is non-empty and all disabled; no list keeps the flags; otherwise exactly `-arch` and the last enabled architecture are put in front |
| Chain.ArchCheckPart | libscanbuild/analyze.py:414-433 | what `arch_check` puts in front of the flags is nothing or one `-arch` pair for the last enabled architecture |
| Chain.ResolvedLanguage | libscanbuild/analyze.py:389-393 | a given `-x` language is used as is; without one and without a compiler kind there is none |
| Chain.LanguageCheck | libscanbuild/analyze.py:378-405 | never raises; continues iff the resolved language is one of the seven accepted ones, and then prepends `-x language` |
| Chain.FilterDebugFlags | libscanbuild/analyze.py:367-375 | `-UNDEBUG` is appended at the end exactly when `force_debug` is set; nothing else changes |
| Chain.ReportTarget | libscanbuild/analyze.py:341-349 | the target is a fresh `report-*.plist` file iff the format is `plist` or `plist-html`, and it is in the output directory |
| Chain.AnalyzerCall | libscanbuild/analyze.py:351-356 | the command starts with clang and `--analyze`, then holds exactly the direct arguments followed by the job's flags, ends with the file and `-o`, and the target is the one the format chooses |
| Chain.Classification | libscanbuild/analyze.py:305-308 | a failure is a crash iff the exit status is negative |
| Chain.CrashLabel | libscanbuild/analyze.py:323 | the `crash` label is written `Crash` |
| Chain.OtherErrorLabel | libscanbuild/analyze.py:323 | the `other_error` label is written `Other Error` |
| Chain.TitleOfWord | libscanbuild/analyze.py:323 | title-casing a lower-case word capitalises only its first letter, unless a letter precedes it |
| Chain.TitleAppend | libscanbuild/analyze.py:323 | title-casing runs left to right: the second part depends only on whether the first ends in a letter |
| Chain.Extension | libscanbuild/analyze.py:291-295 | `.mii`, `.mi` and `.ii` for exactly objective-c++, objective-c and c++, and `.i` for everything else, an unknown language included |
| Chain.FailuresDirectory | libscanbuild/analyze.py:297-303 | the `failures` directory sits inside the output directory: a separator is added only when the output directory is non-empty and does not end in one |
| Chain.ReportFailure | libscanbuild/analyze.py:284-323 | a crash iff the status is negative, titled `Crash` then and `Other Error` otherwise; written under the `failures` directory of the output directory; the file name prefix is `clang_<kind>_`; the suffix follows the language; the syntax-only command repeats the flags and the file; the analyzer's output is kept |
| Chain.RunAnalyzer | libscanbuild/analyze.py:284-364 | raises (`None`) iff the analysis failed, failure reports were asked for and writing the report raised (its files, or a syntax-only re-run with a non-zero status); otherwise returns the analyzer's output and status, and a failure is reported iff the status is not zero and failure reports were asked for |
| Chain.Run | libscanbuild/analyze.py:257-279 | a result only for a job every stage lets through, and for such a job exactly what `run_analyzer` gives, so an exception from the failure report becomes `None` |
| Chain.RunAbandoned | libscanbuild/analyze.py:297-315 | for a job every stage lets through, `run` gives `None` iff the analysis failed, reports were asked for and the report raised; a failing syntax-only re-run is one such case |
| Chain.PreparedSteps | libscanbuild/analyze.py:270-276 | a job that reaches the analyzer went through `exclude`, `arch_check`, `language_check` and `filter_debug_flags`, keeping its file, directory and configuration |
| Chain.PreparedCommand | libscanbuild/analyze.py:257-279 | the analyzer command of a job that gets that far is clang, `--analyze`, the direct arguments, `-x language` (an accepted one), the `-arch` pair if any, the kept flags, `-UNDEBUG` with `force_debug`, the file and `-o`, with the target the format chooses |
| Chain.PreparedFlags | libscanbuild/analyze.py:367-433 | the flags reaching the analyzer are `-x language` (an accepted one), then the `-arch` pair if any, then the kept flags, then `-UNDEBUG` with `force_debug` |
| Chain.ExcludedNeverAnalyzed | libscanbuild/analyze.py:441-451 | a file inside an excluded directory is never analyzed |
| Chain.FailureReported | libscanbuild/analyze.py:359-364 | after a run, a failure is reported iff the status is not zero and reports were asked for; it is a crash iff the status is negative and then titled `Crash`, otherwise `Other Error`; it goes to the `failures` directory of the output directory and keeps the analyzer's output |
| Paths.Resolve | libscanbuild/analyze.py:444 | normalising keeps only proper components: no empty, `.`, `..` or slash-containing ones |
| Paths.Components | libscanbuild/analyze.py:444 | the components of an absolute, normalised path are all proper |
| Paths.CommonPrefixLength | libscanbuild/analyze.py:444 | the result is the length of the longest common prefix: the lists agree up to it and differ right after |
| Paths.ContainsIffPrefix | libscanbuild/analyze.py:441-445 | `contains` is true iff the directory's components are a prefix of the file's |
| Paths.RelFirst | libscanbuild/analyze.py:444-445 | the relative path starts with `..` iff the directory has components beyond the common prefix |
| Paths.PrefixIffCommon | libscanbuild/analyze.py:444-445 | one list is a prefix of another iff their common prefix is the whole of it |
| Html.Escape | analyzer/report.py:91-93 | the four successive replacements amount to escaping each character on its own |
| Html.EscapeEach | analyzer/report.py:91-93 | no `<` or `>` is left, and no double quote when quotes are escaped |
| Html.UnescapeEscape | analyzer/report.py:91-93 | escaping loses nothing: reading the entities back gives the original text |
| Html.EscapeInjective | analyzer/report.py:91-93 | two texts escape alike iff they are equal |
| ReportScan.MatchTag | analyzer/report.py:63-70 | a match means the stripped line is exactly `<!-- TAG value -->`, with a value that holds no newline |
| ReportScan.MatchTagComment | analyzer/report.py:63-70 | every comment of that shape is recognised and gives its value back whole |
| ReportScan.BeforeEnd | analyzer/report.py:75-78 | the lines read are a prefix of the file, hold no end marker, and stop exactly at the first one |
| ReportScan.MatchLine | analyzer/report.py:80-83 | the inner loop applies every pattern to the stripped line in order, each match updating its field |
| ReportScan.ReadMeta | analyzer/report.py:73-83 | the loop's `bug_info` is what reading the lines before the first end marker collects |
| ReportScan.CollectedIsLastMatch | analyzer/report.py:75-83 | each field holds the value of the last line that matched its tag, so a later occurrence overwrites an earlier one |
| ReportScan.MetaStopsAtEnd | analyzer/report.py:75-78 | nothing after the first end marker is read |
| ReportScan.MetaTwice | analyzer/report.py:73-83 | reading the same lines twice over yields the same record |
| ReportScan.Smash | analyzer/report.py:54-55 | the result holds no space and no apostrophe |
| ReportScan.SmashIsPerChar | analyzer/report.py:54-55 | lower-casing, replacing spaces and deleting apostrophes amount to one mapping per character |
| ReportScan.ClassName | analyzer/report.py:53-56 | the class name is `bt_`, the smashed category, `_` and the smashed type; it holds no space or apostrophe |
| ReportScan.BugOf | analyzer/report.py:85-93 | fails iff a present path length or line is not an integer; otherwise it applies the defaults, keeps the path, and escapes only category, type and class (the class with quotes), computed from the unescaped values |
| ReportScan.ScanBug | analyzer/report.py:51-95 | the record is the one built from the metadata read before the end marker |
| ReportScan.Defaults | analyzer/report.py:86-93 | without metadata: category `Other`, path length 1, line 0, class `bt_other_`, and the report's path |
| ReportScan.MemoryErrorLeakClass | analyzer/report.py:53-56 | `Memory Error`/`Leak` gives the class `bt_memory_error_leak` |
| ReportScan.MemoryLeakRecord | analyzer/report.py:85-93 | a full set of metadata gives the record with those values, the defaults unused, and class `bt_memory_error_leak` |
| ReportScan.InfoBase | analyzer/report.py:101-102 | the base is the longest start of the name followed by `.info.txt` that stays on the first line; no match when there is none |
| ReportScan.InfoBaseStripsSuffix | analyzer/report.py:101-102 | a one-line name ending in `.info.txt` loses exactly that ending |
| ReportScan.ScanCrash | analyzer/report.py:99-108 | fails iff the name does not match or the file has fewer than two lines; otherwise the fields are the HTML escapes of the first two lines right-stripped, the base, and the base plus `.stderr.txt` (quotes escaped in the last two), so none holds `<` or `>` and each unescapes back to its text |
| ReportScan.CrashCompanions | analyzer/report.py:101-108 | for `base.info.txt`, the preprocessed output is `base` and the error output `base.stderr.txt` |
| Tally.IndexOf | analyzer/report.py:177-179 | there is no position iff the key is absent |
| Tally.TotalUpdate | analyzer/report.py:175-185 | each call of `update_counters` adds exactly one to the sum of all counts |
| Tally.EntryUpdate | analyzer/report.py:175-185 | the bug's entry gains one, or is created with count 1 and the bug's class; every other entry is unchanged |
| Tally.BumpEntry | analyzer/report.py:179-184 | within one category, the type's entry gains one or is created with count 1 and the class, the others unchanged |
| Tally.UpdateNames | analyzer/report.py:176-185 | a new category goes last, and an existing one keeps its place |
| Tally.TypesUnderUpdate | analyzer/report.py:177-184 | a new type goes last under its category, and nothing else changes |
| ReportBugs.HashBugIdentifies | analyzer/report.py:170-173 | two reports get the same key iff they agree on line, path length and file |
| ReportBugs.Distinct | analyzer/report.py:258 | the same elements, each once |
| ReportBugs.DistinctFirstSeen | analyzer/report.py:258-263 | the elements come in the order of their first occurrence |
| ReportBugs.FirstOfEachSpec | analyzer/report.py:209-213 | the table holds one report per key, every key of the input, and only reports of the input |
| ReportBugs.KeySetUnordered | analyzer/report.py:209-213 | the keys, and so the number of distinct bugs, do not depend on the order in which reports arrive |
| ReportBugs.TalliedStep | analyzer/report.py:175-185 | adding a new row and counting it keeps the counters in agreement with the rows of the bug table |
| ReportBugs.AggregateSpec | analyzer/report.py:209-226 | the loop fails iff some report has no file or brings a new key without a type; otherwise `uniques` is every key, the rows are the first report of each key, and the counters agree with the rows (first-seen order, counts, classes, total) |
| ReportBugs.DuplicateIgnored | analyzer/report.py:210-213 | a report whose key was seen already changes nothing |
| ReportBugs.BugFragment | analyzer/report.py:209-222 | the loop's `uniques`, counters and rows are those of the specification, and it fails where that does |
| ReportBugs.TypeRowsSum | analyzer/report.py:263-274 | the type rows of one category show as much as its counts add up to |
| ReportBugs.CategoryRowsSum | analyzer/report.py:258-274 | the type rows of every category show the total of all counts |
| ReportBugs.SummaryAgrees | analyzer/report.py:247-279 | the `All Bugs` row shows the number of table rows, the type rows add up to the number of distinct bugs, and the categories appear in the order their first bug arrived |
| ReportBugs.SummaryFragment | analyzer/report.py:232-279 | the loop writes the `All Bugs` row, then each category's header followed by a row per type, in dictionary order |
| Report.Spaces | analyzer/report.py:341 | `' ' * n`: n spaces, none for n ≤ 0 |
| Report.Reindent | analyzer/report.py:337-342 | the loop's result is the lines' contributions in order, or `None` where a line has no `|` |
| Report.ReindentStuck | analyzer/report.py:339-341 | once a line has raised, the later lines do not matter |
| Report.ReindentLinesAppend | analyzer/report.py:339-341 | reindenting two runs of lines gives the first run's text followed by the second's |
| Report.BlankLineDropped | analyzer/report.py:340 | a blank line contributes nothing wherever it stands |
| Report.BarLine | analyzer/report.py:341 | a line `margin|text` comes out as the indentation, `text` and the line separator |
| Report.BarsReindented | analyzer/report.py:339-341 | template lines come out as their texts, each indented and ended by the separator, in order |
| Report.TemplateReindented | analyzer/report.py:140-164 | a template (a newline, then `margin|text` lines) comes out as its texts, each indented and ended by the separator, in order |
| Report.CrashFragment | analyzer/report.py:153-161 | one row per failure record, in order, and the count is the number of records: no deduplication |
| Report.ScanAll | analyzer/report.py:30-40 | scanning succeeds iff every file scans, and gives each file's result in order |
| Report.Remove | analyzer/report.py:123-124 | removing succeeds iff the file is there, and removes only it |
| Report.BugFragmentAsWritten | analyzer/report.py:226-228 | as written, the bug fragment is gone from disk when `bug_fragment` returns, even when it is the fragment returned |
| Report.BugFragmentStage | analyzer/report.py:226-228 | as intended, the fragment returned is still on disk for its caller to remove |
| Report.NoBugsRaises | analyzer/report.py:30-34 | as written, a run without any bug report raises when leaving the `with` of `bug_fragment` |
| Report.EmptyRunDiffers | analyzer/report.py:24-47 | with nothing to report, the run as written raises, while the intended run returns 0, writes no page and leaves no fragment |
| Report.AsWrittenWithBugs | analyzer/report.py:226-228 | when some bug is unique, the run as written and the intended run agree |
| Report.Written | analyzer/report.py:187-236 | the fragments written are the bug and crash fragments, and the summary exactly when some bug is unique |
| Report.StageSpec | analyzer/report.py:187-228 | `bug_fragment` returns the number of distinct bugs, its fragment is on disk, and removing it with the crash fragment leaves only what was there before |
| Report.FinishSpec | analyzer/report.py:35-47 | succeeds iff every failure record scans; the count adds the failures; a page is written iff the count is not zero, with the failures, the bug rows and the summary |
| Report.GenerateReportSteps | analyzer/report.py:30-47 | the report is the bug stage on the scanned reports, then the crash stage |
| Report.GenerateReportSucceeds | analyzer/report.py:24-47 | the run succeeds iff every file scans and no report fails the bug stage |
| Report.GenerateReportOutcome | analyzer/report.py:24-47 | returns the number of distinct bugs plus the number of failures; writes a page iff that is not zero, with the first report of each bug and every failure; removes every fragment it wrote and nothing else |
| Report.PageSummary | analyzer/report.py:41-43 | with some bug, the page's summary counts every distinct bug once, in the `All Bugs` row and across the type rows, and lists the categories in order of first report |
| Text.RStrip | analyzer/report.py:105-106 | the longest prefix that does not end in whitespace |
| Text.Reverse | analyzer/report.py:173 | the characters in reverse order |
| Text.ReverseInjective | analyzer/report.py:173 | two names reverse alike iff they are equal |
| Text.IntToStringRoundTrip | analyzer/report.py:87-88 | `int(str(n)) == n` for every integer |
| Text.IntToStringInjective | analyzer/report.py:171-172 | two integers print alike iff they are equal |
| Text.SplitJoin | libscanbuild/analyze.py:141-142 | joining comma-free names with commas and splitting the result gives the names back |
| Text.SplitLinesJoin | analyzer/report.py:339 | lines joined by newlines split back into those lines |

## Left out

- Process pools: `imap_unordered` is modelled as the files in the order given. `ReportBugs.KeySetUnordered` shows that the count does not depend on that order. The row order and the first-seen order of categories and types do depend on it, as in the source.
- Foreign helpers are parameters of `Collaborators.Toolchain`, because their code is not part of this model:
  - `split_compiler`;
  - `classify_source`;
  - `decode`;
  - `get_arguments` together with `run_command`, for the analyzer run and for the syntax-only re-run of a failure report (each gives output and exit status; a non-zero status is the exception `run_command` raises);
  - the file-system steps of a failure report (`os.makedirs`, `tempfile.mkstemp` and the two writes), as one answer: whether they all complete.
- `get_version` and `platform.uname`: these are clang and host queries. `Chain.ReportFailure` models the name parts, the command and the title, not the contents of the `.info.txt` and `.stderr.txt` files.
- `tempfile.mkstemp` names: `Chain.ReportTarget` only distinguishes a fresh `.plist` in the output directory from the directory itself, and the temporary name is left out of the syntax-only command.
- `Chain.RunAnalyzer`: the `mkstemp` that makes the `.plist` target is assumed not to raise, so a failure there, which the source does not catch before `run`'s catch-all, is not modelled as `None`. `get_version` and `platform.uname` inside the failure report are likewise assumed not to raise.
- The `UBIVIZ` environment variable is a boolean parameter of `AnalyzerArgs.DirectArgs`, and `os.linesep` is a parameter of `Report.Reindent`.
- The rest of `analyze_parameters`, `run_analyzer_against_cdb`, `setup_environment` and the entry points: this is plumbing around the modelled core.
- The `require` decorator: its runtime key checks are replaced by the typed `Chain.Job` record.
- The `trace` decorator: analyzer/decorators.py is not part of this model. The finding below assumes it lets exceptions through.
- Logging.
- Python 3.7 is assumed: it is the last version with `cgi.escape`, which `analyzer/report.py` imports, and from 3.7 on dictionaries keep insertion order. `ReportBugs.DistinctFirstSeen`, `ReportBugs.SummaryAgrees` and `Tally.UpdateNames` state the first-seen order that `counters.items()` and `types.values()` give. On Python 2 that order is arbitrary.
- `assembly_report`: the HTML head, title default, user, host, date and clang version are ambient host data. `Report.Page` records which fragments go into the page and what they hold.
- `copy_resource_files` is left out.
- `Report.FinishSpec`, `Report.GenerateReportSucceeds`: `assembly_report` and `copy_resource_files` are assumed not to raise, so their "succeeds exactly when" does not cover `get_clang_version`, `getpass`, `socket`, opening `index.html` or the three `shutil.copy` calls failing when the count is positive.
- The fragments are structured rows (`Crash`, `Bug`, `SummaryRow`), not formatted HTML. The `str.format` substitution into the templates is not modelled. The reindenting of the templates is stated on its own by `Report.TemplateReindented`.
- `ReportFragment.write`, which copies a fragment's text, is not modelled.
- The filesystem is reduced to the set of fragment files present. Unreadable files and `glob` matching are not modelled; the files found are inputs.
- `Text.ReadLines`: universal-newline translation of `\r` and `\r\n` when a file is opened is not modelled. The text is taken with `\n` line ends.
- `Text.Lower` and `Chain.TitleFrom`: ASCII letters only. Other letters are left as they are.
- `Text.ParseInt`: `int()` is modelled without underscores between digits and without non-ASCII digits.
- `Paths.Components`: POSIX paths only, with the working directory as a parameter.
- `AnalyzerArgs.NeedAnalyzer`: `re.search('configure|autogen', …)` is modelled as a substring test, which is what that pattern means.

## Findings

| source | as written | input that shows it | evidently intended | confidence | as-written member | corrected member |
|---|---|---|---|---|---|---|
| analyzer/report.py:226-228 | When no bug is unique, `bug_fragment` returns the bug fragment from inside its own `with ReportFragment(...)`. That `with` removes the fragment's file on the way out. `generate_report`'s `with bug_fragment(...)` (lines 30-34) then removes the same file again, and `os.remove` raises `FileNotFoundError`. | a run with no bug report at all, e.g. no HTML report and no failure record | the run returns 0, writes no page and leaves no fragment file behind | medium (depends on `trace` not swallowing the exception), not executed | Report.GenerateReportAsWritten (shown by Report.NoBugsRaises and Report.EmptyRunDiffers) | Report.GenerateReport (proved by Report.GenerateReportSucceeds and Report.GenerateReportOutcome) |
