/** The collaborators of the decision chain that are not part of this model, as the
    answers they give: `split_compiler`, `classify_source` and `decode` from the
    compilation and shell helpers, running the analyzer (`get_arguments` followed
    by `run_command`), and the steps of writing a failure report. Each is a function
    field of `Toolchain`, so every property proved below holds whatever those
    helpers answer; a helper that can raise answers `None`, `false` or a non-zero
    status where it raises. */
module Collaborators {
  import opened Wrappers

  /** `'c'` or `'c++'`, the compiler kind `split_compiler` reports. */
  datatype Compiler = C | Cxx

  /** Where the analyzer is told to write (`-o`): a fresh `report-*.plist` file made
      in the output directory, or the output directory itself. */
  datatype Target = FreshPlist(dir: string) | OutputDir(dir: string)

  /** The analyzer command as assembled: every argument before the target, then the
      target. */
  datatype AnalyzerCommand = AnalyzerCommand(args: seq<string>, target: Target)

  /** What running a command produced: its output and exit status (negative when the
      process was killed by a signal). */
  datatype Exec = Exec(output: string, exitCode: int)

  datatype Toolchain = Toolchain(
    /** `split_compiler(command)`: the compiler kind and the remaining arguments. */
    splitCompiler: seq<string> -> Option<(Option<Compiler>, seq<string>)>,
    /** `classify_source(filename, c_compiler)`: the language a file name implies. */
    classifySource: (string, bool) -> Option<string>,
    /** `decode(command)`: a shell-escaped command string split into arguments;
        `None` where the split raises (an unbalanced quote). */
    decode: string -> Option<seq<string>>,
    /** Running the analyzer command in the given directory; a non-zero status is
        the `CalledProcessError` that `run_command` raises. */
    runAnalyzer: (string, AnalyzerCommand) -> Exec,
    /** Running the syntax-only command of a failure report in the given directory
        (`get_arguments` and `run_command`, the temporary file name left out); a
        non-zero status is the `CalledProcessError` that `run_command` raises. */
    runSyntaxOnly: (string, seq<string>) -> Exec,
    /** Whether the file-system steps of a failure report in the given directory,
        with the given file name prefix and suffix, complete: making the failures
        directory, creating the temporary file and writing the `.info.txt` and
        `.stderr.txt` files; `false` where one of them raises. */
    saveFailure: (string, string, string) -> bool)
}
