/** The analyzer's own command-line arguments (`prefix_with`, `direct_args`) and the
    check whether a build command needs the analyzer at all (`need_analyzer`). */
module AnalyzerArgs {
  import opened Wrappers
  import opened Text

  /** `[elem for piece in pieces for elem in [constant, piece]]`. */
  function PrefixWith(constant: string, pieces: seq<string>): (r: seq<string>)
    ensures |r| == 2 * |pieces|
  {
    if pieces == [] then [] else [constant, pieces[0]] + PrefixWith(constant, pieces[1..])
  }

  /** The even positions hold the constant and the odd ones the pieces, in order. */
  lemma {:induction false} PrefixWithIndex(constant: string, pieces: seq<string>)
    ensures forall k :: 0 <= k < |pieces| ==>
      PrefixWith(constant, pieces)[2 * k] == constant && PrefixWith(constant, pieces)[2 * k + 1] == pieces[k]
    decreases |pieces|
  {
    if pieces != [] {
      PrefixWithIndex(constant, pieces[1..]);
      var rest := PrefixWith(constant, pieces[1..]);
      var r := PrefixWith(constant, pieces);
      assert r == [constant, pieces[0]] + rest;
      forall k | 1 <= k < |pieces|
        ensures r[2 * k] == constant && r[2 * k + 1] == pieces[k]
      {
        assert r[2 * k] == rest[2 * (k - 1)];
        assert r[2 * k + 1] == rest[2 * (k - 1) + 1];
      }
    }
  }

  /** Every second element, starting with the second: what `PrefixWith` interleaved. */
  function Odds(xs: seq<string>): (r: seq<string>)
    ensures |r| == |xs| / 2
    ensures forall k :: 0 <= k < |r| ==> r[k] == xs[2 * k + 1]
  {
    if |xs| < 2 then [] else [xs[1]] + Odds(xs[2..])
  }

  /** The pieces come back out of the interleaving. */
  lemma {:induction false} OddsPrefixWith(constant: string, pieces: seq<string>)
    ensures Odds(PrefixWith(constant, pieces)) == pieces
    decreases |pieces|
  {
    if pieces != [] {
      var r := PrefixWith(constant, pieces);
      assert r[2..] == PrefixWith(constant, pieces[1..]);
      OddsPrefixWith(constant, pieces[1..]);
      assert pieces == [pieces[0]] + pieces[1..];
    }
  }

  /** Interleaving distributes over concatenation, which is how `extend` builds it. */
  lemma {:induction false} PrefixWithAppend(constant: string, a: seq<string>, b: seq<string>)
    ensures PrefixWith(constant, a + b) == PrefixWith(constant, a) + PrefixWith(constant, b)
    decreases |a|
  {
    if a == [] {
      assert a + b == b;
    } else {
      assert (a + b)[1..] == a[1..] + b;
      PrefixWithAppend(constant, a[1..], b);
    }
  }

  /** The command-line options `direct_args` reads. Strings that were not given are
      `None`; a list not given is empty. */
  datatype AnalyzerOptions = AnalyzerOptions(
    storeModel: Option<string>,
    constraintsModel: Option<string>,
    internalStats: bool,
    analyzeHeaders: bool,
    stats: bool,
    maxloop: int,
    outputFormat: Option<string>,
    analyzerConfig: Option<string>,
    verbose: int,
    plugins: seq<string>,
    enableChecker: seq<string>,
    disableChecker: seq<string>)

  /** Python truthiness of an optional string. */
  predicate Given(o: Option<string>) {
    o.Some? && o.value != ""
  }

  /** `xs` when `cond` holds, nothing otherwise. */
  function When(cond: bool, xs: seq<string>): seq<string> {
    if cond then xs else []
  }

  /** The arguments `direct_args` collects in `result`, before interleaving, in the
      order of its tests. `ubiviz` is whether the `UBIVIZ` environment variable is
      set to a non-empty value. */
  function AnalyzerFlags(opts: AnalyzerOptions, ubiviz: bool): seq<string> {
    LeadingFlags(opts) + LoopFlags(opts) + TrailingFlags(opts, ubiviz)
  }

  /** The tests before the loop bound: store and constraints models, statistics,
      headers. */
  function LeadingFlags(opts: AnalyzerOptions): seq<string> {
    When(Given(opts.storeModel), ["-analyzer-store=" + opts.storeModel.GetOr("")])
    + When(Given(opts.constraintsModel), ["-analyzer-constraints=" + opts.constraintsModel.GetOr("")])
    + When(opts.internalStats, ["-analyzer-stats"])
    + When(opts.analyzeHeaders, ["-analyzer-opt-analyze-headers"])
    + When(opts.stats, ["-analyzer-checker=debug.Stats"])
  }

  function LoopFlags(opts: AnalyzerOptions): seq<string> {
    When(opts.maxloop != 0, ["-analyzer-max-loop", IntToString(opts.maxloop)])
  }

  /** The tests after the loop bound: output format, configuration, progress,
      plugins, checkers and `UBIVIZ`. */
  function TrailingFlags(opts: AnalyzerOptions, ubiviz: bool): seq<string> {
    When(Given(opts.outputFormat), ["-analyzer-output=" + opts.outputFormat.GetOr("")])
    + When(Given(opts.analyzerConfig), [opts.analyzerConfig.GetOr("")])
    + When(opts.verbose >= 4, ["-analyzer-display-progress"])
    + When(opts.plugins != [], PrefixWith("-load", opts.plugins))
    + When(opts.enableChecker != [], ["-analyzer-checker", JoinWith(opts.enableChecker, ',')])
    + When(opts.disableChecker != [], ["-analyzer-disable-checker", JoinWith(opts.disableChecker, ',')])
    + When(ubiviz, ["-analyzer-viz-egraph-ubigraph"])
  }

  /** `direct_args`: every flag the options select reaches the analyzer behind its
      own `-Xclang`, in the order of the tests, and nothing else is passed. */
  function DirectArgs(opts: AnalyzerOptions, ubiviz: bool): (r: seq<string>)
    ensures |r| == 2 * |AnalyzerFlags(opts, ubiviz)|
    ensures forall k :: 0 <= k < |r| / 2 ==> r[2 * k] == "-Xclang"
    ensures Odds(r) == AnalyzerFlags(opts, ubiviz)
  {
    OddsPrefixWith("-Xclang", AnalyzerFlags(opts, ubiviz));
    PrefixWithIndex("-Xclang", AnalyzerFlags(opts, ubiviz));
    PrefixWith("-Xclang", AnalyzerFlags(opts, ubiviz))
  }

  /** Every option asked for is passed on: each switch and each plugin appears,
      and `UBIVIZ` closes the list. */
  lemma OptionsPassed(opts: AnalyzerOptions, ubiviz: bool)
    ensures var f := AnalyzerFlags(opts, ubiviz);
      && (Given(opts.storeModel) ==> "-analyzer-store=" + opts.storeModel.value in f)
      && (Given(opts.constraintsModel) ==> "-analyzer-constraints=" + opts.constraintsModel.value in f)
      && (opts.internalStats ==> "-analyzer-stats" in f)
      && (opts.analyzeHeaders ==> "-analyzer-opt-analyze-headers" in f)
      && (opts.stats ==> "-analyzer-checker=debug.Stats" in f)
      && (Given(opts.outputFormat) ==> "-analyzer-output=" + opts.outputFormat.value in f)
      && (Given(opts.analyzerConfig) ==> opts.analyzerConfig.value in f)
      && (opts.verbose >= 4 ==> "-analyzer-display-progress" in f)
      && (forall p :: p in opts.plugins ==> p in f)
      && (ubiviz ==> |f| > 0 && f[|f| - 1] == "-analyzer-viz-egraph-ubigraph")
  {
    var f := AnalyzerFlags(opts, ubiviz);
    var loaded := PrefixWith("-load", opts.plugins);
    forall p | p in opts.plugins
      ensures p in f
    {
      var j :| 0 <= j < |opts.plugins| && opts.plugins[j] == p;
      PrefixWithIndex("-load", opts.plugins);
      assert loaded[2 * j + 1] == p;
      assert p in When(opts.plugins != [], loaded);
    }
  }

  /** A loop bound other than zero follows `-analyzer-max-loop` as a number that
      reads back as the bound. */
  lemma LoopBoundPassed(opts: AnalyzerOptions, ubiviz: bool)
    requires opts.maxloop != 0
    ensures var f := AnalyzerFlags(opts, ubiviz);
      exists k :: 0 <= k < |f| - 1 && f[k] == "-analyzer-max-loop" && f[k + 1] == IntToString(opts.maxloop)
  {
    var lead := LeadingFlags(opts);
    assert AnalyzerFlags(opts, ubiviz)[|lead|] == LoopFlags(opts)[0];
    assert AnalyzerFlags(opts, ubiviz)[|lead| + 1] == LoopFlags(opts)[1];
  }

  /** With no option given there is nothing to pass on. */
  lemma NoOptionsNoArgs(opts: AnalyzerOptions)
    requires !Given(opts.storeModel) && !Given(opts.constraintsModel)
    requires !opts.internalStats && !opts.analyzeHeaders && !opts.stats && opts.maxloop == 0
    requires !Given(opts.outputFormat) && !Given(opts.analyzerConfig) && opts.verbose < 4
    requires opts.plugins == [] && opts.enableChecker == [] && opts.disableChecker == []
    ensures DirectArgs(opts, false) == []
  {
  }

  /** Exactly the enabled checkers, comma-joined, follow `-analyzer-checker` when
      they close the list; the joined names split back into the checkers when none
      of them contains a comma. */
  lemma EnabledCheckers(opts: AnalyzerOptions)
    requires opts.enableChecker != [] && opts.disableChecker == []
    requires forall k :: 0 <= k < |opts.enableChecker| ==> ',' !in opts.enableChecker[k]
    ensures var f := AnalyzerFlags(opts, false);
      && |f| >= 2 && f[|f| - 2] == "-analyzer-checker"
      && SplitOn(f[|f| - 1], ',') == opts.enableChecker
  {
    SplitJoin(opts.enableChecker, ',');
  }

  /** `need_analyzer`: a non-empty command whose program name mentions neither
      `configure` nor `autogen`. */
  function NeedAnalyzer(args: seq<string>): (r: bool)
    ensures r <==> (&& |args| > 0
                    && (forall i: nat :: !OccursAt(args[0], "configure", i))
                    && (forall i: nat :: !OccursAt(args[0], "autogen", i)))
  {
    |args| > 0 && !ContainsSub(args[0], "configure") && !ContainsSub(args[0], "autogen")
  }

  /** A configure step is never analyzed. */
  lemma ConfigureNotAnalyzed(prefix: string, suffix: string, rest: seq<string>)
    ensures !NeedAnalyzer([prefix + "./configure" + suffix] + rest)
  {
    var s := prefix + "./configure" + suffix;
    assert s[|prefix| + 2..|prefix| + 2 + 9] == "configure";
    assert OccursAt(s, "configure", |prefix| + 2);
  }
}
