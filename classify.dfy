/** `classify_parameters` and the `IGNORED_FLAGS` table: one walk over a compiler's
    arguments that sorts them into kept flags, `-arch` values, the `-x` language,
    recognised source files and dropped options. */
module Classify {
  import opened Wrappers
  import opened Text
  import opened Collaborators

  /** `IGNORED_FLAGS`: options left out of the analyzer run, each with the number of
      arguments after it that belong to it and are dropped too. The walk below takes
      the table as its parameter `ignored`. */
  const IgnoredFlags: map<string, nat> := map[
    "-c" := 0,
    "-fsyntax-only" := 0,
    "-o" := 1,
    "-g" := 0,
    "-save-temps" := 0,
    "-install_name" := 1,
    "-exported_symbols_list" := 1,
    "-current_version" := 1,
    "-compatibility_version" := 1,
    "-init" := 1,
    "-e" := 1,
    "-seg1addr" := 1,
    "-bundle_loader" := 1,
    "-multiply_defined" := 1,
    "-sectorder" := 3,
    "--param" := 1,
    "--serialize-diagnostics" := 1
  ]

  /** `re.match(r'^[^-].+', arg)`: a first character other than `-`, then at least
      one character other than a newline. */
  predicate LooksLikeFile(arg: string) {
    |arg| >= 2 && arg[0] != '-' && arg[1] != '\n'
  }

  /** Python truthiness of what `classify_source` returns. */
  predicate Truthy(o: Option<string>) {
    o.Some? && o.value != ""
  }

  predicate IsSourceArg(arg: string, tc: Toolchain) {
    LooksLikeFile(arg) && Truthy(tc.classifySource(arg, true))
  }

  /** `re.match(r'^-W.+', arg) and not re.match(r'^-Wno-.+', arg)`. */
  predicate IsDroppedWarning(arg: string) {
    && StartsWith(arg, "-W") && |arg| >= 3 && arg[2] != '\n'
    && !(StartsWith(arg, "-Wno-") && |arg| >= 6 && arg[5] != '\n')
  }

  /** One step of the walk: an argument together with the arguments it consumes. */
  datatype Token =
    | Arch(value: string)                       // -arch value
    | Language(value: string)                   // -x value
    | Source(name: string)                      // a source file name
    | Ignored(flag: string, values: seq<string>) // an IGNORED_FLAGS entry and its values
    | Warning(flag: string)                     // -W..., but not -Wno-...
    | Flag(flag: string)                        // everything else: kept

  function Args(t: Token): seq<string> {
    match t
    case Arch(v) => ["-arch", v]
    case Language(v) => ["-x", v]
    case Source(n) => [n]
    case Ignored(f, vs) => [f] + vs
    case Warning(f) => [f]
    case Flag(f) => [f]
  }

  /** The token is the one the loop's chain of tests picks for its first argument. */
  predicate WellFormed(t: Token, ignored: map<string, nat>, tc: Toolchain) {
    match t
    case Arch(_) => true
    case Language(_) => true
    case Source(n) => IsSourceArg(n, tc)
    case Ignored(f, vs) =>
      f != "-arch" && f != "-x" && !IsSourceArg(f, tc) && f in ignored && ignored[f] == |vs|
    case Warning(f) =>
      f != "-arch" && f != "-x" && !IsSourceArg(f, tc) && f !in ignored && IsDroppedWarning(f)
    case Flag(f) =>
      f != "-arch" && f != "-x" && !IsSourceArg(f, tc) && f !in ignored && !IsDroppedWarning(f)
  }

  /** The token at the head of `args`; `None` where `next(args)` would run out. */
  function NextToken(args: seq<string>, ignored: map<string, nat>, tc: Toolchain): (r: Option<Token>)
    requires args != []
    ensures r.Some? ==> WellFormed(r.value, ignored, tc)
    ensures r.Some? ==> |Args(r.value)| <= |args| && args[..|Args(r.value)|] == Args(r.value)
  {
    var arg := args[0];
    if arg == "-arch" then
      if |args| < 2 then None else Some(Arch(args[1]))
    else if arg == "-x" then
      if |args| < 2 then None else Some(Language(args[1]))
    else if IsSourceArg(arg, tc) then Some(Source(arg))
    else if arg in ignored then
      var n := ignored[arg];
      if |args| < 1 + n then None else Some(Ignored(arg, args[1..1 + n]))
    else if IsDroppedWarning(arg) then Some(Warning(arg))
    else Some(Flag(arg))
  }

  /** The arguments the tokens were read from, in order. */
  function Flatten(ts: seq<Token>): seq<string> {
    if ts == [] then [] else Args(ts[0]) + Flatten(ts[1..])
  }

  lemma {:induction false} FlattenAppend(xs: seq<Token>, ys: seq<Token>)
    ensures Flatten(xs + ys) == Flatten(xs) + Flatten(ys)
    decreases |xs|
  {
    if xs == [] {
      assert xs + ys == ys;
    } else {
      assert (xs + ys)[0] == xs[0];
      assert (xs + ys)[1..] == xs[1..] + ys;
      FlattenAppend(xs[1..], ys);
    }
  }

  /** The whole walk; `None` where it raises. */
  function Tokenize(args: seq<string>, ignored: map<string, nat>, tc: Toolchain): Option<seq<Token>>
    decreases |args|
  {
    if args == [] then Some([])
    else
      match NextToken(args, ignored, tc)
      case None => None
      case Some(t) => Then([t], Tokenize(args[|Args(t)|..], ignored, tc))
  }

  /** Every argument is accounted for exactly once: flattening the tokens gives the
      arguments back, and each token is the one the loop's tests pick. */
  lemma {:induction false} TokenizeSound(args: seq<string>, ignored: map<string, nat>, tc: Toolchain)
    requires Tokenize(args, ignored, tc).Some?
    ensures Flatten(Tokenize(args, ignored, tc).value) == args
    ensures forall k :: 0 <= k < |Tokenize(args, ignored, tc).value| ==> WellFormed(Tokenize(args, ignored, tc).value[k], ignored, tc)
    decreases |args|
  {
    if args != [] {
      var t := NextToken(args, ignored, tc).value;
      var n := |Args(t)|;
      TokenizeCons(args, ignored, tc);
      TokenizeSound(args[n..], ignored, tc);
      var rest := Tokenize(args[n..], ignored, tc).value;
      var ts := [t] + rest;
      FlattenCons(t, rest);
      assert args == args[..n] + args[n..];
      assert forall k :: 0 < k < |ts| ==> ts[k] == rest[k - 1];
    }
  }

  /** A walk that completes is the first token followed by the walk of the rest. */
  lemma TokenizeCons(args: seq<string>, ignored: map<string, nat>, tc: Toolchain)
    requires args != [] && Tokenize(args, ignored, tc).Some?
    ensures NextToken(args, ignored, tc).Some?
    ensures var t := NextToken(args, ignored, tc).value;
      && Tokenize(args[|Args(t)|..], ignored, tc).Some?
      && Tokenize(args, ignored, tc).value == [t] + Tokenize(args[|Args(t)|..], ignored, tc).value
  {
  }

  lemma FlattenCons(t: Token, rest: seq<Token>)
    ensures Flatten([t] + rest) == Args(t) + Flatten(rest)
  {
    assert ([t] + rest)[0] == t && ([t] + rest)[1..] == rest;
  }

  /** `prefix` followed by the tokens of `rest`, when there are any. */
  function Then(prefix: seq<Token>, rest: Option<seq<Token>>): Option<seq<Token>> {
    match rest
    case None => None
    case Some(ts) => Some(prefix + ts)
  }

  /** The kept flags, in argument order. */
  function FlagsOf(ts: seq<Token>): seq<string> {
    if ts == [] then []
    else FlagsOf(ts[..|ts| - 1]) + (if ts[|ts| - 1].Flag? then [ts[|ts| - 1].flag] else [])
  }

  /** The `-arch` values, in argument order. */
  function ArchesOf(ts: seq<Token>): seq<string> {
    if ts == [] then []
    else ArchesOf(ts[..|ts| - 1]) + (if ts[|ts| - 1].Arch? then [ts[|ts| - 1].value] else [])
  }

  /** The value of the last `-x`, if any. */
  function LanguageOf(ts: seq<Token>): Option<string> {
    if ts == [] then None
    else if ts[|ts| - 1].Language? then Some(ts[|ts| - 1].value)
    else LanguageOf(ts[..|ts| - 1])
  }

  /** The dictionary `classify_parameters` returns. */
  datatype Classified = Classified(
    flags: seq<string>,
    archList: seq<string>,
    language: Option<string>,
    compiler: Option<Compiler>)

  /** The dictionary built from a completed walk, `None` for one that raised. */
  function ClassifiedOf(walk: Option<seq<Token>>, compiler: Option<Compiler>): Option<Classified> {
    match walk
    case None => None
    case Some(ts) => Some(Classified(FlagsOf(ts), ArchesOf(ts), LanguageOf(ts), compiler))
  }

  /** What `classify_parameters(command)` returns; `None` where it raises (no
      compiler found, or a switch missing its values). */
  function ClassifySpec(command: seq<string>, tc: Toolchain): Option<Classified> {
    match tc.splitCompiler(command)
    case None => None
    case Some(split) => ClassifiedOf(Tokenize(split.1, IgnoredFlags, tc), split.0)
  }

  /** `classify_parameters`: split off the compiler, then walk the arguments. */
  method ClassifyParameters(command: seq<string>, tc: Toolchain) returns (r: Option<Classified>)
    ensures r == ClassifySpec(command, tc)
  {
    var split := tc.splitCompiler(command);
    if split.None? {
      return None;
    }
    var (compiler, arguments) := split.value;
    r := ClassifyArguments(arguments, compiler, IgnoredFlags, tc);
  }

  /** The loop of `classify_parameters`: each round reads one argument, and the
      values it takes, and files it under `flags`, `arch_list` or `language`. */
  method ClassifyArguments(arguments: seq<string>, compiler: Option<Compiler>, ignored: map<string, nat>, tc: Toolchain)
    returns (r: Option<Classified>)
    ensures r == ClassifiedOf(Tokenize(arguments, ignored, tc), compiler)
  {
    var flags: seq<string> := [];
    var archList: seq<string> := [];
    var language: Option<string> := None;
    ghost var done: seq<Token> := [];
    var i := 0;
    assert arguments[0..] == arguments;
    ThenEmpty(Tokenize(arguments, ignored, tc));
    while i < |arguments|
      invariant 0 <= i <= |arguments|
      invariant Tokenize(arguments, ignored, tc) == Then(done, Tokenize(arguments[i..], ignored, tc))
      invariant flags == FlagsOf(done) && archList == ArchesOf(done) && language == LanguageOf(done)
      decreases |arguments| - i
    {
      var step := ReadArgument(arguments, i, ignored, tc);
      if step.None? {
        return None;
      }
      var (t, next) := step.value;
      match t {
        case Arch(value) => archList := archList + [value];
        case Language(value) => language := Some(value);
        case Flag(flag) => flags := flags + [flag];
        case _ =>
      }
      Advance(done, arguments, i, t, next, ignored, tc);
      ProjectionsSnoc(done, t);
      done := done + [t];
      i := next;
    }
    assert Tokenize(arguments[i..], ignored, tc) == Some([]);
    assert done + [] == done;
    r := Some(Classified(flags, archList, language, compiler));
  }

  /** One round of the loop: the chain of tests on `arguments[i]`, and the position
      after the values it takes with `next(args)`; `None` where those run out. */
  method ReadArgument(arguments: seq<string>, i: nat, ignored: map<string, nat>, tc: Toolchain)
    returns (r: Option<(Token, nat)>)
    requires i < |arguments|
    ensures r.None? <==> NextToken(arguments[i..], ignored, tc).None?
    ensures r.Some? ==> r.value.0 == NextToken(arguments[i..], ignored, tc).value
    ensures r.Some? ==> r.value.1 == i + |Args(r.value.0)| <= |arguments|
  {
    ghost var rest := arguments[i..];
    var arg := arguments[i];
    assert rest[0] == arg;
    if arg == "-arch" {
      if i + 1 == |arguments| {
        return None;
      }
      return Some((Arch(arguments[i + 1]), i + 2));
    } else if arg == "-x" {
      if i + 1 == |arguments| {
        return None;
      }
      return Some((Language(arguments[i + 1]), i + 2));
    } else if LooksLikeFile(arg) && Truthy(tc.classifySource(arg, true)) {
      return Some((Source(arg), i + 1));
    } else if arg in ignored {
      var count := ignored[arg];
      var next := SkipValues(arguments, i + 1, count);
      if next.None? {
        return None;
      }
      assert arguments[i + 1..next.value] == rest[1..1 + count];
      return Some((Ignored(arg, arguments[i + 1..next.value]), next.value));
    } else if IsDroppedWarning(arg) {
      return Some((Warning(arg), i + 1));
    } else {
      return Some((Flag(arg), i + 1));
    }
  }

  /** `for _ in range(count): next(args)`: the position `count` arguments further
      on, or `None` where the arguments run out first. */
  method SkipValues(arguments: seq<string>, i: nat, count: nat) returns (r: Option<nat>)
    requires i <= |arguments|
    ensures r.Some? <==> i + count <= |arguments|
    ensures r.Some? ==> r.value == i + count
  {
    var k := i;
    var j := 0;
    while j < count
      invariant 0 <= j <= count && k == i + j && k <= |arguments|
    {
      if k == |arguments| {
        return None;
      }
      k := k + 1;
      j := j + 1;
    }
    return Some(k);
  }

  lemma ProjectionsSnoc(ts: seq<Token>, t: Token)
    ensures FlagsOf(ts + [t]) == FlagsOf(ts) + (if t.Flag? then [t.flag] else [])
    ensures ArchesOf(ts + [t]) == ArchesOf(ts) + (if t.Arch? then [t.value] else [])
    ensures LanguageOf(ts + [t]) == if t.Language? then Some(t.value) else LanguageOf(ts)
  {
    assert (ts + [t])[..|ts|] == ts;
  }

  lemma Advance(done: seq<Token>, arguments: seq<string>, i: nat, t: Token, next: nat, ignored: map<string, nat>, tc: Toolchain)
    requires i < |arguments| && NextToken(arguments[i..], ignored, tc) == Some(t)
    requires next == i + |Args(t)| <= |arguments|
    ensures Then(done, Tokenize(arguments[i..], ignored, tc)) == Then(done + [t], Tokenize(arguments[next..], ignored, tc))
  {
    assert arguments[i..][|Args(t)|..] == arguments[next..];
    ThenThen(done, [t], Tokenize(arguments[next..], ignored, tc));
  }

  lemma ThenThen(xs: seq<Token>, ys: seq<Token>, o: Option<seq<Token>>)
    ensures Then(xs, Then(ys, o)) == Then(xs + ys, o)
  {
    if o.Some? {
      assert xs + (ys + o.value) == (xs + ys) + o.value;
    }
  }

  lemma ThenEmpty(o: Option<seq<Token>>)
    ensures Then([], o) == o
  {
    if o.Some? {
      assert [] + o.value == o.value;
    }
  }

  /** `a` is an order-preserving subsequence of `b`, at the positions `idx`. */
  ghost predicate Embeds(a: seq<string>, b: seq<string>, idx: seq<nat>) {
    && |idx| == |a|
    && (forall k :: 0 <= k < |idx| ==> idx[k] < |b| && b[idx[k]] == a[k])
    && (forall k, l :: 0 <= k < l < |idx| ==> idx[k] < idx[l])
  }

  ghost predicate IsSubsequence(a: seq<string>, b: seq<string>) {
    exists idx :: Embeds(a, b, idx)
  }

  lemma {:induction false} FlagsEmbedding(ts: seq<Token>) returns (idx: seq<nat>)
    ensures Embeds(FlagsOf(ts), Flatten(ts), idx)
  {
    if ts == [] {
      idx := [];
    } else {
      var pre := ts[..|ts| - 1];
      var t := ts[|ts| - 1];
      idx := FlagsEmbedding(pre);
      var b := Flatten(ts);
      assert ts == pre + [t];
      FlattenAppend(pre, [t]);
      assert Flatten([t]) == Args(t) by {
        assert [t][1..] == [];
      }
      assert b == Flatten(pre) + Args(t);
      assert forall k :: 0 <= k < |idx| ==> b[idx[k]] == Flatten(pre)[idx[k]];
      if t.Flag? {
        idx := idx + [|Flatten(pre)|];
      }
    }
  }

  /** The kept flags are the arguments' own strings, in their original order. */
  lemma FlagsAreSubsequence(args: seq<string>, ignored: map<string, nat>, tc: Toolchain)
    requires Tokenize(args, ignored, tc).Some?
    ensures IsSubsequence(FlagsOf(Tokenize(args, ignored, tc).value), args)
  {
    TokenizeSound(args, ignored, tc);
    var idx := FlagsEmbedding(Tokenize(args, ignored, tc).value);
  }

  /** No kept flag is a switch the walk acts on: not `-arch` or `-x`, not in
      the ignored table, not a dropped warning and not a source file. */
  lemma {:induction false} FlagsAreOrdinary(ts: seq<Token>, ignored: map<string, nat>, tc: Toolchain)
    requires forall k :: 0 <= k < |ts| ==> WellFormed(ts[k], ignored, tc)
    ensures forall f :: f in FlagsOf(ts) ==>
      f != "-arch" && f != "-x" && f !in ignored && !IsDroppedWarning(f) && !IsSourceArg(f, tc)
  {
    if ts != [] {
      FlagsAreOrdinary(ts[..|ts| - 1], ignored, tc);
      assert WellFormed(ts[|ts| - 1], ignored, tc);
    }
  }

  lemma {:induction false} ProjectionsAppend(xs: seq<Token>, ys: seq<Token>)
    ensures FlagsOf(xs + ys) == FlagsOf(xs) + FlagsOf(ys)
    ensures ArchesOf(xs + ys) == ArchesOf(xs) + ArchesOf(ys)
    ensures LanguageOf(xs + ys) == if LanguageOf(ys).Some? then LanguageOf(ys) else LanguageOf(xs)
    decreases |ys|
  {
    if ys == [] {
      assert xs + ys == xs;
    } else {
      assert (xs + ys)[..|xs + ys| - 1] == xs + ys[..|ys| - 1];
      ProjectionsAppend(xs, ys[..|ys| - 1]);
    }
  }

  lemma {:induction false} NextTokenExtends(a: seq<string>, b: seq<string>, ignored: map<string, nat>, tc: Toolchain)
    requires a != [] && NextToken(a, ignored, tc).Some?
    ensures NextToken(a + b, ignored, tc) == NextToken(a, ignored, tc)
  {
    assert (a + b)[0] == a[0];
    if a[0] == "-arch" || a[0] == "-x" {
      assert (a + b)[1] == a[1];
    } else if !IsSourceArg(a[0], tc) && a[0] in ignored {
      var n := ignored[a[0]];
      assert (a + b)[1..1 + n] == a[1..1 + n];
    }
  }

  /** A walk over arguments that completes never consumes from what follows, so
      classifying `a + b` is classifying `a` and then `b`. */
  lemma {:induction false} TokenizeAppend(a: seq<string>, b: seq<string>, ignored: map<string, nat>, tc: Toolchain)
    requires Tokenize(a, ignored, tc).Some?
    ensures Tokenize(a + b, ignored, tc) == Then(Tokenize(a, ignored, tc).value, Tokenize(b, ignored, tc))
    decreases |a|
  {
    if a == [] {
      assert a + b == b;
      ThenEmpty(Tokenize(b, ignored, tc));
    } else {
      var t := NextToken(a, ignored, tc).value;
      NextTokenExtends(a, b, ignored, tc);
      var n := |Args(t)|;
      assert (a + b)[n..] == a[n..] + b;
      assert Tokenize(a, ignored, tc) == Then([t], Tokenize(a[n..], ignored, tc));
      var rest := Tokenize(a[n..], ignored, tc).value;
      TokenizeAppend(a[n..], b, ignored, tc);
      assert Tokenize(a + b, ignored, tc) == Then([t], Tokenize(a[n..] + b, ignored, tc));
      ThenThen([t], rest, Tokenize(b, ignored, tc));
    }
  }

  /** A trailing `-arch`, `-x` or value-taking ignored option makes the walk fail, as
      `next(args)` raises `StopIteration` there. */
  lemma DanglingSwitch(a: seq<string>, sw: string, ignored: map<string, nat>, tc: Toolchain)
    requires Tokenize(a, ignored, tc).Some?
    requires sw == "-arch" || sw == "-x" || (sw in ignored && ignored[sw] > 0 && |sw| > 0 && sw[0] == '-')
    ensures Tokenize(a + [sw], ignored, tc) == None
  {
    TokenizeAppend(a, [sw], ignored, tc);
    assert NextToken([sw], ignored, tc) == None;
  }

  /** Every entry of `IGNORED_FLAGS` is an option: it starts with `-`, so it is
      never taken for a source file. */
  lemma IgnoredFlagsAreOptions()
    ensures forall k :: k in IgnoredFlags ==> |k| >= 2 && k[0] == '-'
  {
  }

  /** Classifying two argument runs one after the other: flags and `-arch` values
      concatenate, and a `-x` in the second run overrides one in the first. */
  lemma ClassifyConcatenation(a: seq<string>, b: seq<string>, ignored: map<string, nat>, tc: Toolchain)
    requires Tokenize(a, ignored, tc).Some? && Tokenize(b, ignored, tc).Some?
    ensures Tokenize(a + b, ignored, tc).Some?
    ensures var x, y, z := Tokenize(a, ignored, tc).value, Tokenize(b, ignored, tc).value, Tokenize(a + b, ignored, tc).value;
      && FlagsOf(z) == FlagsOf(x) + FlagsOf(y)
      && ArchesOf(z) == ArchesOf(x) + ArchesOf(y)
      && LanguageOf(z) == if LanguageOf(y).Some? then LanguageOf(y) else LanguageOf(x)
  {
    TokenizeAppend(a, b, ignored, tc);
    ProjectionsAppend(Tokenize(a, ignored, tc).value, Tokenize(b, ignored, tc).value);
  }

  /** `-c -g -o out.o foo.c`, with `foo.c` recognised as a source, keeps no flag. */
  lemma CompileLineKeepsNoFlags(tc: Toolchain)
    requires Truthy(tc.classifySource("foo.c", true))
    ensures Tokenize(["-c", "-g", "-o", "out.o", "foo.c"], IgnoredFlags, tc)
      == Some([Ignored("-c", []), Ignored("-g", []), Ignored("-o", ["out.o"]), Source("foo.c")])
    ensures FlagsOf([Ignored("-c", []), Ignored("-g", []), Ignored("-o", ["out.o"]), Source("foo.c")]) == []
  {
    IgnoredFlagsEntries();
    CompileLineTokens(IgnoredFlags, tc);
  }

  lemma IgnoredFlagsEntries()
    ensures "-c" in IgnoredFlags && IgnoredFlags["-c"] == 0
    ensures "-g" in IgnoredFlags && IgnoredFlags["-g"] == 0
    ensures "-o" in IgnoredFlags && IgnoredFlags["-o"] == 1
  {
  }

  lemma CompileLineTokens(table: map<string, nat>, tc: Toolchain)
    requires Truthy(tc.classifySource("foo.c", true))
    requires "-c" in table && table["-c"] == 0
    requires "-g" in table && table["-g"] == 0
    requires "-o" in table && table["-o"] == 1
    ensures Tokenize(["-c", "-g", "-o", "out.o", "foo.c"], table, tc)
      == Some([Ignored("-c", []), Ignored("-g", []), Ignored("-o", ["out.o"]), Source("foo.c")])
    ensures FlagsOf([Ignored("-c", []), Ignored("-g", []), Ignored("-o", ["out.o"]), Source("foo.c")]) == []
  {
    var t1, t0 := Ignored("-g", []), Ignored("-c", []);
    var s0: seq<string> := ["-c", "-g", "-o", "out.o", "foo.c"];
    var rest := [t1, Ignored("-o", ["out.o"]), Source("foo.c")];
    DebugThenRest(table, tc);
    assert s0[1..] == ["-g", "-o", "out.o", "foo.c"];
    assert "-c"[1] != "-x"[1] && "-c" != "-arch" && !LooksLikeFile("-c");
    assert NextToken(s0, table, tc) == Some(t0);
    assert Tokenize(s0, table, tc) == Then([t0], Tokenize(s0[1..], table, tc));
    assert [t0] + rest == [t0, t1, Ignored("-o", ["out.o"]), Source("foo.c")];
    NoneKept();
  }

  lemma NoneKept()
    ensures FlagsOf([Ignored("-c", []), Ignored("-g", []), Ignored("-o", ["out.o"]), Source("foo.c")]) == []
  {
    var t2, t1, t0 := Ignored("-o", ["out.o"]), Ignored("-g", []), Ignored("-c", []);
    var ts := [t0, t1, t2, Source("foo.c")];
    assert ts[..3] == [t0, t1, t2] && [t0, t1, t2][..2] == [t0, t1] && [t0, t1][..1] == [t0];
    assert [t0][..0] == [];
    assert FlagsOf([t0]) == [];
    assert FlagsOf([t0, t1]) == [];
    assert FlagsOf([t0, t1, t2]) == [];
  }

  lemma DebugThenRest(table: map<string, nat>, tc: Toolchain)
    requires Truthy(tc.classifySource("foo.c", true))
    requires "-g" in table && table["-g"] == 0
    requires "-o" in table && table["-o"] == 1
    ensures Tokenize(["-g", "-o", "out.o", "foo.c"], table, tc)
      == Some([Ignored("-g", []), Ignored("-o", ["out.o"]), Source("foo.c")])
  {
    var t2, t1 := Ignored("-o", ["out.o"]), Ignored("-g", []);
    var s1: seq<string> := ["-g", "-o", "out.o", "foo.c"];
    OutputAndSource(table, tc);
    assert s1[1..] == ["-o", "out.o", "foo.c"];
    assert "-g"[1] != "-x"[1] && "-g" != "-arch" && !LooksLikeFile("-g");
    assert NextToken(s1, table, tc) == Some(t1);
    assert Tokenize(s1, table, tc) == Then([t1], Tokenize(s1[1..], table, tc));
    assert [t1] + [t2, Source("foo.c")] == [t1, t2, Source("foo.c")];
  }

  lemma OutputAndSource(table: map<string, nat>, tc: Toolchain)
    requires Truthy(tc.classifySource("foo.c", true))
    requires "-o" in table && table["-o"] == 1
    ensures Tokenize(["-o", "out.o", "foo.c"], table, tc) == Some([Ignored("-o", ["out.o"]), Source("foo.c")])
  {
    assert "foo.c"[0] != "-arch"[0] && "foo.c" != "-x" && LooksLikeFile("foo.c");
    assert "-o"[1] != "-x"[1] && "-o" != "-arch" && !LooksLikeFile("-o");
    var s4: seq<string> := ["foo.c"];
    var s2: seq<string> := ["-o", "out.o", "foo.c"];
    assert s4[1..] == [] && s2[2..] == s4;
    assert s2[1..2] == ["out.o"];
    var t4, t2 := Source("foo.c"), Ignored("-o", ["out.o"]);
    assert NextToken(s4, table, tc) == Some(t4);
    assert Tokenize(s4, table, tc) == Then([t4], Tokenize([], table, tc));
    assert [t4] + [] == [t4];
    assert NextToken(s2, table, tc) == Some(t2);
    assert Tokenize(s2, table, tc) == Then([t2], Tokenize(s4, table, tc));
    assert [t2] + [t4] == [t2, t4];
  }
}
