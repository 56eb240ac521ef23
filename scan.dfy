/** The artifact scanner of `analyzer/report.py`: `scan_bug` reads the metadata
    comments at the top of one HTML bug report, and `scan_crash` reads the first
    lines of one failure's `.info.txt` file. A file is given as the lines
    `readlines()` returns. */
module ReportScan {
  import opened Wrappers
  import opened Text
  import opened Html

  /** The values `scan_bug` looks for, one per pattern; `bug_info` is keyed by
      these (the patterns' group names). */
  datatype Field = BugType | BugFile | BugPathLength | BugLine | BugCategory | BugDesc | FunctionName

  /** The tag each pattern looks for in a comment. */
  function Tag(f: Field): string {
    match f
    case BugType => "BUGTYPE"
    case BugFile => "BUGFILE"
    case BugPathLength => "BUGPATHLENGTH"
    case BugLine => "BUGLINE"
    case BugCategory => "BUGCATEGORY"
    case BugDesc => "BUGDESC"
    case FunctionName => "FUNCTIONNAME"
  }

  /** The patterns, in the order `scan_bug` tries them. */
  const Patterns: seq<Field> := [BugType, BugFile, BugPathLength, BugLine, BugCategory, BugDesc, FunctionName]

  /** Every field has its pattern. */
  lemma EveryFieldTried(f: Field)
    ensures f in Patterns
  {
  }

  /** What a metadata comment starts with. */
  function Opening(tag: string): string {
    "<!-- " + tag + " "
  }

  /** `re.match(r'<!-- TAG (?P<key>.*) -->$', s)` on a stripped line: the text
      between the opening and a closing ` -->` that ends the line; `.` stops at a
      newline. */
  function MatchTag(tag: string, s: string): (r: Option<string>)
    ensures r.Some? ==> s == Opening(tag) + r.value + " -->" && '\n' !in r.value
  {
    var p := Opening(tag);
    if |s| >= |p| + 4 && s[..|p|] == p && s[|s| - 4..] == " -->" && '\n' !in s[|p|..|s| - 4] then
      assert s == s[..|p|] + s[|p|..|s| - 4] + s[|s| - 4..];
      Some(s[|p|..|s| - 4])
    else None
  }

  /** Every comment of the right shape is recognised, and its value comes back whole. */
  lemma MatchTagComment(tag: string, v: string)
    requires '\n' !in v
    ensures MatchTag(tag, Opening(tag) + v + " -->") == Some(v)
  {
    var s := Opening(tag) + v + " -->";
    var p := Opening(tag);
    assert s[..|p|] == p;
    assert s[|s| - 4..] == " -->";
    assert s[|p|..|s| - 4] == v;
  }

  /** `endsign.match(line)`: the unstripped line starts with the end marker. */
  predicate IsMetaEnd(line: string) {
    StartsWith(line, "<!-- BUGMETAEND -->")
  }

  /** The inner loop over the patterns `ps` for one stripped line: every pattern
      that matches stores its value. */
  function ApplyPatterns(meta: map<Field, string>, s: string, ps: seq<Field>): map<Field, string> {
    if ps == [] then meta
    else
      var m := ApplyPatterns(meta, s, ps[..|ps| - 1]);
      var f := ps[|ps| - 1];
      match MatchTag(Tag(f), s)
      case Some(v) => m[f := v]
      case None => m
  }

  /** What one line does to `bug_info`. */
  function ReadLine(meta: map<Field, string>, line: string): map<Field, string> {
    ApplyPatterns(meta, Strip(line), Patterns)
  }

  /** `bug_info` after reading every line of `lines`. */
  function Collected(lines: seq<string>): map<Field, string> {
    if lines == [] then map[] else ReadLine(Collected(lines[..|lines| - 1]), lines[|lines| - 1])
  }

  /** The lines before the first end marker. */
  function BeforeEnd(lines: seq<string>): (r: seq<string>)
    ensures |r| <= |lines| && r == lines[..|r|]
    ensures forall k :: 0 <= k < |r| ==> !IsMetaEnd(r[k])
    ensures |r| < |lines| ==> IsMetaEnd(lines[|r|])
  {
    if lines == [] then []
    else if IsMetaEnd(lines[0]) then []
    else
      var rest := BeforeEnd(lines[1..]);
      assert forall k :: 0 < k < |lines| ==> lines[k] == lines[1..][k - 1];
      [lines[0]] + rest
  }

  /** `bug_info` when the loop of `scan_bug` is over. */
  function Meta(lines: seq<string>): map<Field, string> {
    Collected(BeforeEnd(lines))
  }

  /** `bug_info.get(key)`. */
  function Lookup(meta: map<Field, string>, f: Field): Option<string> {
    if f in meta then Some(meta[f]) else None
  }

  /** The record `scan_bug` returns. Fields missing from the report are `None`. */
  datatype Bug = Bug(
    bugType: Option<string>,
    bugFile: Option<string>,
    pathLength: int,
    line: int,
    category: string,
    description: Option<string>,
    functionName: Option<string>,
    reportFile: string,
    typeClass: string)

  /** `smash`: lower-case, spaces to `_`, apostrophes dropped. */
  function Smash(s: string): (r: string)
    ensures ' ' !in r && '\'' !in r
  {
    ReplaceChar(ReplaceChar(Lower(s), ' ', "_"), '\'', "")
  }

  /** What `smash` makes of one character. */
  function SmashChar(c: char): string {
    if c == ' ' then "_" else if c == '\'' then "" else [LowerChar(c)]
  }

  /** `smash` one character at a time. */
  function SmashEach(s: string): string {
    if s == [] then [] else SmashChar(s[0]) + SmashEach(s[1..])
  }

  /** The three passes of `smash` amount to the character-by-character mapping. */
  lemma {:induction false} SmashIsPerChar(s: string)
    ensures Smash(s) == SmashEach(s)
  {
    if s != [] {
      SmashIsPerChar(s[1..]);
      var low := Lower(s);
      assert low == [LowerChar(s[0])] + Lower(s[1..]);
      ReplaceCharAppend([LowerChar(s[0])], Lower(s[1..]), ' ', "_");
      var head := ReplaceChar([LowerChar(s[0])], ' ', "_");
      assert head == (if s[0] == ' ' then "_" else [LowerChar(s[0])]) by {
        assert [LowerChar(s[0])][1..] == [];
      }
      ReplaceCharAppend(head, ReplaceChar(Lower(s[1..]), ' ', "_"), '\'', "");
      if s[0] == ' ' {
        assert ReplaceChar("_", '\'', "") == "_" by { assert "_"[1..] == []; }
      } else {
        assert ReplaceChar([LowerChar(s[0])], '\'', "") == SmashChar(s[0]) by {
          assert [LowerChar(s[0])][1..] == [];
        }
      }
    }
  }

  /** `classname(bug)`: built from the category (already defaulted) and the type
      (empty when missing), before any escaping. */
  function ClassName(category: string, bugType: string): (r: string)
    ensures r == "bt_" + SmashEach(category) + "_" + SmashEach(bugType)
    ensures StartsWith(r, "bt_") && ' ' !in r && '\'' !in r
  {
    SmashIsPerChar(category);
    SmashIsPerChar(bugType);
    "bt_" + Smash(category) + "_" + Smash(bugType)
  }

  /** `int(bug_info.get(key, default))`; `None` where `int` raises. */
  function NumberOr(meta: map<Field, string>, f: Field, default: int): Option<int> {
    if f in meta then ParseInt(meta[f]) else Some(default)
  }

  /** The record built from the collected values: defaults, the class name, then
      escaping of category, type and class; `None` where `int` raises. */
  function BugOf(path: string, meta: map<Field, string>): (r: Option<Bug>)
    ensures r.Some? <==> NumberOr(meta, BugPathLength, 1).Some? && NumberOr(meta, BugLine, 0).Some?
    ensures r.Some? ==> var b := r.value;
      var category := if BugCategory in meta then meta[BugCategory] else "Other";
      && b.reportFile == path
      && b.pathLength == NumberOr(meta, BugPathLength, 1).value
      && b.line == NumberOr(meta, BugLine, 0).value
      && b.category == Escape(category, false)
      && b.bugType == (if BugType in meta then Some(Escape(meta[BugType], false)) else None)
      && b.bugFile == Lookup(meta, BugFile)
      && b.description == Lookup(meta, BugDesc)
      && b.functionName == Lookup(meta, FunctionName)
      && b.typeClass == Escape(ClassName(category, if BugType in meta then meta[BugType] else ""), true)
  {
    var category := if BugCategory in meta then meta[BugCategory] else "Other";
    var bugType := Lookup(meta, BugType);
    match (NumberOr(meta, BugPathLength, 1), NumberOr(meta, BugLine, 0))
    case (Some(pathLength), Some(line)) =>
      Some(Bug(
        if bugType.Some? then Some(Escape(bugType.value, false)) else None,
        Lookup(meta, BugFile),
        pathLength,
        line,
        Escape(category, false),
        Lookup(meta, BugDesc),
        Lookup(meta, FunctionName),
        path,
        Escape(ClassName(category, bugType.GetOr("")), true)))
    case _ => None
  }

  /** What `scan_bug(path)` returns for a file with these lines. */
  function ScanBugSpec(path: string, lines: seq<string>): Option<Bug> {
    BugOf(path, Meta(lines))
  }

  /** `scan_bug`: read lines until the end marker, try every pattern on each
      stripped line, then apply the defaults. */
  method ScanBug(path: string, lines: seq<string>) returns (r: Option<Bug>)
    ensures r == ScanBugSpec(path, lines)
  {
    var meta := ReadMeta(lines);
    r := BugOf(path, meta);
  }

  /** The loop of `scan_bug` over the lines of the file, which stops at the end
      marker. */
  method ReadMeta(lines: seq<string>) returns (meta: map<Field, string>)
    ensures meta == Meta(lines)
  {
    meta := map[];
    var i := 0;
    while i < |lines|
      invariant i <= |BeforeEnd(lines)|
      invariant meta == Collected(lines[..i])
    {
      if IsMetaEnd(lines[i]) {
        break;
      }
      BeforeEndStep(lines, i);
      meta := MatchLine(meta, Strip(lines[i]), Patterns);
      CollectedStep(lines, i);
      i := i + 1;
    }
    BeforeEndExact(lines, i);
  }

  lemma CollectedStep(lines: seq<string>, i: nat)
    requires i < |lines|
    ensures Collected(lines[..i + 1]) == ReadLine(Collected(lines[..i]), lines[i])
  {
    var p := lines[..i + 1];
    assert p[..|p| - 1] == lines[..i];
    assert p[|p| - 1] == lines[i];
  }

  lemma BeforeEndStep(lines: seq<string>, i: nat)
    requires i <= |BeforeEnd(lines)| && i < |lines| && !IsMetaEnd(lines[i])
    ensures i + 1 <= |BeforeEnd(lines)|
  {
  }

  /** The end marker is the first line at `i` or there is none: the lines read are
      the first `i`. */
  lemma BeforeEndExact(lines: seq<string>, i: nat)
    requires i <= |BeforeEnd(lines)|
    requires i == |lines| || IsMetaEnd(lines[i])
    ensures BeforeEnd(lines) == lines[..i]
  {
    var b := BeforeEnd(lines);
    assert forall k :: 0 <= k < |b| ==> b[k] == lines[k];
  }

  /** The inner loop of `scan_bug`: every pattern is tried on the stripped line `s`,
      and each one that matches stores its value in `bug_info`. */
  method MatchLine(meta: map<Field, string>, s: string, patterns: seq<Field>) returns (r: map<Field, string>)
    ensures r == ApplyPatterns(meta, s, patterns)
  {
    r := meta;
    var j := 0;
    while j < |patterns|
      invariant 0 <= j <= |patterns|
      invariant r == ApplyPatterns(meta, s, patterns[..j])
    {
      var f := patterns[j];
      var m := MatchTag(Tag(f), s);
      ApplyPatternsSnoc(meta, s, patterns, j);
      if m.Some? {
        r := r[f := m.value];
      }
      j := j + 1;
    }
    ApplyPatternsWhole(meta, s, patterns, j);
  }

  lemma ApplyPatternsWhole(meta: map<Field, string>, s: string, ps: seq<Field>, j: nat)
    requires j == |ps|
    ensures ApplyPatterns(meta, s, ps[..j]) == ApplyPatterns(meta, s, ps)
  {
    assert ps[..j] == ps;
  }

  lemma ApplyPatternsSnoc(meta: map<Field, string>, s: string, ps: seq<Field>, j: nat)
    requires j < |ps|
    ensures var m := ApplyPatterns(meta, s, ps[..j]);
      ApplyPatterns(meta, s, ps[..j + 1]) ==
        if MatchTag(Tag(ps[j]), s).Some? then m[ps[j] := MatchTag(Tag(ps[j]), s).value] else m
  {
    assert ps[..j + 1][..j] == ps[..j];
  }

  /** The value the last line matching `tag` carries. */
  function LastMatch(lines: seq<string>, tag: string): Option<string> {
    if lines == [] then None
    else match MatchTag(tag, Strip(lines[|lines| - 1]))
      case Some(v) => Some(v)
      case None => LastMatch(lines[..|lines| - 1], tag)
  }

  /** Trying the patterns `ps` on a line stores, under each of them that matches,
      its value, and leaves every other field as it was. */
  lemma {:induction false} ApplyPatternsAt(meta: map<Field, string>, s: string, ps: seq<Field>, f: Field)
    ensures Lookup(ApplyPatterns(meta, s, ps), f) ==
      if f in ps && MatchTag(Tag(f), s).Some? then MatchTag(Tag(f), s) else Lookup(meta, f)
  {
    if ps != [] {
      var j := |ps| - 1;
      ApplyPatternsAt(meta, s, ps[..j], f);
      ApplyPatternsSnoc(meta, s, ps, j);
      assert ps[..j + 1] == ps;
      InLast(ps, f);
    }
  }

  lemma InLast(ps: seq<Field>, f: Field)
    requires ps != []
    ensures f in ps <==> f in ps[..|ps| - 1] || f == ps[|ps| - 1]
  {
    assert ps == ps[..|ps| - 1] + [ps[|ps| - 1]];
  }

  /** Each field holds the value of the LAST line that matched its pattern, and is
      missing when no line did. */
  lemma {:induction false} CollectedIsLastMatch(lines: seq<string>, f: Field)
    ensures Lookup(Collected(lines), f) == LastMatch(lines, Tag(f))
  {
    if lines != [] {
      CollectedIsLastMatch(lines[..|lines| - 1], f);
      EveryFieldTried(f);
      ApplyPatternsAt(Collected(lines[..|lines| - 1]), Strip(lines[|lines| - 1]), Patterns, f);
    }
  }

  /** Two `bug_info` dictionaries are equal when every field reads the same. */
  lemma SameFields(a: map<Field, string>, b: map<Field, string>)
    requires forall f :: Lookup(a, f) == Lookup(b, f)
    ensures a == b
  {
    assert forall f :: f in a <==> Lookup(a, f).Some?;
  }

  /** The last match in `a + b` is the one in `b`, or the one in `a` when `b` has
      none. */
  lemma {:induction false} LastMatchAppend(a: seq<string>, b: seq<string>, tag: string)
    ensures LastMatch(a + b, tag) == if LastMatch(b, tag).Some? then LastMatch(b, tag) else LastMatch(a, tag)
    decreases |b|
  {
    if b == [] {
      assert a + b == a;
    } else {
      assert (a + b)[..|a + b| - 1] == a + b[..|b| - 1];
      LastMatchAppend(a, b[..|b| - 1], tag);
    }
  }

  /** Lines without an end marker are read through to what follows them. */
  lemma {:induction false} BeforeEndPrefix(a: seq<string>, b: seq<string>)
    requires forall k :: 0 <= k < |a| ==> !IsMetaEnd(a[k])
    ensures BeforeEnd(a + b) == a + BeforeEnd(b)
  {
    if a != [] {
      var ab := a + b;
      assert ab[0] == a[0] && ab[1..] == a[1..] + b;
      assert BeforeEnd(ab) == [a[0]] + BeforeEnd(a[1..] + b);
      BeforeEndPrefix(a[1..], b);
      AppendAssoc([a[0]], a[1..], BeforeEnd(b));
      assert [a[0]] + a[1..] == a;
    } else {
      assert a + b == b;
    }
  }

  /** Only the lines before the first end marker count: whatever follows it is never
      read. */
  lemma MetaStopsAtEnd(a: seq<string>, end: string, b: seq<string>)
    requires forall k :: 0 <= k < |a| ==> !IsMetaEnd(a[k])
    requires IsMetaEnd(end)
    ensures Meta(a + [end] + b) == Collected(a)
  {
    BeforeEndAtMarker(a, end, b);
  }

  lemma BeforeEndAtMarker(a: seq<string>, end: string, b: seq<string>)
    requires forall k :: 0 <= k < |a| ==> !IsMetaEnd(a[k])
    requires IsMetaEnd(end)
    ensures BeforeEnd(a + [end] + b) == a
  {
    var rest := [end] + b;
    BeforeEndPrefix(a, rest);
    assert a + [end] + b == a + rest;
    assert rest[0] == end;
    assert a + [] == a;
  }

  /** Reading the metadata lines twice over gives the same `bug_info` as reading
      them once: a later value for a tag overwrites an earlier one, and the second
      copy repeats the first. */
  lemma MetaTwice(lines: seq<string>)
    ensures Meta(lines + lines) == Meta(lines)
  {
    var r := BeforeEnd(lines);
    if |r| < |lines| {
      var tail := lines[|r| + 1..] + lines;
      assert lines + lines == r + [lines[|r|]] + tail;
      BeforeEndAtMarker(r, lines[|r|], tail);
    } else {
      assert r == lines;
      BeforeEndPrefix(lines, lines);
      CollectedTwice(lines);
    }
  }

  /** Reading the same lines a second time changes no field. */
  lemma CollectedTwice(lines: seq<string>)
    ensures Collected(lines + lines) == Collected(lines)
  {
    forall f ensures Lookup(Collected(lines + lines), f) == Lookup(Collected(lines), f) {
      CollectedIsLastMatch(lines, f);
      CollectedIsLastMatch(lines + lines, f);
      LastMatchAppend(lines, lines, Tag(f));
    }
    SameFields(Collected(lines + lines), Collected(lines));
  }

  /** A report without metadata gets the defaults: category `Other`, path length 1,
      line 0, and the class `bt_other_`. */
  lemma Defaults(path: string)
    ensures BugOf(path, map[]) == Some(Bug(None, None, 1, 0, "Other", None, None, path, "bt_other_"))
  {
    OtherClassEscaped();
    PlainOther();
  }

  lemma PlainOther()
    ensures Escape("Other", false) == "Other"
  {
    EscapePlain("Other", false);
  }

  lemma OtherClass()
    ensures ClassName("Other", "") == "bt_other_"
  {
    SmashWord("Other", "other");
    assert "bt_" + "other" + "_" + "" == "bt_other_";
  }

  lemma OtherClassEscaped()
    ensures Escape(ClassName("Other", ""), true) == "bt_other_"
  {
    OtherClass();
    PlainOtherClass();
  }

  lemma PlainOtherClass()
    ensures Escape("bt_other_", true) == "bt_other_"
  {
    EscapePlain("bt_other_", true);
  }

  /** Text without `&`, `<`, `>` or `"` is left as it is by escaping. */
  lemma EscapePlain(s: string, quote: bool)
    requires '&' !in s && '<' !in s && '>' !in s && '"' !in s
    ensures Escape(s, quote) == s
  {
    EscapeEachPlain(s, quote);
  }

  lemma {:induction false} EscapeEachPlain(s: string, quote: bool)
    requires '&' !in s && '<' !in s && '>' !in s && '"' !in s
    ensures EscapeEach(s, quote) == s
  {
    if s != [] {
      EscapeEachPlain(s[1..], quote);
      assert EscapeChar(s[0], quote) == [s[0]];
      assert [s[0]] + s[1..] == s;
    }
  }

  /** `bt_memory_error_leak` for a `Memory Error` leak. */
  lemma MemoryErrorLeakClass()
    ensures ClassName("Memory Error", "Leak") == "bt_memory_error_leak"
  {
    SmashMemoryError();
    SmashLeak();
    LeakClassText();
  }

  lemma LeakClassText()
    ensures "bt_" + "memory_error" + "_" + "leak" == "bt_memory_error_leak"
  {
  }

  lemma SmashMemoryError()
    ensures SmashEach("Memory Error") == "memory_error"
  {
    MemoryErrorText();
    SmashEachAppend("Memory", " Error");
    SmashWord("Memory", "memory");
    SmashSpaceError();
  }

  lemma MemoryErrorText()
    ensures "Memory" + " Error" == "Memory Error" && "memory" + "_error" == "memory_error"
  {
  }

  lemma SmashSpaceError()
    ensures SmashEach(" Error") == "_error"
  {
    SmashEachAppend(" ", "Error");
    assert " " + "Error" == " Error";
    SmashWord("Error", "error");
    assert SmashEach(" ") == "_";
    assert "_" + "error" == "_error";
  }

  lemma SmashLeak()
    ensures SmashEach("Leak") == "leak"
  {
    SmashWord("Leak", "leak");
  }

  /** Letters only: `smash` just lower-cases. */
  lemma {:induction false} SmashWord(s: string, low: string)
    requires |s| == |low|
    requires forall i :: 0 <= i < |s| ==> ('a' <= s[i] <= 'z' || 'A' <= s[i] <= 'Z') && low[i] == LowerChar(s[i])
    ensures SmashEach(s) == low
  {
    if s != [] {
      SmashWord(s[1..], low[1..]);
      assert low == [low[0]] + low[1..];
    }
  }

  lemma {:induction false} SmashEachAppend(a: string, b: string)
    ensures SmashEach(a + b) == SmashEach(a) + SmashEach(b)
  {
    if a == [] {
      assert a + b == b;
    } else {
      assert (a + b)[0] == a[0];
      assert (a + b)[1..] == a[1..] + b;
      SmashEachAppend(a[1..], b);
    }
  }

  /** The record of the example report: line 42, path length 3, file `foo.c`, a
      `Leak` in `Memory Error`. */
  lemma MemoryLeakRecord(path: string)
    ensures BugOf(path, map[BugLine := "42", BugPathLength := "3", BugFile := "foo.c",
                           BugCategory := "Memory Error", BugType := "Leak"])
      == Some(Bug(Some("Leak"), Some("foo.c"), 3, 42, "Memory Error", None, None, path, "bt_memory_error_leak"))
  {
    var meta := map[BugLine := "42", BugPathLength := "3", BugFile := "foo.c",
                     BugCategory := "Memory Error", BugType := "Leak"];
    MemoryLeakFields(meta);
    MemoryLeakNumbers(meta);
    MemoryErrorLeakClassEscaped();
    PlainLeak();
    PlainMemoryError();
    BugOfPlain(path, meta, "Memory Error", "Leak", 3, 42);
  }

  lemma MemoryLeakFields(meta: map<Field, string>)
    requires meta == map[BugLine := "42", BugPathLength := "3", BugFile := "foo.c",
                         BugCategory := "Memory Error", BugType := "Leak"]
    ensures Lookup(meta, BugCategory) == Some("Memory Error") && Lookup(meta, BugType) == Some("Leak")
    ensures Lookup(meta, BugFile) == Some("foo.c")
    ensures Lookup(meta, BugDesc) == None && Lookup(meta, FunctionName) == None
  {
  }

  lemma MemoryLeakNumbers(meta: map<Field, string>)
    requires meta == map[BugLine := "42", BugPathLength := "3", BugFile := "foo.c",
                         BugCategory := "Memory Error", BugType := "Leak"]
    ensures NumberOr(meta, BugLine, 0) == Some(42) && NumberOr(meta, BugPathLength, 1) == Some(3)
  {
    assert meta[BugLine] == "42" && meta[BugPathLength] == "3";
    ParseFortyTwo();
    ParseThree();
  }

  /** `BugOf` on metadata with a category and a type and valid numbers. */
  lemma BugOfPlain(path: string, meta: map<Field, string>, category: string, bugType: string, pathLength: int, line: int)
    requires Lookup(meta, BugCategory) == Some(category) && Lookup(meta, BugType) == Some(bugType)
    requires NumberOr(meta, BugPathLength, 1) == Some(pathLength) && NumberOr(meta, BugLine, 0) == Some(line)
    ensures BugOf(path, meta) == Some(Bug(Some(Escape(bugType, false)), Lookup(meta, BugFile), pathLength, line,
      Escape(category, false), Lookup(meta, BugDesc), Lookup(meta, FunctionName), path,
      Escape(ClassName(category, bugType), true)))
  {
  }

  lemma PlainLeak()
    ensures Escape("Leak", false) == "Leak"
  {
    EscapePlain("Leak", false);
  }

  lemma PlainMemoryError()
    ensures Escape("Memory Error", false) == "Memory Error"
  {
    EscapePlain("Memory Error", false);
  }

  lemma MemoryErrorLeakClassEscaped()
    ensures Escape(ClassName("Memory Error", "Leak"), true) == "bt_memory_error_leak"
  {
    MemoryErrorLeakClass();
    PlainLeakClass();
  }

  lemma PlainLeakClass()
    ensures Escape("bt_memory_error_leak", true) == "bt_memory_error_leak"
  {
    EscapePlain("bt_memory_error_leak", true);
  }

  lemma ParseFortyTwo()
    ensures ParseInt("42") == Some(42)
  {
    IntToStringRoundTrip(42);
    FortyTwoString();
  }

  lemma FortyTwoString()
    ensures IntToString(42) == "42"
  {
    assert NatToString(4) == "4";
    assert NatToString(42) == "4" + [DigitChar(2)];
  }

  lemma ParseThree()
    ensures ParseInt("3") == Some(3)
  {
    IntToStringRoundTrip(3);
    assert IntToString(3) == "3";
  }

  /** The first `'\n'`, or the length when there is none. */
  function NewlineAt(s: string): (n: nat)
    ensures n <= |s| && '\n' !in s[..n]
    ensures n < |s| ==> s[n] == '\n'
  {
    if s == [] || s[0] == '\n' then 0
    else
      var n := 1 + NewlineAt(s[1..]);
      assert s[..n] == [s[0]] + s[1..][..n - 1];
      n
  }

  /** The greatest position `j <= i` where `.info.txt` occurs in `s`. */
  function LastInfoAt(s: string, i: nat): (r: Option<nat>)
    ensures r.Some? ==> r.value <= i && OccursAt(s, ".info.txt", r.value)
    ensures r.Some? ==> forall j: nat :: r.value < j <= i ==> !OccursAt(s, ".info.txt", j)
    ensures r.None? ==> forall j: nat :: j <= i ==> !OccursAt(s, ".info.txt", j)
    decreases i
  {
    if OccursAt(s, ".info.txt", i) then Some(i)
    else if i == 0 then None
    else LastInfoAt(s, i - 1)
  }

  /** `re.match(r'(.*)\.info\.txt', filename).group(1)`: the longest start of the
      name that is followed by `.info.txt`, without crossing a newline; `None` where
      there is no match. */
  function InfoBase(filename: string): (r: Option<string>)
    ensures r.Some? ==> '\n' !in r.value && OccursAt(filename, ".info.txt", |r.value|) && r.value == filename[..|r.value|]
    ensures r.Some? ==> forall j: nat :: |r.value| < j <= NewlineAt(filename) ==> !OccursAt(filename, ".info.txt", j)
    ensures r.None? ==> forall j: nat :: j <= NewlineAt(filename) ==> !OccursAt(filename, ".info.txt", j)
  {
    var n := NewlineAt(filename);
    match LastInfoAt(filename, n)
    case None => None
    case Some(j) =>
      assert filename[..j] == filename[..n][..j];
      Some(filename[..j])
  }

  /** A one-line name ending in `.info.txt` loses exactly that ending. */
  lemma InfoBaseStripsSuffix(base: string)
    requires '\n' !in base
    ensures InfoBase(base + ".info.txt") == Some(base)
  {
    var f := base + ".info.txt";
    assert '\n' !in f;
    assert NewlineAt(f) == |f|;
    assert OccursAt(f, ".info.txt", |base|) by {
      assert f[|base|..|base| + 9] == ".info.txt";
    }
    var r := InfoBase(f).value;
    assert |r| >= |base|;
    assert |r| + 9 <= |f|;
  }

  /** The record `scan_crash` returns: the first two lines of the `.info.txt` file
      and the names of its two companions, all escaped. */
  datatype Crash = Crash(source: string, problem: string, preproc: string, stderr: string)

  /** `scan_crash(filename)` for a file with these lines; `None` where it raises (no
      `.info.txt` in the name, fewer than two lines). */
  function ScanCrash(filename: string, lines: seq<string>): (r: Option<Crash>)
    ensures r.Some? <==> InfoBase(filename).Some? && |lines| >= 2
    ensures r.Some? ==>
      && Unescape(r.value.source) == RStrip(lines[0])
      && Unescape(r.value.problem) == RStrip(lines[1])
      && Unescape(r.value.preproc) == InfoBase(filename).value
      && Unescape(r.value.stderr) == InfoBase(filename).value + ".stderr.txt"
    ensures r.Some? ==>
      && r.value.source == Escape(RStrip(lines[0]), false)
      && r.value.problem == Escape(RStrip(lines[1]), false)
      && r.value.preproc == Escape(InfoBase(filename).value, true)
      && r.value.stderr == Escape(InfoBase(filename).value + ".stderr.txt", true)
    ensures r.Some? ==>
      && '<' !in r.value.source && '>' !in r.value.source
      && '<' !in r.value.problem && '>' !in r.value.problem
      && '<' !in r.value.preproc && '>' !in r.value.preproc && '"' !in r.value.preproc
      && '<' !in r.value.stderr && '>' !in r.value.stderr && '"' !in r.value.stderr
  {
    if |lines| < 2 then None
    else match InfoBase(filename)
      case None => None
      case Some(name) =>
        UnescapeEscape(RStrip(lines[0]), false);
        UnescapeEscape(RStrip(lines[1]), false);
        UnescapeEscape(name, true);
        UnescapeEscape(name + ".stderr.txt", true);
        Some(Crash(Escape(RStrip(lines[0]), false), Escape(RStrip(lines[1]), false),
                   Escape(name, true), Escape(name + ".stderr.txt", true)))
  }

  /** For a failure file `base.info.txt`, the preprocessed output is `base` and the
      captured error output `base.stderr.txt`. */
  lemma CrashCompanions(base: string, lines: seq<string>)
    requires '\n' !in base && |lines| >= 2
    ensures ScanCrash(base + ".info.txt", lines).Some?
    ensures Unescape(ScanCrash(base + ".info.txt", lines).value.preproc) == base
    ensures Unescape(ScanCrash(base + ".info.txt", lines).value.stderr) == base + ".stderr.txt"
  {
    InfoBaseStripsSuffix(base);
  }

}
