/** `bug_fragment`: the bugs found by `scan_bug` are deduplicated by `hash_bug`,
    the first report of each key becomes a row of the bug table, and
    `update_counters` tallies it by category and type for `summary_fragment`. */
module ReportBugs {
  import opened Wrappers
  import opened Text
  import opened ReportScan
  import opened Tally

  /** `hash_bug(bug)`: line, path length and the reversed file name, separated by
      colons; `None` where `bug['bug_file']` raises because the report named no
      file. */
  function HashBug(b: Bug): Option<string> {
    match b.bugFile
    case None => None
    case Some(file) => Some(IntToString(b.line) + ":" + IntToString(b.pathLength) + ":" + Reverse(file))
  }

  /** Cutting at the first colon is unambiguous when neither head contains one. */
  lemma ColonSplit(a1: string, r1: string, a2: string, r2: string)
    requires ':' !in a1 && ':' !in a2
    requires a1 + ":" + r1 == a2 + ":" + r2
    ensures a1 == a2 && r1 == r2
  {
    var s := a1 + ":" + r1;
    assert s[|a1|] == ':';
    assert s == a2 + ":" + r2;
    assert s[|a2|] == ':';
    assert |a1| == |a2|;
    assert a1 == s[..|a1|] && a2 == s[..|a2|];
    assert r1 == s[|a1| + 1..] && r2 == s[|a2| + 1..];
  }

  /** Two reports are the same bug for `bug_fragment` exactly when they agree on
      line, path length and file. */
  lemma HashBugIdentifies(a: Bug, b: Bug)
    requires a.bugFile.Some? && b.bugFile.Some?
    ensures HashBug(a) == HashBug(b) <==>
      a.line == b.line && a.pathLength == b.pathLength && a.bugFile == b.bugFile
  {
    if HashBug(a) == HashBug(b) {
      var ra := IntToString(a.pathLength) + ":" + Reverse(a.bugFile.value);
      var rb := IntToString(b.pathLength) + ":" + Reverse(b.bugFile.value);
      HashBugShape(a);
      HashBugShape(b);
      ColonSplit(IntToString(a.line), ra, IntToString(b.line), rb);
      ColonSplit(IntToString(a.pathLength), Reverse(a.bugFile.value), IntToString(b.pathLength), Reverse(b.bugFile.value));
      IntToStringInjective(a.line, b.line);
      IntToStringInjective(a.pathLength, b.pathLength);
      ReverseInjective(a.bugFile.value, b.bugFile.value);
    }
  }

  lemma HashBugShape(b: Bug)
    requires b.bugFile.Some?
    ensures HashBug(b).value ==
      IntToString(b.line) + ":" + (IntToString(b.pathLength) + ":" + Reverse(b.bugFile.value))
  {
    var l := IntToString(b.line) + ":";
    var p := IntToString(b.pathLength) + ":";
    AppendAssoc(l, p, Reverse(b.bugFile.value));
  }

  /** The bug type `update_counters` files a row under. */
  function TypeOf(b: Bug): string {
    b.bugType.GetOr("")
  }

  /** The elements in the order of their first occurrence, each once. */
  function Distinct(xs: seq<string>): (r: seq<string>)
    ensures forall x :: x in r <==> x in xs
    ensures forall i, j :: 0 <= i < j < |r| ==> r[i] != r[j]
  {
    if xs == [] then []
    else
      var n := |xs| - 1;
      var d := Distinct(xs[..n]);
      assert xs == xs[..n] + [xs[n]];
      if xs[n] in d then d else d + [xs[n]]
  }

  lemma DistinctSnoc(xs: seq<string>, x: string)
    ensures Distinct(xs + [x]) == if x in xs then Distinct(xs) else Distinct(xs) + [x]
  {
    assert (xs + [x])[..|xs|] == xs;
  }

  /** `Distinct` lists the elements by the position of their first occurrence. */
  lemma {:induction false} DistinctFirstSeen(xs: seq<string>)
    ensures var r := Distinct(xs);
      forall i, j :: 0 <= i < j < |r| ==> IndexOf(xs, r[i]).value < IndexOf(xs, r[j]).value
    decreases |xs|
  {
    if xs != [] {
      var n := |xs| - 1;
      var p := xs[..n];
      DistinctFirstSeen(p);
      assert xs == p + [xs[n]];
      var d := Distinct(p);
      DistinctSnoc(p, xs[n]);
      forall i | 0 <= i < |d|
        ensures IndexOf(xs, d[i]) == IndexOf(p, d[i]) && IndexOf(p, d[i]).value < n
      {
        IndexOfAppend(p, xs[n], d[i]);
      }
      if xs[n] !in p {
        IndexOfAppend(p, xs[n], xs[n]);
      }
    }
  }

  /** The category of every row, in order. */
  function CategoriesOf(rows: seq<Bug>): (r: seq<string>)
    ensures |r| == |rows|
  {
    if rows == [] then [] else CategoriesOf(rows[..|rows| - 1]) + [rows[|rows| - 1].category]
  }

  /** The type of every row of one category, in order. */
  function TypesIn(rows: seq<Bug>, category: string): seq<string> {
    if rows == [] then []
    else
      var b := rows[|rows| - 1];
      TypesIn(rows[..|rows| - 1], category) + (if b.category == category then [TypeOf(b)] else [])
  }

  /** The rows of one category and type, in order. */
  function Matching(rows: seq<Bug>, category: string, bugType: string): (r: seq<Bug>)
    ensures forall k :: 0 <= k < |r| ==> r[k].category == category && TypeOf(r[k]) == bugType
  {
    if rows == [] then []
    else
      var b := rows[|rows| - 1];
      Matching(rows[..|rows| - 1], category, bugType)
        + (if b.category == category && TypeOf(b) == bugType then [b] else [])
  }

  /** What the summary should say about one category and type: as many as there
      are rows of it, under the class of the first of them. */
  function Expected(rows: seq<Bug>, category: string, bugType: string): Option<TypeTally> {
    var m := Matching(rows, category, bugType);
    if m == [] then None else Some(TypeTally(bugType, m[0].typeClass, |m|))
  }

  /** `counters` agrees with the rows of the bug table: categories and, under each,
      types in the order they first occur, every count the number of matching rows,
      every class the first matching row's, and the counts adding up to the rows. */
  ghost predicate Tallied(cs: seq<CategoryTally>, rows: seq<Bug>) {
    && CategoryNames(cs) == Distinct(CategoriesOf(rows))
    && (forall c :: TypesUnder(cs, c) == Distinct(TypesIn(rows, c)))
    && (forall c, t :: Entry(cs, c, t) == Expected(rows, c, t))
    && Total(cs) == |rows|
  }

  lemma TalliedEmpty()
    ensures Tallied([], [])
  {
  }

  /** `update_counters` keeps `counters` in agreement with the rows when the bug
      becomes a new row. */
  lemma TalliedStep(cs: seq<CategoryTally>, rows: seq<Bug>, b: Bug)
    requires Tallied(cs, rows)
    ensures Tallied(UpdateCounters(cs, b.category, TypeOf(b), b.typeClass), rows + [b])
  {
    CategoriesStep(cs, rows, b);
    TypesStepAll(cs, rows, b);
    EntriesStep(cs, rows, b);
    TotalUpdate(cs, b.category, TypeOf(b), b.typeClass);
  }

  lemma TypesStepAll(cs: seq<CategoryTally>, rows: seq<Bug>, b: Bug)
    requires forall c :: TypesUnder(cs, c) == Distinct(TypesIn(rows, c))
    ensures var cs' := UpdateCounters(cs, b.category, TypeOf(b), b.typeClass);
      forall c :: TypesUnder(cs', c) == Distinct(TypesIn(rows + [b], c))
  {
    forall c
      ensures TypesUnder(UpdateCounters(cs, b.category, TypeOf(b), b.typeClass), c) == Distinct(TypesIn(rows + [b], c))
    {
      TypesUnderUpdate(cs, b.category, TypeOf(b), b.typeClass, c);
      TypesStep(cs, rows, b, c);
    }
  }

  lemma EntriesStep(cs: seq<CategoryTally>, rows: seq<Bug>, b: Bug)
    requires forall c, t :: Entry(cs, c, t) == Expected(rows, c, t)
    ensures var cs' := UpdateCounters(cs, b.category, TypeOf(b), b.typeClass);
      forall c, t :: Entry(cs', c, t) == Expected(rows + [b], c, t)
  {
    forall c, t
      ensures Entry(UpdateCounters(cs, b.category, TypeOf(b), b.typeClass), c, t) == Expected(rows + [b], c, t)
    {
      EntryUpdate(cs, b.category, TypeOf(b), b.typeClass, c, t);
      ExpectedStep(rows, b, c, t);
    }
  }

  /** One pass of the loop keeps the counters in agreement with the rows. */
  lemma TalliedAfterStep(t: BugTally, b: Bug)
    requires Tallied(t.counters, t.rows) && Step(t, b).Some?
    ensures Tallied(Step(t, b).value.counters, Step(t, b).value.rows)
  {
    if Step(t, b).value != t {
      TalliedStep(t.counters, t.rows, b);
    }
  }

  lemma CategoriesStep(cs: seq<CategoryTally>, rows: seq<Bug>, b: Bug)
    requires CategoryNames(cs) == Distinct(CategoriesOf(rows))
    ensures CategoryNames(UpdateCounters(cs, b.category, TypeOf(b), b.typeClass)) == Distinct(CategoriesOf(rows + [b]))
  {
    assert (rows + [b])[..|rows|] == rows;
    UpdateNames(cs, b.category, TypeOf(b), b.typeClass);
    DistinctSnoc(CategoriesOf(rows), b.category);
  }

  lemma TypesStep(cs: seq<CategoryTally>, rows: seq<Bug>, b: Bug, c: string)
    requires TypesUnder(cs, c) == Distinct(TypesIn(rows, c))
    ensures TypesUnder(cs, c) + (if c != b.category || TypeOf(b) in TypesUnder(cs, c) then [] else [TypeOf(b)])
      == Distinct(TypesIn(rows + [b], c))
  {
    assert (rows + [b])[..|rows|] == rows;
    if b.category == c {
      assert TypesIn(rows + [b], c) == TypesIn(rows, c) + [TypeOf(b)];
      DistinctSnoc(TypesIn(rows, c), TypeOf(b));
    } else {
      assert TypesIn(rows + [b], c) == TypesIn(rows, c);
    }
  }

  lemma ExpectedStep(rows: seq<Bug>, b: Bug, c: string, t: string)
    ensures var e := Expected(rows, c, t);
      Expected(rows + [b], c, t) ==
        if (c, t) != (b.category, TypeOf(b)) then e
        else Some(Counted(e, TypeOf(b), b.typeClass))
  {
    assert (rows + [b])[..|rows|] == rows;
    var m := Matching(rows, c, t);
    if (c, t) == (b.category, TypeOf(b)) {
      assert Matching(rows + [b], c, t) == m + [b];
      if m != [] {
        assert (m + [b])[0] == m[0];
      }
    } else {
      assert Matching(rows + [b], c, t) == m;
    }
  }

  /** The keys of the reports that have one. */
  function KeySet(bugs: seq<Bug>): set<string> {
    set k | 0 <= k < |bugs| && HashBug(bugs[k]).Some? :: HashBug(bugs[k]).value
  }

  lemma KeySetSnoc(bugs: seq<Bug>, b: Bug)
    ensures KeySet(bugs + [b]) == KeySet(bugs) + (match HashBug(b) case None => {} case Some(h) => {h})
  {
    var s := bugs + [b];
    forall h | h in KeySet(bugs)
      ensures h in KeySet(s)
    {
      var k :| 0 <= k < |bugs| && HashBug(bugs[k]) == Some(h);
      assert s[k] == bugs[k];
    }
    forall h | h in KeySet(s)
      ensures h in KeySet(bugs) || HashBug(b) == Some(h)
    {
      var k :| 0 <= k < |s| && HashBug(s[k]) == Some(h);
      if k < |bugs| {
        assert s[k] == bugs[k];
      }
    }
    if HashBug(b).Some? {
      assert s[|bugs|] == b;
    }
  }

  /** The keys, and so the number of distinct bugs, do not depend on the order in
      which the reports arrive. */
  lemma KeySetUnordered(a: seq<Bug>, b: seq<Bug>)
    requires multiset(a) == multiset(b)
    ensures KeySet(a) == KeySet(b)
  {
    forall h | h in KeySet(a)
      ensures h in KeySet(b)
    {
      var k :| 0 <= k < |a| && HashBug(a[k]) == Some(h);
      assert a[k] in multiset(b);
      var j :| 0 <= j < |b| && b[j] == a[k];
    }
    forall h | h in KeySet(b)
      ensures h in KeySet(a)
    {
      var k :| 0 <= k < |b| && HashBug(b[k]) == Some(h);
      assert b[k] in multiset(a);
      var j :| 0 <= j < |a| && a[j] == b[k];
    }
  }

  /** The first report of each key, in order: the rows of the bug table. */
  function FirstOfEach(bugs: seq<Bug>): seq<Bug> {
    if bugs == [] then []
    else
      var n := |bugs| - 1;
      var h := HashBug(bugs[n]);
      if h.Some? && h.value !in KeySet(bugs[..n]) then FirstOfEach(bugs[..n]) + [bugs[n]]
      else FirstOfEach(bugs[..n])
  }

  /** The table holds one report per key, every key of the input, and nothing but
      reports of the input. */
  lemma {:induction false} FirstOfEachSpec(bugs: seq<Bug>)
    ensures var r := FirstOfEach(bugs);
      && KeySet(r) == KeySet(bugs)
      && (forall k :: 0 <= k < |r| ==> HashBug(r[k]).Some? && r[k] in bugs)
      && (forall i, j :: 0 <= i < j < |r| ==> HashBug(r[i]) != HashBug(r[j]))
    decreases |bugs|
  {
    if bugs != [] {
      var n := |bugs| - 1;
      var p := bugs[..n];
      FirstOfEachSpec(p);
      assert bugs == p + [bugs[n]];
      KeySetSnoc(p, bugs[n]);
      var h := HashBug(bugs[n]);
      if h.Some? && h.value !in KeySet(p) {
        KeySetSnoc(FirstOfEach(p), bugs[n]);
      }
    }
  }

  /** The state of `bug_fragment` after some reports: `uniques`, `counters` and
      the rows written to the table. */
  datatype BugTally = BugTally(uniques: set<string>, counters: seq<CategoryTally>, rows: seq<Bug>)

  /** One pass of `bug_fragment`'s loop; `None` where `hash_bug` raises (no file)
      or `update_counters` does (a new key without a bug type). */
  function Step(t: BugTally, b: Bug): Option<BugTally> {
    match HashBug(b)
    case None => None
    case Some(h) =>
      if h in t.uniques then Some(t)
      else if b.bugType.None? then None
      else Some(BugTally(t.uniques + {h}, UpdateCounters(t.counters, b.category, TypeOf(b), b.typeClass), t.rows + [b]))
  }

  /** The state after all the reports, in the order they arrive. */
  function Aggregate(bugs: seq<Bug>): Option<BugTally> {
    if bugs == [] then Some(BugTally({}, [], []))
    else
      match Aggregate(bugs[..|bugs| - 1])
      case None => None
      case Some(t) => Step(t, bugs[|bugs| - 1])
  }

  /** Report `k` is where `bug_fragment` raises if it gets that far. */
  predicate FailsAt(bugs: seq<Bug>, k: nat)
    requires k < |bugs|
  {
    HashBug(bugs[k]).None? || (bugs[k].bugType.None? && HashBug(bugs[k]).value !in KeySet(bugs[..k]))
  }

  /** `bug_fragment` fails exactly when some report has no file, or introduces a new
      key without a bug type; otherwise it has seen every key once, written the
      first report of each as a row, and its counters agree with those rows. */
  lemma AggregateSpec(bugs: seq<Bug>)
    ensures Aggregate(bugs).None? <==> exists k :: 0 <= k < |bugs| && FailsAt(bugs, k)
    ensures Aggregate(bugs).Some? ==> var t := Aggregate(bugs).value;
      && t.uniques == KeySet(bugs)
      && t.rows == FirstOfEach(bugs)
      && |t.uniques| == |t.rows|
      && Tallied(t.counters, t.rows)
  {
    AggregateFails(bugs);
    if Aggregate(bugs).Some? {
      AggregateState(bugs);
    }
  }

  lemma {:induction false} AggregateFails(bugs: seq<Bug>)
    ensures Aggregate(bugs).None? <==> exists k :: 0 <= k < |bugs| && FailsAt(bugs, k)
    ensures Aggregate(bugs).Some? ==> Aggregate(bugs).value.uniques == KeySet(bugs)
    decreases |bugs|
  {
    if bugs != [] {
      var n := |bugs| - 1;
      var p := bugs[..n];
      AggregateFails(p);
      forall k | 0 <= k < n
        ensures FailsAt(bugs, k) == FailsAt(p, k)
      {
        assert bugs[..k] == p[..k];
      }
      assert bugs == p + [bugs[n]];
      KeySetSnoc(p, bugs[n]);
      if Aggregate(p).Some? {
        FailsLast(bugs, p);
      }
    }
  }

  lemma AggregateState(bugs: seq<Bug>)
    requires Aggregate(bugs).Some?
    ensures var t := Aggregate(bugs).value;
      && t.rows == FirstOfEach(bugs)
      && |t.uniques| == |t.rows|
      && Tallied(t.counters, t.rows)
  {
    AggregateRows(bugs);
    AggregateTallied(bugs);
  }

  lemma {:induction false} AggregateRows(bugs: seq<Bug>)
    requires Aggregate(bugs).Some?
    ensures var t := Aggregate(bugs).value;
      t.rows == FirstOfEach(bugs) && |t.uniques| == |t.rows|
    decreases |bugs|
  {
    if bugs != [] {
      var n := |bugs| - 1;
      var p := bugs[..n];
      AggregateRows(p);
      AggregateFails(p);
    }
  }

  lemma {:induction false} AggregateTallied(bugs: seq<Bug>)
    requires Aggregate(bugs).Some?
    ensures var t := Aggregate(bugs).value; Tallied(t.counters, t.rows)
    decreases |bugs|
  {
    if bugs == [] {
      TalliedEmpty();
    } else {
      var n := |bugs| - 1;
      var p := bugs[..n];
      AggregateTallied(p);
      TalliedAfterStep(Aggregate(p).value, bugs[n]);
    }
  }

  /** After a prefix that went through, only the last report can fail. */
  lemma FailsLast(bugs: seq<Bug>, p: seq<Bug>)
    requires bugs != [] && p == bugs[..|bugs| - 1]
    requires forall k :: 0 <= k < |p| ==> !FailsAt(p, k)
    requires forall k :: 0 <= k < |p| ==> FailsAt(bugs, k) == FailsAt(p, k)
    ensures (exists k :: 0 <= k < |bugs| && FailsAt(bugs, k)) <==> FailsAt(bugs, |bugs| - 1)
  {
  }

  /** A report whose key was seen already changes nothing. */
  lemma DuplicateIgnored(bugs: seq<Bug>, b: Bug)
    requires Aggregate(bugs).Some?
    requires HashBug(b).Some? && HashBug(b).value in KeySet(bugs)
    ensures Aggregate(bugs + [b]) == Aggregate(bugs)
  {
    AggregateSpec(bugs);
    assert (bugs + [b])[..|bugs|] == bugs;
    assert HashBug(b).value in Aggregate(bugs).value.uniques;
  }

  /** `bug_fragment`'s loop over the scanned reports: skip a key seen before,
      otherwise record it, count it and write its row. */
  method BugFragment(bugs: seq<Bug>) returns (r: Option<BugTally>)
    ensures r == Aggregate(bugs)
  {
    var uniques: set<string> := {};
    var counters: seq<CategoryTally> := [];
    var rows: seq<Bug> := [];
    var i := 0;
    while i < |bugs|
      invariant i <= |bugs|
      invariant Aggregate(bugs[..i]) == Some(BugTally(uniques, counters, rows))
    {
      var current := bugs[i];
      AggregateNext(bugs, i, BugTally(uniques, counters, rows));
      match HashBug(current)
      case None =>
        StuckStaysStuck(bugs, i + 1);
        return None;
      case Some(bugHash) =>
        if bugHash !in uniques {
          uniques := uniques + {bugHash};
          if current.bugType.None? {
            StuckStaysStuck(bugs, i + 1);
            return None;
          }
          counters := UpdateCounters(counters, current.category, TypeOf(current), current.typeClass);
          rows := rows + [current];
        }
      i := i + 1;
    }
    assert bugs[..i] == bugs;
    r := Some(BugTally(uniques, counters, rows));
  }

  lemma AggregateNext(bugs: seq<Bug>, i: nat, t: BugTally)
    requires i < |bugs| && Aggregate(bugs[..i]) == Some(t)
    ensures Aggregate(bugs[..i + 1]) == Step(t, bugs[i])
  {
    assert bugs[..i + 1][..i] == bugs[..i];
  }

  /** Once the loop has raised, more reports do not bring it back. */
  lemma {:induction false} StuckStaysStuck(bugs: seq<Bug>, i: nat)
    requires i <= |bugs| && Aggregate(bugs[..i]).None?
    ensures Aggregate(bugs).None?
    decreases |bugs| - i
  {
    if i < |bugs| {
      assert bugs[..i + 1][..i] == bugs[..i];
      StuckStaysStuck(bugs, i + 1);
    } else {
      assert bugs[..i] == bugs;
    }
  }

  /** A row of the summary table. */
  datatype SummaryRow =
    | AllBugs(count: nat)
    | CategoryHeader(category: string)
    | TypeRow(bugType: string, count: nat, typeClass: string)

  /** The rows for one category's types, in dictionary order. */
  function TypeRows(types: seq<TypeTally>): (r: seq<SummaryRow>)
    ensures |r| == |types|
    ensures forall k :: 0 <= k < |r| ==> r[k] == TypeRow(types[k].bugType, types[k].count, types[k].typeClass)
  {
    if types == [] then []
    else TypeRows(types[..|types| - 1]) + [var e := types[|types| - 1]; TypeRow(e.bugType, e.count, e.typeClass)]
  }

  /** A header row per category followed by its type rows, in dictionary order. */
  function CategoryRows(cs: seq<CategoryTally>): seq<SummaryRow> {
    if cs == [] then []
    else
      var c := cs[|cs| - 1];
      CategoryRows(cs[..|cs| - 1]) + [CategoryHeader(c.category)] + TypeRows(c.types)
  }

  /** The summary table `summary_fragment` writes ahead of the bug table. */
  function SummaryRows(cs: seq<CategoryTally>, count: nat): seq<SummaryRow> {
    [AllBugs(count)] + CategoryRows(cs)
  }

  /** The sum of the quantities of the type rows. */
  function Quantities(rows: seq<SummaryRow>): nat {
    if rows == [] then 0
    else Quantities(rows[..|rows| - 1]) + (if rows[|rows| - 1].TypeRow? then rows[|rows| - 1].count else 0)
  }

  /** The categories named by the header rows, in order. */
  function Headers(rows: seq<SummaryRow>): seq<string> {
    if rows == [] then []
    else Headers(rows[..|rows| - 1]) + (if rows[|rows| - 1].CategoryHeader? then [rows[|rows| - 1].category] else [])
  }

  lemma {:induction false} QuantitiesAppend(a: seq<SummaryRow>, b: seq<SummaryRow>)
    ensures Quantities(a + b) == Quantities(a) + Quantities(b)
    ensures Headers(a + b) == Headers(a) + Headers(b)
    decreases |b|
  {
    if b != [] {
      var n := |b| - 1;
      assert (a + b)[..|a + b| - 1] == a + b[..n];
      QuantitiesAppend(a, b[..n]);
    } else {
      assert a + b == a;
    }
  }

  lemma {:induction false} TypeRowsSum(types: seq<TypeTally>)
    ensures Quantities(TypeRows(types)) == TypeTotal(types)
    ensures Headers(TypeRows(types)) == []
    decreases |types|
  {
    if types != [] {
      var n := |types| - 1;
      TypeRowsSum(types[..n]);
      var e := types[n];
      QuantitiesAppend(TypeRows(types[..n]), [TypeRow(e.bugType, e.count, e.typeClass)]);
    }
  }

  /** The type rows add up to the sum of the counters, and the headers name the
      categories in the counters' order. */
  lemma {:induction false} CategoryRowsSum(cs: seq<CategoryTally>)
    ensures Quantities(CategoryRows(cs)) == Total(cs)
    ensures Headers(CategoryRows(cs)) == CategoryNames(cs)
    decreases |cs|
  {
    if cs != [] {
      var n := |cs| - 1;
      var c := cs[n];
      CategoryRowsSum(cs[..n]);
      TypeRowsSum(c.types);
      QuantitiesAppend(CategoryRows(cs[..n]), [CategoryHeader(c.category)]);
      QuantitiesAppend(CategoryRows(cs[..n]) + [CategoryHeader(c.category)], TypeRows(c.types));
      assert Headers([CategoryHeader(c.category)]) == [c.category];
    }
  }

  /** In the summary of a run, the "All Bugs" quantity is the number of rows of the
      bug table and the sum of the per-type quantities, and the categories appear
      in the order their first bug arrived. */
  lemma SummaryAgrees(bugs: seq<Bug>)
    requires Aggregate(bugs).Some?
    ensures var t := Aggregate(bugs).value;
      var rows := SummaryRows(t.counters, |t.uniques|);
      && rows[0] == AllBugs(|t.rows|)
      && Quantities(rows) == |t.uniques|
      && Headers(rows) == Distinct(CategoriesOf(FirstOfEach(bugs)))
  {
    AggregateSpec(bugs);
    var t := Aggregate(bugs).value;
    CategoryRowsSum(t.counters);
    QuantitiesAppend([AllBugs(|t.uniques|)], CategoryRows(t.counters));
    assert Quantities([AllBugs(|t.uniques|)]) == 0;
    assert Headers([AllBugs(|t.uniques|)]) == [];
  }

  /** `summary_fragment`: the "All Bugs" row, then for every category its header
      and a row per type. */
  method SummaryFragment(counters: seq<CategoryTally>, tailCount: nat) returns (rows: seq<SummaryRow>)
    ensures rows == SummaryRows(counters, tailCount)
  {
    rows := [AllBugs(tailCount)];
    var i := 0;
    while i < |counters|
      invariant i <= |counters|
      invariant rows == [AllBugs(tailCount)] + CategoryRows(counters[..i])
    {
      var c := counters[i];
      rows := rows + [CategoryHeader(c.category)];
      ghost var start := rows;
      var j := 0;
      while j < |c.types|
        invariant j <= |c.types|
        invariant rows == start + TypeRows(c.types[..j])
      {
        var e := c.types[j];
        TypeRowsSnoc(c.types, j);
        AppendAssoc(start, TypeRows(c.types[..j]), [TypeRow(e.bugType, e.count, e.typeClass)]);
        rows := rows + [TypeRow(e.bugType, e.count, e.typeClass)];
        j := j + 1;
      }
      WholePrefix(c.types, j);
      CategoryRowsSnoc(counters, i);
      AppendAssoc([AllBugs(tailCount)] + CategoryRows(counters[..i]), [CategoryHeader(c.category)], TypeRows(c.types));
      AppendAssoc([AllBugs(tailCount)], CategoryRows(counters[..i]) + [CategoryHeader(c.category)], TypeRows(c.types));
      AppendAssoc([AllBugs(tailCount)], CategoryRows(counters[..i]), [CategoryHeader(c.category)]);
      i := i + 1;
    }
    WholePrefix(counters, i);
  }

  lemma TypeRowsSnoc(types: seq<TypeTally>, j: nat)
    requires j < |types|
    ensures TypeRows(types[..j + 1])
      == TypeRows(types[..j]) + [TypeRow(types[j].bugType, types[j].count, types[j].typeClass)]
  {
    var p := types[..j + 1];
    assert p[..|p| - 1] == types[..j];
  }

  lemma CategoryRowsSnoc(cs: seq<CategoryTally>, i: nat)
    requires i < |cs|
    ensures CategoryRows(cs[..i + 1])
      == CategoryRows(cs[..i]) + [CategoryHeader(cs[i].category)] + TypeRows(cs[i].types)
  {
    var p := cs[..i + 1];
    assert p[..|p| - 1] == cs[..i];
  }
}
