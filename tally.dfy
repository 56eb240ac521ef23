/** The `counters` dictionary of `bug_fragment` (category -> bug type -> entry) and
    what `update_counters` does to it. Python dictionaries keep their keys in
    insertion order, so each level is a sequence of entries; updating an existing
    key keeps its place and a new key goes last. */
module Tally {
  import opened Wrappers

  /** `{'bug_type': …, 'bug_type_class': …, 'bug_count': …}`. */
  datatype TypeTally = TypeTally(bugType: string, typeClass: string, count: nat)

  /** One category key of `counters` with its dictionary of types. */
  datatype CategoryTally = CategoryTally(category: string, types: seq<TypeTally>)

  /** The position of the first `x` in `xs`. */
  function IndexOf(xs: seq<string>, x: string): (r: Option<nat>)
    ensures r.None? <==> x !in xs
    ensures r.Some? ==> r.value < |xs| && xs[r.value] == x
    ensures r.Some? ==> forall i :: 0 <= i < r.value ==> xs[i] != x
  {
    if xs == [] then None
    else if xs[0] == x then Some(0)
    else
      match IndexOf(xs[1..], x)
      case None => None
      case Some(i) => Some(i + 1)
  }

  lemma IndexOfAppend(xs: seq<string>, y: string, x: string)
    ensures IndexOf(xs + [y], x) ==
      if x in xs then IndexOf(xs, x) else if x == y then Some(|xs|) else None
  {
    var r := IndexOf(xs + [y], x);
    if x in xs {
      var i := IndexOf(xs, x).value;
      IndexOfUnique(xs + [y], x, i);
    } else if x == y {
      assert (xs + [y])[..|xs|] == xs;
      IndexOfUnique(xs + [y], x, |xs|);
    }
  }

  /** The first position is the only position before which `x` does not occur. */
  lemma IndexOfUnique(xs: seq<string>, x: string, i: nat)
    requires i < |xs| && xs[i] == x && forall k :: 0 <= k < i ==> xs[k] != x
    ensures IndexOf(xs, x) == Some(i)
  {
  }

  /** The keys of a dictionary of types, in order. */
  function TypeNames(types: seq<TypeTally>): (r: seq<string>)
    ensures |r| == |types| && forall k :: 0 <= k < |r| ==> r[k] == types[k].bugType
  {
    if types == [] then [] else TypeNames(types[..|types| - 1]) + [types[|types| - 1].bugType]
  }

  /** The keys of `counters`, in order. */
  function CategoryNames(cs: seq<CategoryTally>): (r: seq<string>)
    ensures |r| == |cs| && forall k :: 0 <= k < |r| ==> r[k] == cs[k].category
  {
    if cs == [] then [] else CategoryNames(cs[..|cs| - 1]) + [cs[|cs| - 1].category]
  }

  /** `current_type.update({'bug_count': current_type['bug_count'] + 1})` after
      `current_category.get(bug_type, <new entry with count 0>)`, written back with
      `current_category.update({bug_type: current_type})`. */
  function Bump(types: seq<TypeTally>, bugType: string, typeClass: string): seq<TypeTally> {
    match IndexOf(TypeNames(types), bugType)
    case None => types + [TypeTally(bugType, typeClass, 1)]
    case Some(j) => types[j := types[j].(count := types[j].count + 1)]
  }

  /** `update_counters(counters, bug)` for a bug of this category, type and class. */
  function UpdateCounters(cs: seq<CategoryTally>, category: string, bugType: string, typeClass: string): seq<CategoryTally> {
    match IndexOf(CategoryNames(cs), category)
    case None => cs + [CategoryTally(category, Bump([], bugType, typeClass))]
    case Some(i) => cs[i := cs[i].(types := Bump(cs[i].types, bugType, typeClass))]
  }

  /** The type keys under `category`, empty when the category is absent. */
  function TypesUnder(cs: seq<CategoryTally>, category: string): seq<string> {
    match IndexOf(CategoryNames(cs), category)
    case None => []
    case Some(i) => TypeNames(cs[i].types)
  }

  /** The entry `types[bugType]` of one category's dictionary, if there is one. */
  function EntryIn(types: seq<TypeTally>, bugType: string): Option<TypeTally> {
    match IndexOf(TypeNames(types), bugType)
    case None => None
    case Some(j) => Some(types[j])
  }

  /** The entry `counters[category][bugType]`, if there is one. */
  function Entry(cs: seq<CategoryTally>, category: string, bugType: string): Option<TypeTally> {
    match IndexOf(CategoryNames(cs), category)
    case None => None
    case Some(i) => EntryIn(cs[i].types, bugType)
  }

  /** The entry after one more bug of this type: the old entry with its count
      raised by one, or a new entry with count 1 and the bug's class. */
  function Counted(e: Option<TypeTally>, bugType: string, typeClass: string): TypeTally {
    match e
    case None => TypeTally(bugType, typeClass, 1)
    case Some(x) => x.(count := x.count + 1)
  }

  /** `counters[category][bugType]['bug_count']`, 0 when absent. */
  function CountOf(cs: seq<CategoryTally>, category: string, bugType: string): nat {
    match Entry(cs, category, bugType)
    case None => 0
    case Some(e) => e.count
  }

  /** The sum of the counts of a dictionary of types. */
  function TypeTotal(types: seq<TypeTally>): nat {
    if types == [] then 0 else TypeTotal(types[..|types| - 1]) + types[|types| - 1].count
  }

  /** The sum of every `bug_count` in `counters`. */
  function Total(cs: seq<CategoryTally>): nat {
    if cs == [] then 0 else Total(cs[..|cs| - 1]) + TypeTotal(cs[|cs| - 1].types)
  }

  lemma {:induction false} TypeTotalSet(types: seq<TypeTally>, j: nat, e: TypeTally)
    requires j < |types|
    ensures TypeTotal(types[j := e]) == TypeTotal(types) - types[j].count + e.count
    decreases |types|
  {
    var n := |types| - 1;
    var r := types[j := e];
    assert r[..n] == if j < n then types[..n][j := e] else types[..n];
    if j < n {
      TypeTotalSet(types[..n], j, e);
    }
  }

  lemma {:induction false} TotalSet(cs: seq<CategoryTally>, i: nat, c: CategoryTally)
    requires i < |cs|
    ensures Total(cs[i := c]) == Total(cs) - TypeTotal(cs[i].types) + TypeTotal(c.types)
    decreases |cs|
  {
    var n := |cs| - 1;
    var r := cs[i := c];
    assert r[..n] == if i < n then cs[..n][i := c] else cs[..n];
    if i < n {
      TotalSet(cs[..n], i, c);
    }
  }

  lemma BumpNew(types: seq<TypeTally>, bugType: string, typeClass: string)
    requires IndexOf(TypeNames(types), bugType).None?
    ensures Bump(types, bugType, typeClass) == types + [TypeTally(bugType, typeClass, 1)]
  {
  }

  lemma BumpOld(types: seq<TypeTally>, bugType: string, typeClass: string, j: nat)
    requires IndexOf(TypeNames(types), bugType) == Some(j)
    ensures Bump(types, bugType, typeClass) == types[j := types[j].(count := types[j].count + 1)]
  {
  }

  lemma UpdateNew(cs: seq<CategoryTally>, category: string, bugType: string, typeClass: string)
    requires IndexOf(CategoryNames(cs), category).None?
    ensures UpdateCounters(cs, category, bugType, typeClass) == cs + [CategoryTally(category, [TypeTally(bugType, typeClass, 1)])]
  {
    BumpNew([], bugType, typeClass);
    assert [] + [TypeTally(bugType, typeClass, 1)] == [TypeTally(bugType, typeClass, 1)];
  }

  lemma UpdateOld(cs: seq<CategoryTally>, category: string, bugType: string, typeClass: string, i: nat)
    requires IndexOf(CategoryNames(cs), category) == Some(i)
    ensures UpdateCounters(cs, category, bugType, typeClass) == cs[i := cs[i].(types := Bump(cs[i].types, bugType, typeClass))]
  {
  }

  /** A new type key goes last; an existing one keeps its place. */
  lemma BumpNames(types: seq<TypeTally>, bugType: string, typeClass: string)
    ensures TypeNames(Bump(types, bugType, typeClass)) ==
      if bugType in TypeNames(types) then TypeNames(types) else TypeNames(types) + [bugType]
  {
    match IndexOf(TypeNames(types), bugType)
    case None =>
      BumpNew(types, bugType, typeClass);
      TypeNamesAppend(types, TypeTally(bugType, typeClass, 1));
    case Some(j) =>
      BumpOld(types, bugType, typeClass, j);
      TypeNamesOfSet(types, j, 1);
  }

  lemma TypeNamesAppend(types: seq<TypeTally>, e: TypeTally)
    ensures TypeNames(types + [e]) == TypeNames(types) + [e.bugType]
  {
    assert (types + [e])[..|types|] == types;
  }

  /** A new category key goes last; an existing one keeps its place. */
  lemma UpdateNames(cs: seq<CategoryTally>, category: string, bugType: string, typeClass: string)
    ensures CategoryNames(UpdateCounters(cs, category, bugType, typeClass)) ==
      if category in CategoryNames(cs) then CategoryNames(cs) else CategoryNames(cs) + [category]
  {
    match IndexOf(CategoryNames(cs), category)
    case None =>
      var r := cs + [CategoryTally(category, Bump([], bugType, typeClass))];
      assert r[..|r| - 1] == cs;
    case Some(i) =>
      CategoryNamesOfSet(cs, i, Bump(cs[i].types, bugType, typeClass));
  }

  lemma TypeTotalAppend(types: seq<TypeTally>, e: TypeTally)
    ensures TypeTotal(types + [e]) == TypeTotal(types) + e.count
  {
    assert (types + [e])[..|types|] == types;
  }

  lemma TotalAppend(cs: seq<CategoryTally>, c: CategoryTally)
    ensures Total(cs + [c]) == Total(cs) + TypeTotal(c.types)
  {
    assert (cs + [c])[..|cs|] == cs;
  }

  /** Each bump adds one to the type dictionary's sum. */
  lemma TypeTotalBump(types: seq<TypeTally>, bugType: string, typeClass: string)
    ensures TypeTotal(Bump(types, bugType, typeClass)) == TypeTotal(types) + 1
  {
    match IndexOf(TypeNames(types), bugType)
    case None =>
      BumpNew(types, bugType, typeClass);
      TypeTotalAppend(types, TypeTally(bugType, typeClass, 1));
    case Some(j) =>
      BumpOld(types, bugType, typeClass, j);
      TypeTotalSet(types, j, types[j].(count := types[j].count + 1));
  }

  /** Each call of `update_counters` adds exactly one to the sum of all counts. */
  lemma TotalUpdate(cs: seq<CategoryTally>, category: string, bugType: string, typeClass: string)
    ensures Total(UpdateCounters(cs, category, bugType, typeClass)) == Total(cs) + 1
  {
    match IndexOf(CategoryNames(cs), category)
    case None =>
      UpdateNew(cs, category, bugType, typeClass);
      TotalAppend(cs, CategoryTally(category, [TypeTally(bugType, typeClass, 1)]));
      TypeTotalAppend([], TypeTally(bugType, typeClass, 1));
    case Some(i) =>
      UpdateOld(cs, category, bugType, typeClass, i);
      TypeTotalBump(cs[i].types, bugType, typeClass);
      TotalSet(cs, i, cs[i].(types := Bump(cs[i].types, bugType, typeClass)));
  }

  /** Changing a count leaves the keys as they were. */
  lemma TypeNamesOfSet(types: seq<TypeTally>, j: nat, extra: nat)
    requires j < |types|
    ensures TypeNames(types[j := types[j].(count := types[j].count + extra)]) == TypeNames(types)
  {
  }

  /** Changing a category's types leaves the keys as they were. */
  lemma CategoryNamesOfSet(cs: seq<CategoryTally>, i: nat, types: seq<TypeTally>)
    requires i < |cs|
    ensures CategoryNames(cs[i := cs[i].(types := types)]) == CategoryNames(cs)
  {
  }

  lemma EntryInAppend(types: seq<TypeTally>, e: TypeTally, t: string)
    requires e.bugType !in TypeNames(types)
    ensures EntryIn(types + [e], t) == if t == e.bugType then Some(e) else EntryIn(types, t)
  {
    TypeNamesAppend(types, e);
    IndexOfAppend(TypeNames(types), e.bugType, t);
  }

  lemma EntryInSet(types: seq<TypeTally>, j: nat, extra: nat, t: string)
    requires j < |types|
    ensures var r := types[j := types[j].(count := types[j].count + extra)];
      EntryIn(r, t) == if IndexOf(TypeNames(types), t) == Some(j) then Some(r[j]) else EntryIn(types, t)
  {
    TypeNamesOfSet(types, j, extra);
  }

  lemma EntryAppend(cs: seq<CategoryTally>, x: CategoryTally, c: string, t: string)
    requires x.category !in CategoryNames(cs)
    ensures Entry(cs + [x], c, t) == if c == x.category then EntryIn(x.types, t) else Entry(cs, c, t)
  {
    var r := cs + [x];
    assert r[..|cs|] == cs;
    assert CategoryNames(r) == CategoryNames(cs) + [x.category];
    IndexOfAppend(CategoryNames(cs), x.category, c);
  }

  lemma EntrySet(cs: seq<CategoryTally>, i: nat, types: seq<TypeTally>, c: string, t: string)
    requires i < |cs|
    ensures Entry(cs[i := cs[i].(types := types)], c, t) ==
      if IndexOf(CategoryNames(cs), c) == Some(i) then EntryIn(types, t) else Entry(cs, c, t)
  {
    CategoryNamesOfSet(cs, i, types);
  }

  /** `Bump` creates the entry for a new type with the given class and count 1, adds
      one to the count of an existing one (its class unchanged), and leaves every
      other type's entry alone. */
  lemma BumpEntry(types: seq<TypeTally>, bugType: string, typeClass: string, t: string)
    ensures var e := EntryIn(types, t);
      EntryIn(Bump(types, bugType, typeClass), t) ==
        if t != bugType then e
        else Some(Counted(e, bugType, typeClass))
  {
    match IndexOf(TypeNames(types), bugType)
    case None =>
      BumpNew(types, bugType, typeClass);
      EntryInAppend(types, TypeTally(bugType, typeClass, 1), t);
    case Some(j) =>
      BumpOld(types, bugType, typeClass, j);
      EntryInSet(types, j, 1, t);
  }

  /** What `update_counters` does to every entry: the bug's entry gains one, or
      is created with count 1 and the bug's class; every other entry is unchanged. */
  lemma EntryUpdate(cs: seq<CategoryTally>, category: string, bugType: string, typeClass: string, c: string, t: string)
    ensures var e := Entry(cs, c, t);
      Entry(UpdateCounters(cs, category, bugType, typeClass), c, t) ==
        if (c, t) != (category, bugType) then e
        else Some(Counted(e, bugType, typeClass))
  {
    match IndexOf(CategoryNames(cs), category)
    case None => EntryNewCategory(cs, category, bugType, typeClass, c, t);
    case Some(i) => EntryOldCategory(cs, category, bugType, typeClass, i, c, t);
  }

  lemma EntryNewCategory(cs: seq<CategoryTally>, category: string, bugType: string, typeClass: string, c: string, t: string)
    requires IndexOf(CategoryNames(cs), category).None?
    ensures Entry(UpdateCounters(cs, category, bugType, typeClass), c, t) ==
      if c != category then Entry(cs, c, t)
      else if t == bugType then Some(TypeTally(bugType, typeClass, 1))
      else None
    ensures c == category ==> Entry(cs, c, t).None?
  {
    var e := TypeTally(bugType, typeClass, 1);
    UpdateNew(cs, category, bugType, typeClass);
    EntryAppend(cs, CategoryTally(category, [e]), c, t);
    EntryInAppend([], e, t);
    assert [] + [e] == [e];
  }

  lemma EntryOldCategory(cs: seq<CategoryTally>, category: string, bugType: string, typeClass: string, i: nat, c: string, t: string)
    requires IndexOf(CategoryNames(cs), category) == Some(i)
    ensures var e := Entry(cs, c, t);
      Entry(UpdateCounters(cs, category, bugType, typeClass), c, t) ==
        if (c, t) != (category, bugType) then e
        else Some(Counted(e, bugType, typeClass))
  {
    EntryAfterOld(cs, category, bugType, typeClass, i, c, t);
    if c == category {
      assert Entry(cs, c, t) == EntryIn(cs[i].types, t);
      BumpEntry(cs[i].types, bugType, typeClass, t);
    }
  }

  lemma EntryAfterOld(cs: seq<CategoryTally>, category: string, bugType: string, typeClass: string, i: nat, c: string, t: string)
    requires IndexOf(CategoryNames(cs), category) == Some(i)
    ensures Entry(UpdateCounters(cs, category, bugType, typeClass), c, t) ==
      if c == category then EntryIn(Bump(cs[i].types, bugType, typeClass), t) else Entry(cs, c, t)
  {
    var types := Bump(cs[i].types, bugType, typeClass);
    UpdateOld(cs, category, bugType, typeClass, i);
    EntrySet(cs, i, types, c, t);
  }

  /** What `update_counters` does to the type keys under each category: a new type
      goes last under its category, nothing else changes. */
  lemma TypesUnderUpdate(cs: seq<CategoryTally>, category: string, bugType: string, typeClass: string, c: string)
    ensures TypesUnder(UpdateCounters(cs, category, bugType, typeClass), c) ==
      if c != category || bugType in TypesUnder(cs, c) then TypesUnder(cs, c)
      else TypesUnder(cs, c) + [bugType]
  {
    match IndexOf(CategoryNames(cs), category)
    case None => TypesUnderNewCategory(cs, category, bugType, typeClass, c);
    case Some(i) => TypesUnderOldCategory(cs, category, bugType, typeClass, i, c);
  }

  lemma TypesUnderNewCategory(cs: seq<CategoryTally>, category: string, bugType: string, typeClass: string, c: string)
    requires IndexOf(CategoryNames(cs), category).None?
    ensures TypesUnder(UpdateCounters(cs, category, bugType, typeClass), c) ==
      if c != category then TypesUnder(cs, c) else [bugType]
    ensures c == category ==> TypesUnder(cs, c) == []
  {
    var x := CategoryTally(category, [TypeTally(bugType, typeClass, 1)]);
    UpdateNew(cs, category, bugType, typeClass);
    var r := cs + [x];
    assert r[..|cs|] == cs;
    assert CategoryNames(r) == CategoryNames(cs) + [category];
    IndexOfAppend(CategoryNames(cs), category, c);
    assert TypeNames([TypeTally(bugType, typeClass, 1)]) == [bugType];
  }

  lemma TypesUnderOldCategory(cs: seq<CategoryTally>, category: string, bugType: string, typeClass: string, i: nat, c: string)
    requires IndexOf(CategoryNames(cs), category) == Some(i)
    ensures TypesUnder(UpdateCounters(cs, category, bugType, typeClass), c) ==
      if c != category || bugType in TypesUnder(cs, c) then TypesUnder(cs, c)
      else TypesUnder(cs, c) + [bugType]
  {
    var types := Bump(cs[i].types, bugType, typeClass);
    var r := UpdateCounters(cs, category, bugType, typeClass);
    assert r == cs[i := cs[i].(types := types)] by {
      UpdateOld(cs, category, bugType, typeClass, i);
    }
    assert CategoryNames(r) == CategoryNames(cs) by {
      CategoryNamesOfSet(cs, i, types);
    }
    if c == category {
      assert TypesUnder(r, c) == TypeNames(types);
      assert TypesUnder(cs, c) == TypeNames(cs[i].types);
      BumpNames(cs[i].types, bugType, typeClass);
    } else {
      assert TypesUnder(r, c) == TypesUnder(cs, c);
    }
  }
}
