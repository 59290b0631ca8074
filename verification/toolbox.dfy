/** The decision logic of `build_toolbox` and `search_api_tree`: grouping the
    tools by category, the sorted list of all tools, the tool list shown
    after a search or a category choice, and the key test of the API tree
    search. */
module Toolbox {
  import opened Results
  import opened PyStr
  import opened OrderedDicts

  // ---------------------------------------------------------------------------
  // Python's string order and `list.sort`

  /** `a <= b` on Python strings: code point by code point, a proper prefix
      first. */
  predicate LexLe(a: string, b: string) {
    a == [] || (b != [] && (a[0] < b[0] || (a[0] == b[0] && LexLe(a[1..], b[1..]))))
  }

  lemma {:induction false} LexLeRefl(a: string)
    ensures LexLe(a, a)
  {
    if a != [] {
      LexLeRefl(a[1..]);
    }
  }

  lemma {:induction false} LexLeTotal(a: string, b: string)
    ensures LexLe(a, b) || LexLe(b, a)
  {
    if a != [] && b != [] && a[0] == b[0] {
      LexLeTotal(a[1..], b[1..]);
    }
  }

  lemma {:induction false} LexLeTrans(a: string, b: string, c: string)
    requires LexLe(a, b) && LexLe(b, c)
    ensures LexLe(a, c)
  {
    if a != [] && b != [] && c != [] && a[0] == b[0] && b[0] == c[0] {
      LexLeTrans(a[1..], b[1..], c[1..]);
    }
  }

  lemma {:induction false} LexLeAntisym(a: string, b: string)
    requires LexLe(a, b) && LexLe(b, a)
    ensures a == b
  {
    if a != [] && b != [] {
      LexLeAntisym(a[1..], b[1..]);
      assert a == [a[0]] + a[1..];
      assert b == [b[0]] + b[1..];
    }
  }

  predicate Sorted(s: seq<string>) {
    forall i, j :: 0 <= i < j < |s| ==> LexLe(s[i], s[j])
  }

  /** A sorted list with a new head no greater than any of its elements is
      sorted. */
  lemma ConsSorted(y: string, t: seq<string>)
    requires Sorted(t)
    requires forall e :: e in t ==> LexLe(y, e)
    ensures Sorted([y] + t)
  {
    var s := [y] + t;
    forall i, j | 0 <= i < j < |s| ensures LexLe(s[i], s[j]) {
      if i == 0 {
        assert s[j] == t[j - 1];
      } else {
        assert s[i] == t[i - 1] && s[j] == t[j - 1];
      }
    }
  }

  /** Inserting `x` into a sorted list, before the first element not below
      it. */
  function Insert(x: string, s: seq<string>): (r: seq<string>)
    requires Sorted(s)
    ensures Sorted(r)
    ensures multiset(r) == multiset(s) + multiset{x}
  {
    if s == [] then [x]
    else if LexLe(x, s[0]) then
      InsertFront(x, s);
      [x] + s
    else
      var rest := Insert(x, s[1..]);
      InsertLater(x, s, rest);
      [s[0]] + rest
  }

  lemma InsertFront(x: string, s: seq<string>)
    requires Sorted(s) && s != [] && LexLe(x, s[0])
    ensures Sorted([x] + s)
  {
    forall e | e in s ensures LexLe(x, e) {
      var j :| 0 <= j < |s| && s[j] == e;
      if j > 0 {
        LexLeTrans(x, s[0], e);
      }
    }
    ConsSorted(x, s);
  }

  lemma InsertLater(x: string, s: seq<string>, rest: seq<string>)
    requires Sorted(s) && s != [] && !LexLe(x, s[0])
    requires Sorted(rest) && multiset(rest) == multiset(s[1..]) + multiset{x}
    ensures Sorted([s[0]] + rest)
    ensures multiset([s[0]] + rest) == multiset(s) + multiset{x}
  {
    LexLeTotal(x, s[0]);
    forall e | e in rest ensures LexLe(s[0], e) {
      assert e in multiset(rest);
      if e != x {
        assert e in s[1..];
      }
    }
    ConsSorted(s[0], rest);
    assert s == [s[0]] + s[1..];
  }

  /** `sorted(s)`, as `list.sort` leaves a list of strings. */
  function Sort(s: seq<string>): (r: seq<string>)
    ensures Sorted(r)
    ensures multiset(r) == multiset(s)
  {
    if s == [] then []
    else
      assert s == [s[0]] + s[1..];
      Insert(s[0], Sort(s[1..]))
  }

  lemma SortedTail(s: seq<string>)
    requires Sorted(s) && s != []
    ensures Sorted(s[1..])
  {
    forall i, j | 0 <= i < j < |s| - 1 ensures LexLe(s[1..][i], s[1..][j]) {
      assert s[1..][i] == s[i + 1] && s[1..][j] == s[j + 1];
    }
  }

  /** There is one sorted arrangement of a multiset of strings. */
  lemma {:induction false} SortedUnique(a: seq<string>, b: seq<string>)
    requires Sorted(a) && Sorted(b) && multiset(a) == multiset(b)
    ensures a == b
    decreases |a|
  {
    if a != [] {
      SortedHeads(a, b);
      MultisetTail(a);
      MultisetTail(b);
      SortedTail(a);
      SortedTail(b);
      SortedUnique(a[1..], b[1..]);
      assert a == [a[0]] + a[1..];
      assert b == [b[0]] + b[1..];
    } else {
      assert |b| == |multiset(b)| == 0;
    }
  }

  /** Two sorted arrangements of one multiset start alike. */
  lemma SortedHeads(a: seq<string>, b: seq<string>)
    requires Sorted(a) && Sorted(b) && multiset(a) == multiset(b) && a != []
    ensures b != [] && a[0] == b[0]
  {
    assert a[0] in multiset(b);
    assert b[0] in multiset(a);
    var i :| 0 <= i < |a| && a[i] == b[0];
    var j :| 0 <= j < |b| && b[j] == a[0];
    if i == 0 { LexLeRefl(a[0]); }
    if j == 0 { LexLeRefl(b[0]); }
    LexLeAntisym(a[0], b[0]);
  }

  lemma MultisetTail(a: seq<string>)
    requires a != []
    ensures multiset(a[1..]) == multiset(a) - multiset{a[0]}
  {
    assert a == [a[0]] + a[1..];
  }

  /** Sorting depends only on which names there are, and leaves a sorted
      list as it is: `category_selected` sorting a category's list in place
      a second time changes nothing. */
  lemma SortCanonical(a: seq<string>, b: seq<string>)
    requires multiset(a) == multiset(b)
    ensures Sort(a) == Sort(b)
    ensures Sorted(a) ==> Sort(a) == a
  {
    SortedUnique(Sort(a), Sort(b));
    if Sorted(a) {
      SortedUnique(Sort(a), a);
    }
  }

  // ---------------------------------------------------------------------------
  // Categories

  /** What the module reads from each tool's entry in the tools dict. */
  datatype Tool = Tool(name: string, category: string)

  const AllToolsKey: string := "All Tools"

  function Start(): (d: Dict<seq<string>>)
    ensures Valid(d)
  {
    Put(Empty(), AllToolsKey, [])
  }

  /** One pass of the loop of lines 597-602: the category is created when
      new, then the name is appended to it and to "All Tools". */
  function AddTool(d: Dict<seq<string>>, t: Tool): (r: Dict<seq<string>>)
    requires Valid(d) && AllToolsKey in d.values
    ensures Valid(r) && AllToolsKey in r.values && t.category in r.values
  {
    var d1 := if t.category in d.values then d else Put(d, t.category, []);
    var d2 := Put(d1, t.category, d1.values[t.category] + [t.name]);
    Put(d2, AllToolsKey, d2.values[AllToolsKey] + [t.name])
  }

  /** The `categories` dict after the loop over `tools`, in the tools
      dict's order. */
  function Categories(tools: seq<Tool>): (d: Dict<seq<string>>)
    ensures Valid(d) && AllToolsKey in d.values
  {
    if tools == [] then Start() else AddTool(Categories(tools[..|tools| - 1]), tools[|tools| - 1])
  }

  /** The categories other than "All Tools", in order of first appearance. */
  function CategoryOrder(tools: seq<Tool>): seq<string> {
    if tools == [] then []
    else
      var o := CategoryOrder(tools[..|tools| - 1]);
      var c := tools[|tools| - 1].category;
      if c == AllToolsKey || c in o then o else o + [c]
  }

  /** The names of the tools in category `c`, in order. */
  function NamesIn(tools: seq<Tool>, c: string): seq<string> {
    if tools == [] then []
    else NamesIn(tools[..|tools| - 1], c) + (if tools[|tools| - 1].category == c then [tools[|tools| - 1].name] else [])
  }

  /** Every name once, and a second time when its category is itself
      called "All Tools". */
  function AllNames(tools: seq<Tool>): seq<string> {
    if tools == [] then []
    else
      var t := tools[|tools| - 1];
      AllNames(tools[..|tools| - 1]) + (if t.category == AllToolsKey then [t.name, t.name] else [t.name])
  }

  predicate HasCategory(tools: seq<Tool>, c: string) {
    exists i :: 0 <= i < |tools| && tools[i].category == c
  }

  /** The effect of one pass on the keys: a new category is appended. */
  lemma AddToolKeys(d: Dict<seq<string>>, t: Tool)
    requires Valid(d) && AllToolsKey in d.values
    ensures AddTool(d, t).keys == if t.category in d.values then d.keys else d.keys + [t.category]
  {
  }

  /** The list under `c` after one more tool, given the list before: the
      name goes to the end of its category's list, created empty when new,
      and to the end of the "All Tools" list. */
  function Appended(before: Option<seq<string>>, t: Tool, c: string): Option<seq<string>> {
    var prior := if before.Some? then before.value else [];
    if c == AllToolsKey then Some(prior + (if t.category == AllToolsKey then [t.name, t.name] else [t.name]))
    else if c == t.category then Some(prior + [t.name])
    else before
  }

  /** The effect of one pass on the lists. */
  lemma AddToolGet(d: Dict<seq<string>>, t: Tool, c: string)
    requires Valid(d) && AllToolsKey in d.values
    ensures Get(AddTool(d, t), c) == Appended(Get(d, c), t, c)
  {
    var cat := t.category;
    var before := if cat in d.values then d.values[cat] else [];
    var d1 := if cat in d.values then d else Put(d, cat, []);
    assert Get(d1, cat) == Some(before);
    assert forall k :: k != cat ==> Get(d1, k) == Get(d, k);
    var d2 := Put(d1, cat, d1.values[cat] + [t.name]);
    assert Get(d2, cat) == Some(before + [t.name]);
    assert Get(d2, AllToolsKey) == Some(if cat == AllToolsKey then d.values[AllToolsKey] + [t.name] else d.values[AllToolsKey]);
    var r := Put(d2, AllToolsKey, d2.values[AllToolsKey] + [t.name]);
    assert r == AddTool(d, t);
    if c == AllToolsKey {
      var all := d.values[AllToolsKey];
      assert Get(r, c) == Some(d2.values[AllToolsKey] + [t.name]);
      if cat == AllToolsKey {
        assert (all + [t.name]) + [t.name] == all + [t.name, t.name];
      }
    } else {
      assert Get(r, c) == Get(d2, c);
      if c != cat {
        assert Get(d2, c) == Get(d1, c) == Get(d, c);
      }
    }
  }

  /** The assignments the loop makes to `categories`, as (key, name) pairs:
      "All Tools" first, then each tool's category in the tools dict's
      order. */
  function CatPairs(tools: seq<Tool>): seq<(string, string)> {
    [(AllToolsKey, "")] + seq(|tools|, i requires 0 <= i < |tools| => (tools[i].category, tools[i].name))
  }

  /** "All Tools" comes first, then each other category where it first
      appears: the keys are the first-appearance listing of the
      assignments, with no category twice. */
  lemma {:induction false} CategoriesKeys(tools: seq<Tool>)
    ensures Categories(tools).keys == [AllToolsKey] + CategoryOrder(tools)
    ensures FirstAppearanceOrder(CatPairs(tools), Categories(tools).keys)
  {
    CategoriesKeysOrder(tools);
    CategoryOrderIsFirstKeys(tools);
    FirstKeysOrder(CatPairs(tools));
  }

  lemma {:induction false} CategoriesKeysOrder(tools: seq<Tool>)
    ensures Categories(tools).keys == [AllToolsKey] + CategoryOrder(tools)
  {
    if tools != [] {
      CategoriesKeysOrder(tools[..|tools| - 1]);
      CategoriesKeysStep(tools);
    }
  }

  /** `CategoryOrder` after "All Tools" is the first-key listing of the
      assignments. */
  lemma {:induction false} CategoryOrderIsFirstKeys(tools: seq<Tool>)
    ensures [AllToolsKey] + CategoryOrder(tools) == FirstKeys(CatPairs(tools))
  {
    if tools == [] {
      assert CatPairs(tools) == [(AllToolsKey, "")];
      assert CatPairs(tools)[..0] == [];
    } else {
      var init := tools[..|tools| - 1];
      var ps := CatPairs(tools);
      CategoryOrderIsFirstKeys(init);
      assert ps[..|ps| - 1] == CatPairs(init);
      assert ps[|ps| - 1].0 == tools[|tools| - 1].category;
    }
  }

  lemma CategoriesKeysStep(tools: seq<Tool>)
    requires tools != []
    requires Categories(tools[..|tools| - 1]).keys == [AllToolsKey] + CategoryOrder(tools[..|tools| - 1])
    ensures Categories(tools).keys == [AllToolsKey] + CategoryOrder(tools)
  {
    var init := tools[..|tools| - 1];
    var t := tools[|tools| - 1];
    var d := Categories(init);
    var o := CategoryOrder(init);
    CategoryOrderHas(init, t.category);
    CategoriesContents(init, t.category);
    assert t.category in d.values <==> t.category == AllToolsKey || t.category in o;
    AddToolKeysAfter(d, t, o);
  }

  lemma AddToolKeysAfter(d: Dict<seq<string>>, t: Tool, o: seq<string>)
    requires Valid(d) && AllToolsKey in d.values
    requires d.keys == [AllToolsKey] + o
    requires t.category in d.values <==> t.category == AllToolsKey || t.category in o
    ensures AddTool(d, t).keys
      == [AllToolsKey] + (if t.category == AllToolsKey || t.category in o then o else o + [t.category])
  {
    AddToolKeys(d, t);
  }

  /** The categories listed by `CategoryOrder` are those some tool has,
      "All Tools" aside. */
  lemma {:induction false} CategoryOrderHas(tools: seq<Tool>, c: string)
    ensures c in CategoryOrder(tools) <==> c != AllToolsKey && HasCategory(tools, c)
  {
    if tools != [] {
      CategoryOrderHas(tools[..|tools| - 1], c);
      HasCategoryStep(tools, c);
    }
  }

  /** What `categories[c]` holds after the loop over `tools`. */
  function ExpectedList(tools: seq<Tool>, c: string): Option<seq<string>> {
    if c == AllToolsKey then Some(AllNames(tools))
    else if HasCategory(tools, c) then Some(NamesIn(tools, c))
    else None
  }

  /** Each category lists exactly its tools in order; "All Tools" lists
      every tool; a category no tool has is absent. */
  lemma {:induction false} CategoriesContents(tools: seq<Tool>, c: string)
    ensures Get(Categories(tools), c) == ExpectedList(tools, c)
  {
    if tools != [] {
      CategoriesContents(tools[..|tools| - 1], c);
      CategoriesContentsStep(tools, c);
    }
  }

  lemma CategoriesContentsStep(tools: seq<Tool>, c: string)
    requires tools != []
    requires Get(Categories(tools[..|tools| - 1]), c) == ExpectedList(tools[..|tools| - 1], c)
    ensures Get(Categories(tools), c) == ExpectedList(tools, c)
  {
    var init := tools[..|tools| - 1];
    var t := tools[|tools| - 1];
    var d := Categories(init);
    AddToolGet(d, t, c);
    ExpectedListStep(tools, c);
  }

  /** How one more tool changes the expected list of `c`. */
  lemma ExpectedListStep(tools: seq<Tool>, c: string)
    requires tools != []
    ensures ExpectedList(tools, c) == Appended(ExpectedList(tools[..|tools| - 1], c), tools[|tools| - 1], c)
  {
    var init := tools[..|tools| - 1];
    var t := tools[|tools| - 1];
    HasCategoryStep(tools, c);
    if c == AllToolsKey {
    } else if c == t.category {
      assert NamesIn(tools, c) == NamesIn(init, c) + [t.name];
      if !HasCategory(init, c) {
        NamesInAbsent(init, c);
      }
    } else {
      assert NamesIn(tools, c) == NamesIn(init, c);
    }
  }

  /** A category occurs among `tools` when it occurs before the last tool
      or is the last tool's. */
  lemma HasCategoryStep(tools: seq<Tool>, c: string)
    requires tools != []
    ensures HasCategory(tools, c)
      <==> HasCategory(tools[..|tools| - 1], c) || tools[|tools| - 1].category == c
  {
    var init := tools[..|tools| - 1];
    assert forall i :: 0 <= i < |init| ==> init[i] == tools[i];
  }

  lemma {:induction false} NamesInAbsent(tools: seq<Tool>, c: string)
    requires !HasCategory(tools, c)
    ensures NamesIn(tools, c) == []
  {
    if tools != [] {
      var init := tools[..|tools| - 1];
      assert forall i :: 0 <= i < |init| ==> init[i] == tools[i];
      NamesInAbsent(init, c);
    }
  }

  /** `all_tools`: the "All Tools" list, sorted in place. */
  function AllTools(tools: seq<Tool>): (r: seq<string>)
    ensures Sorted(r)
  {
    Sort(Categories(tools).values[AllToolsKey])
  }

  /** "All Tools" holds every tool's name and nothing else. */
  lemma AllToolsHoldsEveryName(tools: seq<Tool>)
    ensures multiset(AllTools(tools)) == multiset(AllNames(tools))
    ensures forall i :: 0 <= i < |tools| ==> tools[i].name in AllTools(tools)
  {
    CategoriesContents(tools, AllToolsKey);
    forall i | 0 <= i < |tools| ensures tools[i].name in AllTools(tools) {
      AllNamesHas(tools, i);
      assert tools[i].name in multiset(AllNames(tools));
    }
  }

  lemma {:induction false} AllNamesHas(tools: seq<Tool>, i: nat)
    requires i < |tools|
    ensures tools[i].name in AllNames(tools)
  {
    var init := tools[..|tools| - 1];
    if i < |tools| - 1 {
      AllNamesHas(init, i);
    }
  }

  // ---------------------------------------------------------------------------
  // Searching

  /** The test `search_changed` and `search_api_tree` both apply: the
      lower-cased keyword occurs in the lower-cased name. */
  predicate Matches(keyword: string, name: string) {
    Contains(Lower(name), Lower(keyword))
  }

  /** The names that match, in their order. */
  function Filter(names: seq<string>, keyword: string): (r: seq<string>)
    ensures forall x :: x in r <==> x in names && Matches(keyword, x)
    ensures |r| <= |names|
  {
    if names == [] then []
    else (if Matches(keyword, names[0]) then [names[0]] else []) + Filter(names[1..], keyword)
  }

  /** Filtering keeps each matching name as often as it occurs and drops
      the rest. */
  lemma {:induction false} FilterCounts(names: seq<string>, keyword: string, x: string)
    ensures multiset(Filter(names, keyword))[x] == if Matches(keyword, x) then multiset(names)[x] else 0
  {
    if names != [] {
      var t := names[1..];
      var ft := Filter(t, keyword);
      FilterCounts(t, keyword, x);
      assert names == [names[0]] + t;
      assert multiset(names) == multiset{names[0]} + multiset(t);
      if Matches(keyword, names[0]) {
        assert multiset(Filter(names, keyword)) == multiset{names[0]} + multiset(ft);
      } else {
        assert Filter(names, keyword) == ft;
      }
    }
  }

  /** Filtering a sorted list leaves it sorted. */
  lemma {:induction false} FilterSorted(names: seq<string>, keyword: string)
    requires Sorted(names)
    ensures Sorted(Filter(names, keyword))
  {
    if names != [] {
      var rest := Filter(names[1..], keyword);
      FilterSorted(names[1..], keyword);
      if Matches(keyword, names[0]) {
        forall e | e in rest ensures LexLe(names[0], e) {
          var j :| 0 <= j < |names[1..]| && names[1..][j] == e;
          assert names[j + 1] == e;
        }
        ConsSorted(names[0], rest);
      }
    }
  }

  /** What the tools list shows and what its label counts. */
  datatype View = View(options: seq<string>, count: nat)

  /** `search_changed` for a new search text: empty resets the list to all
      tools and the count to the number of tools; otherwise the matching
      tools are shown, unless there are none, in which case the list stays
      and the count shows 0. */
  function SearchChanged(view: View, keyword: string, allTools: seq<string>, toolCount: nat): (r: View)
  {
    if |keyword| > 0 then
      var selected := Filter(allTools, keyword);
      if |selected| > 0 then View(selected, |selected|) else View(view.options, 0)
    else View(allTools, toolCount)
  }

  /** A search for a non-empty keyword with some match shows, sorted, each
      tool that matches as often as it occurs, and counts them. */
  lemma SearchShowsMatches(view: View, keyword: string, allTools: seq<string>, toolCount: nat)
    requires Sorted(allTools) && keyword != []
    requires exists x :: x in allTools && Matches(keyword, x)
    ensures var r := SearchChanged(view, keyword, allTools, toolCount);
      Sorted(r.options) && r.count == |r.options|
      && forall x :: multiset(r.options)[x] == if Matches(keyword, x) then multiset(allTools)[x] else 0
  {
    var x :| x in allTools && Matches(keyword, x);
    assert x in Filter(allTools, keyword);
    FilterSorted(allTools, keyword);
    forall y ensures multiset(Filter(allTools, keyword))[y] == if Matches(keyword, y) then multiset(allTools)[y] else 0 {
      FilterCounts(allTools, keyword, y);
    }
  }

  /** A search nothing matches leaves the list alone and counts 0. */
  lemma SearchNoMatch(view: View, keyword: string, allTools: seq<string>, toolCount: nat)
    requires keyword != []
    requires forall x :: x in allTools ==> !Matches(keyword, x)
    ensures SearchChanged(view, keyword, allTools, toolCount) == View(view.options, 0)
  {
    if Filter(allTools, keyword) != [] {
      assert Filter(allTools, keyword)[0] in Filter(allTools, keyword);
    }
  }

  /** Clearing the search restores the list and the count the toolbox
      started with. */
  lemma SearchClearedResets(view: View, tools: seq<Tool>)
    ensures SearchChanged(view, [], AllTools(tools), |tools|) == Initial(tools)
  {
  }

  /** `category_selected` for a new choice: an empty choice changes nothing;
      otherwise the chosen category's names, sorted, and their number; a
      name that is not a category raises `KeyError`. */
  function CategorySelected(view: View, categories: Dict<seq<string>>, selected: string): (r: Option<View>)
    ensures selected == [] ==> r == Some(view)
    ensures r.Some? <==> selected == [] || selected in categories.values
    ensures selected != [] && r.Some? ==>
      Sorted(r.value.options)
      && multiset(r.value.options) == multiset(categories.values[selected])
      && r.value.count == |r.value.options|
  {
    if selected == [] then Some(view)
    else if selected in categories.values then
      var options := Sort(categories.values[selected]);
      Some(View(options, |options|))
    else None
  }

  /** The toolbox as first shown: "All Tools" selected, every tool's name
      listed in order, and the label counting the tools dict's entries. */
  function Initial(tools: seq<Tool>): (r: View)
    ensures Sorted(r.options)
    ensures multiset(r.options) == multiset(AllNames(tools))
    ensures forall i :: 0 <= i < |tools| ==> tools[i].name in r.options
    ensures r.count == |tools|
  {
    AllToolsHoldsEveryName(tools);
    View(AllTools(tools), |tools|)
  }

  /** The node list `search_api_tree` adds for the keys of `tree` (in the
      dict's order) that match. */
  function SearchApiTree<V>(keywords: string, tree: Dict<V>): seq<V>
    requires Valid(tree)
  {
    SubTree(keywords, tree.keys, tree)
  }

  function SubTree<V>(keywords: string, keys: seq<string>, tree: Dict<V>): (r: seq<V>)
    requires forall i :: 0 <= i < |keys| ==> keys[i] in tree.values
  {
    if keys == [] then []
    else (if Matches(keywords, keys[0]) then [tree.values[keys[0]]] else []) + SubTree(keywords, keys[1..], tree)
  }

  /** The API tree search adds, in order, the node of each key the tool
      search would keep. */
  lemma {:induction false} SubTreeIsFilter<V>(keywords: string, keys: seq<string>, tree: Dict<V>)
    requires forall i :: 0 <= i < |keys| ==> keys[i] in tree.values
    ensures var f := Filter(keys, keywords);
      |SubTree(keywords, keys, tree)| == |f|
      && forall i :: 0 <= i < |f| ==> f[i] in tree.values && SubTree(keywords, keys, tree)[i] == tree.values[f[i]]
  {
    if keys != [] {
      SubTreeIsFilter(keywords, keys[1..], tree);
    }
  }

  lemma SearchApiTreeIsFilter<V>(keywords: string, tree: Dict<V>)
    requires Valid(tree)
    ensures var f := Filter(tree.keys, keywords);
      |SearchApiTree(keywords, tree)| == |f|
      && forall i :: 0 <= i < |f| ==> f[i] in tree.values && SearchApiTree(keywords, tree)[i] == tree.values[f[i]]
  {
    SubTreeIsFilter(keywords, tree.keys, tree);
  }
}
