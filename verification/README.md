# whiteboxgui core in Dafny

A model of the text-processing and decision logic of `whiteboxgui`, the
Jupyter front end to the WhiteboxTools geoprocessing toolkit. The widgets
are left aside. What remains is five pieces of sequential logic:

- **Name conversions.** `to_camelcase`, `to_label` and `to_snakecase`
  (module `Names`). `str.title()` is modelled over ASCII letters. The two
  `re.sub` passes of `to_snakecase` are modelled as left-to-right scans over
  non-overlapping matches.
- **`get_tool_params`** (module `Params`). The text the toolkit prints for
  a tool's parameters is cut into items, each item is sliced into its six
  fields, the flag list is collapsed to a short key, and the parameters are
  collected in an insertion-ordered dict (module `OrderedDicts`) under that
  key. `ast.literal_eval` is a function parameter.
- **`tool_gui`** (module `Form`). It reads each parameter's default text,
  marks the required parameters, and picks one control per parameter:
  checkbox, file chooser, text box or drop-down.
- **`run_button_clicked`** (module `Run`), modelled as written. It walks the
  controls in order with a pending list of required keys. The walk ends in
  a dispatch with one argument line per control, in no dispatch, or in the
  `ValueError` of `list.remove`. A corrected walk sits next to it (see
  Findings).
- **`build_toolbox` and `search_api_tree`** (module `Toolbox`). This covers
  the category dict, the sorted "All Tools" list, the category choice, the
  search box, and the key test of the API tree search.

The Python `str` operations the code relies on live in `PyStr`, with
Python's semantics over `seq<char>`: `find`, `rfind`, `count`, `split`,
`join`, `replace`, `strip`, slicing with negative bounds, `lower` and
`title`. `Results` holds `Option`, `Result` and an in-order traversal that
stops at the first failure.

## Model

| member | source | states |
|---|---|---|
| Names.CamelAndLabelFromTitle | whiteboxgui/whiteboxgui.py:18-40 | `to_camelcase(s)` is `s.title()` with each `_` replaced by nothing, and `to_label(s)` is the same with each `_` replaced by a space: the two differ only in the separator |
| Names.TitleSplit | whiteboxgui/whiteboxgui.py:28 | title-casing commutes with splitting at `_`, because `_` ends a word for `title()` |
| Names.ToCamelCase | whiteboxgui/whiteboxgui.py:18-28 | `to_camelcase(s)` is `s.title()` with every `_` dropped |
| Names.ToLabel | whiteboxgui/whiteboxgui.py:31-40 | `to_label` keeps the length; each `_` becomes a space and every other position holds the title-cased character |
| Names.CamelIsLabelWithoutSpaces | whiteboxgui/whiteboxgui.py:18-40 | for a name without spaces, the CamelCase name is the label with its spaces removed |
| Names.LowerRun | whiteboxgui/whiteboxgui.py:52 | the run of lower-case letters that `[a-z]+` matches greedily: all lower-case, and the character after it is not |
| Names.ToSnakeCase | whiteboxgui/whiteboxgui.py:43-53 | the result of `to_snakecase` holds no upper-case letter |
| Names.MarkWordStartsOnlyInserts | whiteboxgui/whiteboxgui.py:52 | the first `re.sub` pass only inserts underscores: with all `_` dropped, the text is unchanged |
| Names.MarkCaseChangesOnlyInserts | whiteboxgui/whiteboxgui.py:53 | the second pass only inserts underscores |
| Names.SnakeCaseOnlyInsertsUnderscores | whiteboxgui/whiteboxgui.py:43-53 | with every `_` dropped, `to_snakecase(s)` is `s` lower-cased with every `_` dropped |
| Names.MarkCaseChangesAppend | whiteboxgui/whiteboxgui.py:53 | the second pass works on each side of a cut independently, adding one underscore at the cut exactly when a lower-case letter or digit meets a capital there |
| Names.MarkWordStartsOfCamel | whiteboxgui/whiteboxgui.py:52 | on a CamelCase name built from words, the first pass puts `_` before every second word's capital |
| Names.MarkCaseChangesOfPaired | whiteboxgui/whiteboxgui.py:53 | the second pass puts the remaining underscores between the capitalised words |
| Names.SnakeOfCamel | whiteboxgui/whiteboxgui.py:43-53 | `to_snakecase` of the CamelCase form of words gives the words joined by `_` |
| Names.SnakeCamelRoundTrip | whiteboxgui/whiteboxgui.py:18-53 | `to_snakecase(to_camelcase(s)) == s` for every snake name whose segments are two or more lower-case ASCII letters |
| Names.CamelSnakeRoundTrip | whiteboxgui/whiteboxgui.py:18-53 | the CamelCase form of such words survives a trip through snake_case |
| Names.CamelSnakeCamelStable | whiteboxgui/whiteboxgui.py:18-53 | CamelCase, then snake_case, then CamelCase again gives the first CamelCase name |
| Names.AdjacentLettersMerge | whiteboxgui/whiteboxgui.py:18-53 | two adjacent one-letter segments do not survive the round trip: `a_b` becomes `AB`, `AB` becomes `ab`, and `ab` becomes `Ab`, so CamelCase is not stable either |
| Params.DropLastTwo | whiteboxgui/whiteboxgui.py:110 | `s[:-2]`: all but the last two characters, empty when shorter |
| Params.CollapseFlags | whiteboxgui/whiteboxgui.py:96-114 | collapsing fails only with `NoFlagDash`, the `IndexError` of line 114 |
| Params.CollapseInputs | whiteboxgui/whiteboxgui.py:98-99 | flags holding `"-i"` and `--inputs` collapse to `inputs` for every tool |
| Params.CollapseDem | whiteboxgui/whiteboxgui.py:100-106 | `"-i"`, `--input` and `--dem` without `--inputs` give `dem`, or `i` for the tool `sink` in any letter case |
| Params.CollapseInputRule | whiteboxgui/whiteboxgui.py:98-108 | whenever `"-i"` and `--input` both occur the key is one of `inputs`, `dem`, `i` |
| Params.CollapseToolName | whiteboxgui/whiteboxgui.py:104 | the tool name matters only through whether it lower-cases to `sink` |
| Params.CollapseFallback | whiteboxgui/whiteboxgui.py:98-114 | when no `-i` rule applies the `--`/`-` rules decide |
| Params.FallbackOneDoubleDash | whiteboxgui/whiteboxgui.py:109-110 | with exactly one `--` the key is the text after it, less two characters |
| Params.FallbackTwoDoubleDashes | whiteboxgui/whiteboxgui.py:111-112 | with exactly two `--` the key is the text after the second, less two characters |
| Params.FallbackSingleDash | whiteboxgui/whiteboxgui.py:113-114 | otherwise the key is the text between the first two `-` (or to the end), less two characters |
| Params.CollapseFailsIffNoDash | whiteboxgui/whiteboxgui.py:96-114 | collapsing raises exactly when the flags text holds no `-` |
| Params.ParamsText | whiteboxgui/whiteboxgui.py:66-69 | raises exactly when the output holds no `[`; otherwise the text from after the first `[` to two characters before the end of the stripped output |
| Params.ItemsCount | whiteboxgui/whiteboxgui.py:71-79 | one item per piece of the `{"name"` split that is not blank once stripped |
| Params.NonBlankMembers | whiteboxgui/whiteboxgui.py:74-76 | the pieces kept are exactly the pieces that are not blank once stripped |
| Params.ItemsOfNonBlank | whiteboxgui/whiteboxgui.py:71-79 | the items are, in order, the kept pieces each with `"name"` put back and cut at its last `}` |
| Params.ItemStartsWithName | whiteboxgui/whiteboxgui.py:77-78 | every item starts with the `"name"` key that the split removed |
| Params.SliceFields | whiteboxgui/whiteboxgui.py:84-135 | the name and description fields hold no `"` |
| Params.SliceFieldsOfRendered | whiteboxgui/whiteboxgui.py:84-135 | slicing an item printed from six field values gives those values back, with the ` (optional)` note gone from the name and the description, provided the name and the description hold no `"` and no value holds the note, its own `"key":` prefix or a later field's name |
| Params.ParseItem | whiteboxgui/whiteboxgui.py:84-138 | a parsed item is keyed by `CollapseFlags` of its sliced flags text and holds the sliced name, description, default and optional text and the literal read from its type text; it raises `NoFlagDash` when collapsing fails and otherwise `BadLiteral` when the type text is no literal |
| Params.ParseItems | whiteboxgui/whiteboxgui.py:83-138 | the items parse exactly when each one does, the pairs being the items' parses in order; otherwise the error is that of the first item that fails; no item raises `NoOpenBracket` |
| Params.GetToolParams | whiteboxgui/whiteboxgui.py:56-140 | the dict built holds every key once |
| Params.GetToolParamsNoBracket | whiteboxgui/whiteboxgui.py:67 | the `str.index` error occurs exactly when the output holds no `[` |
| Params.GetToolParamsLastWins | whiteboxgui/whiteboxgui.py:83-138 | the dict holds each key of the parsed items once, in order of the first item parsed to it; under each key the parameter parsed from the last item whose collapsed flags are that key |
| Params.LastPairFromItem | whiteboxgui/whiteboxgui.py:83-138 | the value found last under a key comes from an item whose flags collapse to that key, and no later item parses to that key |
| OrderedDicts.Put | whiteboxgui/whiteboxgui.py:138 | `d[k] = v`: a present key keeps its place, a new key goes last, nothing else changes |
| OrderedDicts.FromPairsLastWins | whiteboxgui/whiteboxgui.py:83-138 | looking up a key finds the value of its last assignment |
| OrderedDicts.FromPairsKeys | whiteboxgui/whiteboxgui.py:83-138 | the dict built by assigning the pairs in order holds each assigned key once, and no other; a key comes before another exactly when it was first assigned at a point where the other had not been |
| OrderedDicts.FirstKeysIff | whiteboxgui/whiteboxgui.py:83-138 | the order of first assignment leaves exactly one list of keys, `FirstKeys(ps)` |
| OrderedDicts.LastValueIsLast | whiteboxgui/whiteboxgui.py:138 | a value found under a key is assigned to it at some position with no later assignment to that key |
| Form.ParseDefault | whiteboxgui/whiteboxgui.py:348-356 | `null` or empty is no default; any `false` gives False before any `true` gives True; otherwise the text without quotes |
| Form.ParseDefaultText | whiteboxgui/whiteboxgui.py:356 | a text default is the raw text with exactly its `"` characters removed |
| Form.DefaultTextOfRaw | whiteboxgui/whiteboxgui.py:350-356 | the text `str(default_value)` seeds a box with: `False` for raw text holding `false`, else `True` for text holding `true`, else the raw text without `"` |
| Form.Label | whiteboxgui/whiteboxgui.py:342-346 | the label is the name starred exactly when `optional` is `false` |
| Form.ControlFor | whiteboxgui/whiteboxgui.py:360-401 | Boolean gives a checkbox, the five file tags a chooser, other tags a text box seeded with `str(default)`; a map with `OptionList` a drop-down over it, another non-empty map a chooser, an empty map the `IndexError` of line 392 |
| Form.BuildFields | whiteboxgui/whiteboxgui.py:340-404 | the form has distinct field keys and distinct required keys; the required keys are exactly those whose `optional` is `false` |
| Form.ToolGui | whiteboxgui/whiteboxgui.py:339-404 | the same for a tool's whole parameter dict |
| Form.BuildFieldsShape | whiteboxgui/whiteboxgui.py:340-404 | the form fails exactly when a parameter has an empty map as type; otherwise it has one field per parameter with a control, in dict order |
| Form.RequiredInOrder | whiteboxgui/whiteboxgui.py:343-345 | the required list keeps the dict's order |
| Run.Lines | whiteboxgui/whiteboxgui.py:423-446 | exactly one line per control, possibly empty |
| Run.LineReadsBack | whiteboxgui/whiteboxgui.py:423-446 | a line is empty exactly for a drop-down or an empty text box; any other line reads back as the key and the control's value, behind one dash for the chooser keyed `i` and two dashes otherwise |
| Run.RemoveFirst | whiteboxgui/whiteboxgui.py:430 | `list.remove` drops one element, exactly the given key from a list of distinct keys |
| Run.RunLoop | whiteboxgui/whiteboxgui.py:421-450 | a dispatch carries the lines of every control in order |
| Run.RunClicked | whiteboxgui/whiteboxgui.py:416-450 | the tool is dispatched with exactly one line per control |
| Run.RunLoopDispatch | whiteboxgui/whiteboxgui.py:421-450 | the walk dispatches exactly when every chooser and text control is pending and filled and every pending key belongs to one of them |
| Run.RunDispatchIff | whiteboxgui/whiteboxgui.py:416-450 | the same for the whole form, starting from the required keys |
| Run.RequiredNonEntryBlocks | whiteboxgui/whiteboxgui.py:444-448 | a required checkbox or drop-down is never taken off the pending list, so nothing is dispatched |
| Run.RunLoopStops | whiteboxgui/whiteboxgui.py:424-441 | the first chooser or text control the walk cannot pass decides: optional raises, required and empty stops |
| Run.OptionalEntryRaises | whiteboxgui/whiteboxgui.py:429-430 | an optional chooser or text control reached by the walk raises `ValueError` |
| Run.RequiredEmptyStops | whiteboxgui/whiteboxgui.py:425-428 | a required empty chooser or text control stops the walk with the prompt and no dispatch |
| Run.OptionalTextRaisesAsWritten | whiteboxgui/whiteboxgui.py:435-441 | a required file chosen plus an optional text filled in raises as written, while the corrected walk dispatches both lines |
| Run.RequiredCheckboxBlocksAsWritten | whiteboxgui/whiteboxgui.py:444-448 | a required checkbox is never dispatched as written, while the corrected walk dispatches it |
| Run.IntendedLoop | whiteboxgui/whiteboxgui.py:421-450 | the corrected walk never raises |
| Run.RunIntendedDispatchIff | whiteboxgui/whiteboxgui.py:416-450 | the corrected walk dispatches exactly when every required parameter has a control holding a value |
| Toolbox.Sort | whiteboxgui/whiteboxgui.py:608 | `list.sort`: sorted, and a permutation of its input |
| Toolbox.SortedUnique | whiteboxgui/whiteboxgui.py:608 | a multiset of strings has one sorted arrangement |
| Toolbox.SortCanonical | whiteboxgui/whiteboxgui.py:619-620 | sorting depends only on the names, and re-sorting a sorted list changes nothing |
| Toolbox.AddToolGet | whiteboxgui/whiteboxgui.py:600-604 | one pass appends the name to its category, created when new, and to "All Tools" |
| Toolbox.CategoriesKeys | whiteboxgui/whiteboxgui.py:597-606 | the category list is "All Tools", then each other category where it first appears; stated independently as `FirstAppearanceOrder` of the assignments the loop makes (`CatPairs`): no category twice, exactly the assigned ones, a category before another when it is assigned before the other first is |
| Toolbox.CategoryOrderHas | whiteboxgui/whiteboxgui.py:599-602 | the listed categories are exactly those some tool has, "All Tools" aside |
| Toolbox.CategoriesContents | whiteboxgui/whiteboxgui.py:597-604 | each category lists its tools' names in order, "All Tools" lists every name, an unused category is absent |
| Toolbox.AllTools | whiteboxgui/whiteboxgui.py:607-608 | the "All Tools" list is sorted |
| Toolbox.AllToolsHoldsEveryName | whiteboxgui/whiteboxgui.py:597-608 | "All Tools" holds every tool's name and nothing else |
| Toolbox.Filter | whiteboxgui/whiteboxgui.py:640-643 | keeps exactly the names whose lower-cased form contains the lower-cased keyword |
| Toolbox.FilterCounts | whiteboxgui/whiteboxgui.py:640-643 | each matching name is kept as often as it occurs |
| Toolbox.FilterSorted | whiteboxgui/whiteboxgui.py:641-643 | filtering the sorted list keeps it sorted |
| Toolbox.SearchShowsMatches | whiteboxgui/whiteboxgui.py:636-646 | a search with a match shows, sorted, exactly the matching tools and counts them |
| Toolbox.SearchNoMatch | whiteboxgui/whiteboxgui.py:644-646 | a search with no match leaves the list alone and counts 0 |
| Toolbox.SearchClearedResets | whiteboxgui/whiteboxgui.py:647-649 | clearing the search shows all tools and the number of tools |
| Toolbox.CategorySelected | whiteboxgui/whiteboxgui.py:616-622 | a category shows its names sorted and counted; an unknown one is the `KeyError` |
| Toolbox.Initial | whiteboxgui/whiteboxgui.py:658-659 | the first view lists all tools, sorted |
| Toolbox.SubTreeIsFilter | whiteboxgui/whiteboxgui.py:189-191 | the API tree search adds, in order, the node of each key the tool search would keep |
| Toolbox.SearchApiTreeIsFilter | whiteboxgui/whiteboxgui.py:173-193 | the same for the whole tree dict |
| PyStr.Find | whiteboxgui/whiteboxgui.py:85-90 | `str.find`: an occurrence when non-negative |
| PyStr.FindFirst | whiteboxgui/whiteboxgui.py:85-90 | `str.find` returns the first occurrence, and finds one exactly when `sub in s` |
| PyStr.RFind | whiteboxgui/whiteboxgui.py:78 | `str.rfind`: the last occurrence, or -1 |
| PyStr.SplitCount | whiteboxgui/whiteboxgui.py:109-114 | a split has one more piece than there are separators |
| PyStr.SplitPiecesFree | whiteboxgui/whiteboxgui.py:71 | no piece of a split holds the separator |
| PyStr.JoinSplit | whiteboxgui/whiteboxgui.py:28 | joining the pieces of a split with the separator gives the string back |
| PyStr.SplitJoin | whiteboxgui/whiteboxgui.py:28 | splitting pieces joined by a character none of them holds gives the pieces back |
| PyStr.RemoveAllChar | whiteboxgui/whiteboxgui.py:93 | `replace('"', "")` removes exactly that character |
| PyStr.RemoveAllIsReplace | whiteboxgui/whiteboxgui.py:84 | removing every occurrence left to right is `replace(sub, "")` |
| PyStr.Strip | whiteboxgui/whiteboxgui.py:75 | `strip()`: the infix without leading or trailing whitespace, empty exactly for blank text |
| PyStr.Slice | whiteboxgui/whiteboxgui.py:92 | Python slicing, equal to the plain slice for in-range bounds |

## Left out

- Running the toolkit: `wbt.tool_parameters` is modelled as its printed text, an input. `wbt.run_tool` is modelled as the `Dispatch` outcome with its argument lines. `wbt.view_code` is not modelled.
- `ast.literal_eval` is a function parameter `string -> Option<ParamType>`. `None` stands for the error it raises. A literal that is neither a string nor a dict is `OtherLiteral`.
- A map type holds lists of strings only. `tool_gui` reads only its keys and its `OptionList` entry, so the map's key order never matters: both branches at lines 392-401 make a chooser.
- Form.ControlFor: a checkbox seeded with no default or with a text default starts unchecked. The widget library's coercion of those values is not part of this model.
- Widgets, layout, `display`, the output area, the help and code buttons, `webbrowser`, `tool_selected` and the tree browser `build_toolbox_tree` are left out as user interface.
- `get_wbt_dict` and its JSON cache are left out as file I/O. So are `get_github_url`, `get_book_url`, `in_colab_shell` and `show`.
- `whiteboxgui/__init__.py` holds only package metadata and is left out.
- PyStr.Lower, PyStr.TitleFrom: case mapping and `title()` cover ASCII letters only. Python maps every Unicode letter.
- Toolbox.Initial: counts the tools, as line 592 does. The assignment at line 658 selects the category that is already shown and is not modelled as firing `category_selected`.
- Toolbox.LexLe: compares characters by code point, as Python does for `str`. The in-place aliasing of `all_tools` with the "All Tools" entry is modelled by sorting when the list is read.
- Names.SnakeCamelRoundTrip: covers only snake names whose segments are two or more lower-case ASCII letters. Names with digits, such as `d8_pointer`, and names with a one-letter segment, such as `d_inf_pointer`, are not covered, although the trip holds for them. It fails where two one-letter segments are adjacent (`a_b` gives `AB` and then `ab`; see Names.AdjacentLettersMerge).
- Names.CamelSnakeRoundTrip: covers only CamelCase names built from words of two or more lower-case ASCII letters. `D8Pointer` and `DInfPointer` survive the trip but are not covered.
- Names.CamelSnakeCamelStable: requires a snake name whose segments are two or more lower-case ASCII letters. For two adjacent one-letter segments stability is false: `a_b` gives `AB`, then `ab`, then `Ab` (Names.AdjacentLettersMerge). Stability for names with digits, or with one-letter segments that are not adjacent, is not proved.

## Findings

| source | as written | input that shows it | evidently intended | confidence | as-written member | corrected member |
|---|---|---|---|---|---|---|
| whiteboxgui/whiteboxgui.py:429-430, 440-441 | an optional chooser or text control reaches `required_params.remove(arg)` for a key that was never in the list | a required file chosen and an optional text parameter filled in: `ValueError` instead of running the tool | remove the key only when it is pending | not executed | Run.OptionalTextRaisesAsWritten | Run.RunIntendedDispatchIff |
| whiteboxgui/whiteboxgui.py:444-448 | checkboxes and drop-downs never leave the pending list | a tool whose only parameter is a required Boolean is never dispatched, checked or not | every control with a value takes its key off the pending list | not executed | Run.RequiredCheckboxBlocksAsWritten | Run.RunIntendedDispatchIff |
