# BOM coding pipeline of wantong, modelled in Dafny

The backend of wantong takes an engineering drawing and turns it into a bill
of materials (BOM) tree in three stages. This project models all three and
proves what each one promises.

1. **Drawing extraction** (`dwg2dict.py`, module `DwgToDict`).
   - Every attribute text is normalised by `replace_sub`. The `\M+5XXXX` and `\U+XXXX` escapes are decoded through `replace_hex`. Formatting codes, braces and `\P` are removed, and then all whitespace is removed.
   - Title text is split into `label：value` entries by `check_text`.
   - The attributed blocks of the drawing are dispatched by `dxf2dict`:
     - an 8-attribute block gives a table row;
     - a 17-attribute block is a title block, which advances the page counter and sets or checks `部件编号`;
     - a block with any other attribute count gives an error message.

     The rows are then sorted by position.
2. **Work-ticket coding** (`wtdata.py`, module `WtData`).
   - `getwtcode` splits the rows into dedicated parts and purchased parts.
   - It deletes stray rows from the dedicated list.
   - It gives every dedicated row a work-ticket code (wtcode). Each code is derived from the previous row's code by comparing the depths of the two rows' component codes (`generate_wtcode` and the `get_*_code` helpers).
   - It numbers the purchased parts under a summary row.
3. **Tree assembly** (`list2tree.py`, module `ListToTree`).
   - `list2tree` coerces counts and masses, and reports zero counts and inconsistent masses.
   - It keys the nodes by wtcode.
   - It hangs every node under the code with its last segment cut off, when that code exists.
   - It then deletes every empty `children` field.

Two more modules hold shared material:
- `Text`: the Python string operations the code relies on, such as `strip`, `replace`, splitting and joining on `.`, `str(int)`, digit runs, substring search and the order `sorted()` puts strings in.
- `Bom`: the row record, the diagnostics and the Python exceptions that end a run. Each diagnostic is one `Msg` constructor, carrying the values its message shows. Each exception is an `Error` in a `Result`.

The project has two kinds of members:
- Imperative code is modelled as methods with loops, each proved equal to a specification function. This covers the loops of `split_datas`, `del_dedicated`, `comp_list` and `getwtcode`, the node-map and assembly loops of `list2tree`, the block loop of `dxf2dict`, and the recursion of `check_text` over a dictionary object.
- The properties are lemmas about those functions.

The code has these quirks, which the model keeps:
- `get_next_peer_code` on a one-segment code yields `"." + n`.
- `get_next_up_code` that keeps no segment also yields `"." + n`.
- `get_first_buy_code` raises `IndexError` on a code with fewer than three segments.
- `list2tree` sorts the wtcodes as strings, so `"1.10"` comes before `"1.2"`.
- `split_datas` with no component row at all returns the first row as the dedicated list.
- The 8-attribute case counts all attributes, empty ones included.
- A stored part number `""` is falsy, so a later title block replaces it.

## Model

| member | source | states |
|---|---|---|
| Text.JoinSplit | backend/app/plugin/module_orders/data/wtdata.py:73-75 | joining the `.`-separated segments of a code gives the code back |
| Text.SplitJoin | backend/app/plugin/module_orders/data/wtdata.py:73-75 | splitting the join of dot-free segments gives the segments back |
| Text.StripEnds | backend/app/plugin/module_orders/data/wtdata.py:31 | `strip()` leaves no whitespace at either end, and the result is a slice of the input with only whitespace before and after it |
| Text.DigitsValueOfNatToStr | backend/app/plugin/module_orders/data/wtdata.py:74 | the digits `str(n)` writes read back as n |
| Text.Find | backend/app/plugin/module_projects/datas/dwg2dict.py:148-149 | the result is the first position where the substring occurs, or None when it occurs nowhere |
| Text.ParentCodeDropsLastPart | backend/app/plugin/module_orders/data/list2tree.py:51-59 | `wtcode[:wtcode.rfind('.')]` is the code with its last segment dropped |
| Text.RFind | backend/app/plugin/module_orders/data/list2tree.py:51 | the result is -1 exactly when there is no dot, and otherwise the last dot's position |
| Text.LessTotal | backend/app/plugin/module_orders/data/list2tree.py:47 | the order `sorted()` gives strings is total on distinct strings |
| Text.LessTransitive | backend/app/plugin/module_orders/data/list2tree.py:47 | that order is transitive |
| WtData.Cut | backend/app/plugin/module_orders/data/wtdata.py:4-8 | the backward search stops after the last component row; when there is none, it stops after the first row |
| WtData.SplitDatas | backend/app/plugin/module_orders/data/wtdata.py:4-8 | empty data raises UnboundLocalError, because the backward loop never binds its index; otherwise d + b is the input, d is not empty, no row of b starts with the base code, and d ends with such a row whenever one exists |
| WtData.KeptAndRemoved | backend/app/plugin/module_orders/data/wtdata.py:15-26 | every kept row starts with the base code; every row that does is kept, in its original order; kept rows plus removal messages number the input rows |
| WtData.PopDeletions | backend/app/plugin/module_orders/data/wtdata.py:24-25 | popping the collected indices in reverse order leaves exactly the component rows |
| WtData.DelDedicated | backend/app/plugin/module_orders/data/wtdata.py:15-26 | the list left is the component rows, with one message per removed row, in order |
| WtData.StandardNoSeparators | backend/app/plugin/module_orders/data/wtdata.py:29-34 | `standard` leaves no `-` or `/` and keeps the stripped length |
| WtData.StandardIdempotent | backend/app/plugin/module_orders/data/wtdata.py:29-34 | `standard` applied twice equals `standard` applied once |
| WtData.CompList | backend/app/plugin/module_orders/data/wtdata.py:42-46 | the result is the length of the common prefix, at most the shorter length, and the lists differ right after it; an empty list raises UnboundLocalError |
| WtData.MyIntFirstRun | backend/app/plugin/module_orders/data/wtdata.py:48-53 | `myint` is the value of the first run of ASCII digits |
| WtData.MyIntNoDigit | backend/app/plugin/module_orders/data/wtdata.py:51-53 | `myint` of a text without ASCII digits is 0 |
| WtData.MyIntOfNatToStr | backend/app/plugin/module_orders/data/wtdata.py:51-53 | `myint(str(n))` is n |
| WtData.IncOfNatToStr | backend/app/plugin/module_orders/data/wtdata.py:74 | incrementing the segment `str(n)` gives `str(n + 1)` |
| WtData.ChildCodeParts | backend/app/plugin/module_orders/data/wtdata.py:67-68 | the child code is the code's segments followed by `1` |
| WtData.NextPeerCodeParts | backend/app/plugin/module_orders/data/wtdata.py:71-75 | with two or more segments, all but the last are kept and the last becomes `myint(last) + 1`; one segment gives `"." + (n + 1)` |
| WtData.NextBuyCodeParts | backend/app/plugin/module_orders/data/wtdata.py:91-97 | the last segment is incremented and the rest kept; one segment gives `n + 1` with no leading dot |
| WtData.NextUpCodeParts | backend/app/plugin/module_orders/data/wtdata.py:77-81 | the first len − i segments are kept and segment len − i is incremented; an index beyond the segments raises IndexError, and keeping no segment gives `"." + n` |
| WtData.FirstBuyCodeParts | backend/app/plugin/module_orders/data/wtdata.py:84-88 | the result is `s0.s1.(s2 + 1)`; fewer than three segments raise IndexError |
| WtData.NextBuyCodeStep | backend/app/plugin/module_orders/data/wtdata.py:178-179 | the next purchased code after `h.k` is `h.(k + 1)` |
| WtData.ClassifiedUnique | backend/app/plugin/module_orders/data/wtdata.py:100-150 | at most one relation tag fits a pair of normalised codes |
| WtData.GenerateWtcode | backend/app/plugin/module_orders/data/wtdata.py:100-150 | the tag is the relation between the normalised codes; the code depends only on how the depths compare: the peer code at equal depth, `+ ".1"` when deeper, `get_next_up_code(prev, P − C + 1)` when shallower |
| WtData.GeneratedCode | backend/app/plugin/module_orders/data/wtdata.py:164 | the code `getwtcode` keeps from `generate_wtcode` is the depth-determined code |
| WtData.ChainSteps | backend/app/plugin/module_orders/data/wtdata.py:162-164 | each dedicated code is the step from the previous row's code and the two component codes |
| WtData.NumberDedicated | backend/app/plugin/module_orders/data/wtdata.py:162-168 | the dedicated rows receive the chain of codes starting at 部件编号, with one duplicate message per later row whose drawing code equals the first row's |
| WtData.CodePurchased | backend/app/plugin/module_orders/data/wtdata.py:173-179 | the summary row gets the first purchased code; purchased row k gets that code plus `.(k + 1)` |
| WtData.CodeRowsShape | backend/app/plugin/module_orders/data/wtdata.py:173-181 | the output is the dedicated list, followed by the summary row and the purchased rows only when purchased rows exist |
| WtData.GetWtcodeErrors | backend/app/plugin/module_orders/data/wtdata.py:153-182 | empty data raises IndexError; a missing 部件编号 raises KeyError; a failing code step raises IndexError |
| WtData.GetWtcodeShape | backend/app/plugin/module_orders/data/wtdata.py:153-182 | the data is the coded dedicated rows, then (when purchased rows exist) the numbered purchased block; info gains, in order, the parts summary, one message per removed row, the duplicate messages and the remaining count |
| WtData.GetWtcodeDedicated | backend/app/plugin/module_orders/data/wtdata.py:161-168 | the first dedicated row's wtcode is 部件编号, every dedicated row keeps its fields, and consecutive codes are related by the coding step |
| WtData.GetWtcode | backend/app/plugin/module_orders/data/wtdata.py:153-182 | the method computes exactly the result characterised above |
| ListToTree.CoerceCount | backend/app/plugin/module_orders/data/list2tree.py:21-25 | a missing count is 0, and a count of 0 adds exactly one message |
| ListToTree.CoerceMass | backend/app/plugin/module_orders/data/list2tree.py:26-40 | unit 0, total not 0 and count 1: unit becomes total, with no message; count not 1: one message; unit not 0 and total 0: one message; otherwise nothing changes |
| ListToTree.PartMapKeys | backend/app/plugin/module_orders/data/list2tree.py:11-42 | the node map's keys are exactly the rows' wtcodes |
| ListToTree.PartMapLast | backend/app/plugin/module_orders/data/list2tree.py:42 | the node of a wtcode is the last row with that wtcode |
| ListToTree.KeyOrderKeys | backend/app/plugin/module_orders/data/list2tree.py:42 | the map's key order lists each key once |
| ListToTree.IndexRows | backend/app/plugin/module_orders/data/list2tree.py:11-42 | a row without a wtcode raises KeyError; otherwise the loop builds the node map, its key order and the check messages |
| ListToTree.SortStringsAscending | backend/app/plugin/module_orders/data/list2tree.py:47 | `sorted()` puts distinct keys in strictly ascending string order |
| ListToTree.StringOrderIsNotNumeric | backend/app/plugin/module_orders/data/list2tree.py:47 | `"1.10"` sorts before `"1.2"` |
| ListToTree.UnderMembers | backend/app/plugin/module_orders/data/list2tree.py:51-66 | a node is hung under w exactly when its cut-off code is w and in the map; roots are codes without a dot or whose cut-off code is missing; order is kept |
| ListToTree.Assemble | backend/app/plugin/module_orders/data/list2tree.py:45-66 | the loop builds exactly those root and child lists |
| ListToTree.PruneKeeps | backend/app/plugin/module_orders/data/list2tree.py:69-74 | `remove_empty_children` keeps every key, leaves no empty children field, and deletes a field exactly when it is empty |
| ListToTree.SubtreeCount | backend/app/plugin/module_orders/data/list2tree.py:47-66 | a subtree holds each code below its root exactly once |
| ListToTree.ForestKeysOnce | backend/app/plugin/module_orders/data/list2tree.py:45-77 | the forest holds each distinct wtcode exactly once and nothing else |
| ListToTree.ForestRoots | backend/app/plugin/module_orders/data/list2tree.py:51-66 | the roots are in ascending order and are exactly the codes without a parent in the map |
| ListToTree.ForestNoEmptyChildren | backend/app/plugin/module_orders/data/list2tree.py:69-76 | no node of the result has an empty children field |
| ListToTree.ForestHung | backend/app/plugin/module_orders/data/list2tree.py:47-66 | every node carries its map entry, and its children are, in ascending order, exactly the codes hung under it |
| ListToTree.ListToTree | backend/app/plugin/module_orders/data/list2tree.py:4-78 | KeyError on a row without a wtcode; otherwise the pruned forest, with the check messages appended to info |
| ListToTree.ListToTreeOutcome | backend/app/plugin/module_orders/data/list2tree.py:4-78 | stated on the rows: each wtcode appears once; the roots are ascending and parentless; every node is its last row and has its hung children; no children field is empty |
| DwgToDict.StopAt | backend/app/plugin/module_projects/datas/dwg2dict.py:118 | the lazy `.*?` ends at the first `;` or line break, and at the end of the text when neither occurs |
| DwgToDict.StripFormatNoBraces | backend/app/plugin/module_projects/datas/dwg2dict.py:118 | removing the formatting codes leaves no `{` or `}` |
| DwgToDict.StripBlankChars | backend/app/plugin/module_projects/datas/dwg2dict.py:117 | removing blanks keeps exactly the non-whitespace characters |
| DwgToDict.ReplaceSubClean | backend/app/plugin/module_projects/datas/dwg2dict.py:133-138 | the output of `replace_sub` holds no whitespace and no braces |
| DwgToDict.ReplaceSubPlain | backend/app/plugin/module_projects/datas/dwg2dict.py:133-138 | text without backslashes, braces or whitespace is unchanged, and an output without backslashes is a fixed point |
| DwgToDict.M5RoundTrip | backend/app/plugin/module_projects/datas/dwg2dict.py:119-134 | a `\M+5` escape of two bytes becomes their GBK text, or stays as matched when decoding raises |
| DwgToDict.URoundTrip | backend/app/plugin/module_projects/datas/dwg2dict.py:120-135 | a `\U+XXXX` escape of a character becomes that character |
| DwgToDict.FirstLabel | backend/app/plugin/module_projects/datas/dwg2dict.py:147-148 | the labels are tried in list order, and the first one that occurs wins |
| DwgToDict.AfterLabel | backend/app/plugin/module_projects/datas/dwg2dict.py:149 | `value.split(label)[1]` is strictly shorter than value |
| DwgToDict.PeelStep | backend/app/plugin/module_projects/datas/dwg2dict.py:147-155 | a round happens exactly when some label occurs; it writes the first such label, and the recursive call's value is strictly shorter than the current one |
| DwgToDict.PeeledWrites | backend/app/plugin/module_projects/datas/dwg2dict.py:149-155 | `check_text` writes only labels and the key it was given, every written text is free of `：`, and no entry is lost |
| DwgToDict.PeeledNoLabel | backend/app/plugin/module_projects/datas/dwg2dict.py:147-148 | a value with no label in it leaves the dictionary unchanged |
| DwgToDict.ProjectInfo.CheckText | backend/app/plugin/module_projects/datas/dwg2dict.py:141-155 | the method leaves the dictionary that the peeling function describes |
| DwgToDict.Round | backend/app/plugin/module_projects/datas/dwg2dict.py:217-218 | `round()` gives the nearest integer, ties to even |
| DwgToDict.InsertRowWithKey | backend/app/plugin/module_projects/datas/dwg2dict.py:239 | inserting a row puts it before every row with the same key and leaves the others in order |
| DwgToDict.SortRowsStable | backend/app/plugin/module_projects/datas/dwg2dict.py:239 | the rows are sorted by ascending x and then descending y; the result is a permutation; rows with equal keys keep their order |
| DwgToDict.TitleStep | backend/app/plugin/module_projects/datas/dwg2dict.py:224-233 | one more title block keeps a stored non-empty part number and warns when its own differs; otherwise it stores its own |
| DwgToDict.DispatchRows | backend/app/plugin/module_projects/datas/dwg2dict.py:208-222 | the rows are those of the non-empty 8-attribute blocks, with rounded x and y, in drawing order; blocks whose texts are all empty add nothing |
| DwgToDict.DispatchTitles | backend/app/plugin/module_projects/datas/dwg2dict.py:223-233 | the page counter counts the non-empty 17-attribute blocks; 部件编号 is absent without a title block, the first non-empty part number among them, and "" when all are empty |
| DwgToDict.DispatchMsgs | backend/app/plugin/module_projects/datas/dwg2dict.py:226-237 | the messages are one warning per later title block with a different part number and one error per block with any other attribute count |
| DwgToDict.CleanAttributes | backend/app/plugin/module_projects/datas/dwg2dict.py:210-213 | the attribute loop applies `replace_sub` to every text |
| DwgToDict.DxfToDict | backend/app/plugin/module_projects/datas/dwg2dict.py:191-241 | the method computes the dispatch result, sorts the rows, and sets 零件数量 |
| DwgToDict.DxfToDictOutcome | backend/app/plugin/module_projects/datas/dwg2dict.py:208-241 | stated on the blocks: the data is sorted, stable and a permutation of the table rows; 零件数量 is their number; the page count, part number and messages are as above |

## Left out

- `dwg2dxf` is not part of this model. It runs the ODA converter as a subprocess and rewrites code pages in a file on disk.
- ezdxf file reading is not modelled. A drawing is given as its sequence of INSERT blocks: the raw attribute texts and the insertion point.
- `get_project_info` is not part of this model:
  - its MTEXT scan;
  - its comparison of a dictionary with an alias of itself (a branch that never fires and names an undefined variable);
  - the page-count cross-check after the block loop, which reads keys that do not exist and raises KeyError;
  - the final merge of the project information.

  `DwgToDict.DxfData` stops at 零件数量.
- GBK decoding (`binascii.unhexlify(...).decode('gbk')`) is the parameter `gbk`, a partial function.
- DwgToDict.DecodeU: for a `\U` escape that names a surrogate code point, the model keeps the escape text. A Dafny string cannot hold a lone surrogate, whereas Python's `chr` would return one.
- WtData.MyInt: only the ASCII digits `0`-`9` are modelled as digits. Python's `\d` and `int()` also accept every other Unicode decimal digit, so for the full-width code `１２` Python's `myint` gives 12 where the model gives 0. That difference carries into the code helpers and `generate_wtcode`. Runs of any length are read. CPython 3.11 and later raise ValueError on a run of more than 4300 digits, and `myint` then returns 0; the model does not have that limit.
- `int()` and `float()` parsing in `list2tree` are the parameters `toInt` and `toReal`. The ValueError they raise on malformed text is not modelled.
- DwgToDict.Round: the insertion point is an exact real number. Infinite and NaN coordinates, which make Python's `round` raise, are not modelled.
- `list.sort` is modelled as a functional stable insertion sort, not an in-place Timsort. Stability and the key determine the result uniquely; `DwgToDict.SortRowsStable` proves both.
- `list2tree`'s dictionaries are shared between `node_map`, the children lists and `tree`. The model replaces this sharing with key indirection: a map from a key to its child keys, materialised into a value tree. `remove_empty_children`, which deletes fields in place, becomes a function on that tree. The in-place wtcode assignment of `getwtcode` is modelled on values too.
- Diagnostics are `Msg` values, not formatted strings. `print` and `myprint` are left out.
- The CRUD services, controllers, schemas, ORM models, the HTTP plumbing and the frontend are not part of this model.
