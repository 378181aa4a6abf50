# Skyrim characters: cleaning, selection and the location tree

This project models the data path of the Skyrim character visualisation in Dafny:

- **Cleaning.** Each raw JSON character record is cleaned into a character object (`clean_character`). Its keys are first repaired: non-breaking spaces become ordinary spaces. Then the location, the text fields, the factions, the primary skill and the three stats are read from the record.
- **Selection.** The cleaned array goes through `select_characters`:
  - every record whose name was seen before is marked with the exclusion sentinel `"x"`;
  - every location is rewritten by a first-match-wins chain to a canonical settlement or `"x"`;
  - the records that keep a location and have a usable gender are collected in order.
- **Tree.** The selected characters are grouped into a four-level tree (`get_tree`). The levels are the root "Skyrim", one node per location, one node per value of the grouping attribute, and one leaf per character carrying the chosen stat.
- **Bar data.** `assignValuesForBars` computes the per-node total that sizes the bars. The bar step of `createBarGraph` writes that total into each child of the focused node and sorts the children by it, in place.
- **Ids.** `correctId` turns a name into an element id.

The modules follow the program's files. DataCleaning.js is split in two: `clean_character` is in `DataCleaning` and `select_characters` in `Selection`. Skyrim.js is split three ways, and the JavaScript built-ins and d3's grouping have modules of their own:

| module | file | models |
|---|---|---|
| `JsBuiltins` | `js_builtins.dfy` | `trim`, `split` with a string separator, `join`, and `parseInt` (ECMA-262, section 19.2.5); NaN is `None` |
| `DataCleaning` | `data_cleaning.dfy` | `clean_character`, with `get_location` and `fix_spaces_in_json_keys` |
| `Selection` | `selection.dfy` | `select_characters` (a method over an array) and the pipeline `select_characters(characters_raw.map(clean_character))` |
| `D3Group` | `d3_group.dfy` | the meaning of `Array.from(d3.group(xs, key))`: distinct keys in order of first appearance, each with its members in input order |
| `SkyrimTree` | `skyrim_tree.dfy` | `get_tree` and `assignValuesForBars` |
| `SkyrimBars` | `skyrim_bars.dfy` | the bar-data step: assign the aggregates, then sort the children array in place, descending |
| `CorrectId` | `correct_id.dfy` | `correctId` |

The globals `groupingSpecifier` and `statsSpecifier` (Skyrim.js:25-26) are parameters of `GetTree`. Their possible values are the enumerations `GroupingAttribute` and `Stat`.

### Where the code and its description disagree

The model follows the code as written:

- **"Stonehills" and "Shor's Stone".** These branches (DataCleaning.js:186-193) compare with `==` instead of assigning, so they change nothing. A record located there keeps its location and can be selected. It does not fall through to `"x"`.
- **"Falkreath" and "Falkreath Jail".** They are rewritten to "Dawnstar" (DataCleaning.js:137-141).
- **The "Nazeem" override.** It comes after the Solitude … Winterhold branches (DataCleaning.js:177-180). So a "Nazeem" in Solitude stays in Solitude. A later "Nazeem" already marked `"x"` is rewritten to "The Cloud District" and survives when its gender is neither "none" nor "Radiant", so two selected records can share that name (`Selection.NazeemDuplicatesSurvive`).
- **Deduplication.** It only consults the set of names seen so far. If the first record with a name is excluded by the chain, every later record with that name is excluded too, and no record with the name survives (`Selection.ExcludedFirstOccurrence`). So "exactly one of a duplicate pair survives" does not hold.
- **Location precedence.** It is by key presence, not by truthiness. An empty "Home City" gives the location `""` (`DataCleaning.LocationByPresence`) instead of falling back to "Home Town" or "Location". No branch of the chain recognises `""`, so such a record is excluded unless its name is "Nazeem" (`Selection.UnknownLocationsExcluded`).

## Model

| member | source | states |
|---|---|---|
| `JsBuiltins.Trim` | DataCleaning.js:61-67 | the result is no longer than the input and has no white space at either end |
| `JsBuiltins.TrimCharacterisation` | DataCleaning.js:61-67 | trimming removes exactly the leading and trailing white space: `Trim(a + m + b) == m` for white-space `a`, `b` and trimmed `m` |
| `JsBuiltins.TrimIdempotent` | DataCleaning.js:62 | trimming twice is trimming once |
| `JsBuiltins.IndexOf` | DataCleaning.js:39 | a found index is an occurrence, and no earlier one exists; `None` means no occurrence at all |
| `JsBuiltins.Split` | DataCleaning.js:39 | there is at least one piece, joining the pieces with the separator gives back the string, and no piece contains the separator |
| `JsBuiltins.SplitHead` | DataCleaning.js:39 | `split(sep)[0]` is the prefix before the first occurrence of `sep`, or the whole string when there is none |
| `JsBuiltins.FirstPieceUnique` | DataCleaning.js:39 | for `", "` and `"; "` (two different characters) only one prefix of a string is its first piece, so the pieces stated below are determined |
| `JsBuiltins.ParseInt` | DataCleaning.js:74-76 | `parseInt(s)` with no radix: leading white space, an optional sign, a `0x`/`0X` prefix read in base 16, then the longest digit run, NaN (`None`) when there is none; its meaning is stated by `ParseIntOfDecimal` and `ParseIntOfNonNumeric` |
| `JsBuiltins.ParseIntOfDecimal` | DataCleaning.js:74-76 | `parseInt` reads back any integer written in decimal, followed by nothing or by a character that is neither a digit nor `x`/`X` (after a lone `0` those would make a hexadecimal prefix) |
| `JsBuiltins.ParseIntOfNonNumeric` | DataCleaning.js:74-76 | `parseInt` of the empty string, or of text that starts with no digit, space or sign, is NaN |
| `DataCleaning.FixKey` | DataCleaning.js:50 | `key.split("\u00A0").join(" ")`; `FixKeyCharwise`, `FixKeyRemovesNoBreakSpaces` and `FixKeyIdempotent` state what it does |
| `DataCleaning.FixedKeys` | DataCleaning.js:45-54 | the object built by assigning each fixed key its value in visiting order; `FixedKeysDomain`, `FixedKeysLastWins` and `FixedKeysOfFixed` state its keys and values |
| `DataCleaning.FixKeyCharwise` | DataCleaning.js:50 | the key fix keeps the length, turns every U+00A0 into a space and keeps every other character in place |
| `DataCleaning.FixKeyRemovesNoBreakSpaces` | DataCleaning.js:50 | no U+00A0 is left in a fixed key |
| `DataCleaning.FixKeyIdempotent` | DataCleaning.js:50 | fixing twice is fixing once, and a key without U+00A0 is kept |
| `DataCleaning.FixSpacesInJsonKeys` | DataCleaning.js:45-54 | the loop builds the object of key-by-key assignments in visiting order |
| `DataCleaning.FixedKeysDomain` | DataCleaning.js:45-54 | the fixed object has exactly the fixed names of the raw keys, and none of them holds U+00A0 |
| `DataCleaning.FixedKeysLastWins` | DataCleaning.js:48-51 | a key that no later key fixes to the same name keeps its value, so the last of several colliding keys wins |
| `DataCleaning.FixedKeysOfFixed` | DataCleaning.js:45-56 | fixing the keys of a record whose keys are already fixed changes nothing |
| `DataCleaning.TextField` | DataCleaning.js:61-67 | a text field is the trimmed raw value when present and non-empty, and exactly `"none"` otherwise |
| `DataCleaning.GetLocation` | DataCleaning.js:25-42 | the location is the first piece before `", "` of the value of the first PRESENT key among "Home City", "Home Town" and "Location", and `"none"` when none is present |
| `DataCleaning.FactionsOf` | DataCleaning.js:68-70 | the field is a list exactly when "Faction(s)" is present and non-empty; its entries are the `"; "`-separated pieces of that value, each trimmed, in order |
| `DataCleaning.SkillOf` | DataCleaning.js:71-73 | the skill is `"none"` when "Primary Skills" is absent or empty, and otherwise the trimmed first piece of it before `", "` |
| `DataCleaning.CleanCharacter` | DataCleaning.js:22-80 | every field is read from the key-fixed record: the six text fields by `TextField`, the location by `GetLocation` then trimmed, the factions, the skill and the three stats by their own readers; so every text field is trimmed and the location and skill hold no `", "` |
| `DataCleaning.CleanCharacterIgnoresNoBreakSpaces` | DataCleaning.js:56 | a record spelled with U+00A0 in its keys cleans exactly like the same record with ordinary spaces |
| `DataCleaning.LocationByPresence` | DataCleaning.js:29-30 | a present but empty "Home City" beats "Home Town" and "Location" and gives the location `""` |
| `DataCleaning.StatOf` | DataCleaning.js:74-76 | `parseInt(character[key])`, NaN for an absent key; `StatOfNumeral` and `StatOfAbsent` state its values |
| `DataCleaning.StatOfNumeral` | DataCleaning.js:74-76 | a stat written as a decimal numeral, possibly followed by text such as " (leveled)", is read as its value |
| `DataCleaning.StatOfAbsent` | DataCleaning.js:74-76 | an absent or empty stat is NaN, never 0 |
| `Selection.CanonicalLocation` | DataCleaning.js:99-208 | the chain always leaves `"x"` or one of the canonical settlements, "Stonehills" and "Shor's Stone" included |
| `Selection.UnrecognisedExcluded` | DataCleaning.js:177-207 | a location no branch recognises becomes `"x"`, or "The Cloud District" for "Nazeem" |
| `Selection.FalkreathGoesToDawnstar` | DataCleaning.js:137-141 | "Falkreath" and "Falkreath Jail" become "Dawnstar" for any name |
| `Selection.StonehillsAndShorsStoneKept` | DataCleaning.js:186-193 | "Stonehills" and "Shor's Stone" are kept for any name but "Nazeem" |
| `Selection.NazeemOverrideComesLate` | DataCleaning.js:99-184 | a "Nazeem" in Solitude stays in Solitude; a "Nazeem" in Whiterun goes to "The Cloud District" |
| `Selection.NazeemOverrideOrder` | DataCleaning.js:99-180 | a "Nazeem" goes to "The Cloud District" exactly when no branch before the override recognises the location, and a location those branches recognise is rewritten the same way for every name |
| `Selection.UnknownLocationsExcluded` | DataCleaning.js:205-207 | "Atmora" and the empty location become `"x"` for any name but "Nazeem" |
| `Selection.Canonicalized` | DataCleaning.js:86-209 | the first loop keeps the array's length and changes only the `location` of each record |
| `Selection.DuplicateMarked` | DataCleaning.js:84-95 | a record whose name occurs earlier ends up `"x"`, or "The Cloud District" when the name is "Nazeem" |
| `Selection.FirstOccurrenceRewritten` | DataCleaning.js:86-97 | the first record with a name only goes through the chain |
| `Selection.Survivors` | DataCleaning.js:211-222 | the records passing the survival test, in order, never more than the input; `SurvivorsMembership`, `SurvivorsAppend`, `SurvivorOrigin` and `SurvivorOrigins` state which and in what order |
| `Selection.Selected` | DataCleaning.js:82-225 | what `select_characters` returns: the survivors of the canonicalised records; `SelectedRecords`, `SelectedNamesUnique`, `NazeemDuplicatesSurvive` and `ExcludedFirstOccurrence` state its properties |
| `Selection.SurvivorsMembership` | DataCleaning.js:211-222 | a record is collected exactly when it is in the array with a location other than `"x"` and a gender other than `"none"` and `"Radiant"` |
| `Selection.SurvivorsAppend` | DataCleaning.js:211-222 | the collected records keep their array order |
| `Selection.SurvivorOrigin` | DataCleaning.js:211-222 | each collected record is a record of the array at an index no smaller than its own |
| `Selection.SurvivorOrigins` | DataCleaning.js:211-222 | two collected records come from array records in the same order |
| `Selection.SelectedRecords` | DataCleaning.js:82-225 | every selected record has a canonical settlement and a usable gender, and every canonicalised record that passes the test is selected |
| `Selection.SelectedNamesUnique` | DataCleaning.js:84-95 | two selected records never share a name, except "Nazeem" |
| `Selection.NazeemDuplicatesSurvive` | DataCleaning.js:177-180 | a later "Nazeem" with a usable gender is selected, in "The Cloud District" |
| `Selection.ExcludedFirstOccurrence` | DataCleaning.js:84-95 | when the first record with a name other than "Nazeem" is excluded, no record with that name is selected |
| `Selection.MarkAndCanonicalize` | DataCleaning.js:84-209 | the first loop leaves each record with its dedup mark and chain rewrite applied, and nothing else changed |
| `Selection.CollectSelectable` | DataCleaning.js:211-222 | the second loop collects exactly the records that pass the survival test, in array order |
| `Selection.SelectCharacters` | DataCleaning.js:82-225 | the array becomes the canonicalised records and the result is the survivors of the new array |
| `Selection.CleanAll` | DataCleaning.js:15 | record `i` of the result is `clean_character` of raw record `i` |
| `Selection.GetJsonCharacterObjects` | DataCleaning.js:15-19 | the pipeline returns the selection of the cleaned records |
| `D3Group.Keys` | Skyrim.js:481 | the distinct keys in order of first appearance; `KeysDistinct`, `KeysComplete` and `KeysOfPrefix` state this |
| `D3Group.Members` | Skyrim.js:481 | the elements with key `k`, in input order; `MembersOf` and `MembersAppend` state this |
| `D3Group.Group` | Skyrim.js:481 | `Array.from(d3.group(xs, key))`: the entries for `Keys`, each with its `Members`; `GroupsFor`, `GroupsNonEmpty` and `GroupPartitions` state its properties |
| `D3Group.GroupsFor` | Skyrim.js:481 | there is one entry per key, in key order, holding that key's members |
| `D3Group.KeysDistinct` | Skyrim.js:481 | no key is listed twice |
| `D3Group.KeysComplete` | Skyrim.js:481 | a key is listed exactly when some element has it |
| `D3Group.KeysOfPrefix` | Skyrim.js:481 | the keys of a prefix are a prefix of the keys: order of first appearance |
| `D3Group.MembersOf` | Skyrim.js:481 | an element is a member for `k` exactly when it is in the input with key `k` |
| `D3Group.MembersAppend` | Skyrim.js:485 | member selection distributes over concatenation, so members keep input order |
| `D3Group.GroupsNonEmpty` | Skyrim.js:481 | every listed key has a member |
| `D3Group.GroupPartitions` | Skyrim.js:481 | the groups together hold every element exactly once |
| `SkyrimTree.LeafNodes` | Skyrim.js:489-494 | one leaf per character, in order, carrying its name and the chosen stat, NaN included |
| `SkyrimTree.GroupNodes` | Skyrim.js:485-488 | one level-2 node per group entry, named by its key |
| `SkyrimTree.CityNodes` | Skyrim.js:481-484 | one level-1 node per location entry, named by its location |
| `SkyrimTree.GetTree` | Skyrim.js:474-503 | `get_tree`: the root "Skyrim" over one node per location, one per attribute value there, one leaf per character; `GetTreeWellLeveled`, `GetTreeNames`, `GetTreeNoEmptyGroups`, `LeafOrigin`, `GetTreeLeaves` and `GetTreeTotal` state its shape and contents |
| `SkyrimTree.GetTreeWellLeveled` | Skyrim.js:474-503 | the root is "Skyrim"; each node's level is its depth, and only depth-3 nodes are leaves |
| `SkyrimTree.GetTreeNames` | Skyrim.js:481-485 | the level-1 names are the distinct locations in order of first appearance; the level-2 names under a location are the distinct attribute values there, in order of first appearance |
| `SkyrimTree.CityNodeNames` | Skyrim.js:485-488 | the nodes under one location node are the distinct attribute values of its characters, in order of first appearance, named by them |
| `SkyrimTree.GetTreeNoEmptyGroups` | Skyrim.js:481-488 | no location node and no attribute node is empty |
| `SkyrimTree.LeafOrigin` | Skyrim.js:481-494 | each leaf comes from an input character with the location and attribute value of the nodes above it, and carries that character's name and stat |
| `SkyrimTree.GetTreeLeaves` | Skyrim.js:481-494 | the leaves are the input characters rearranged: each appears exactly once, so the leaf count is the input length |
| `SkyrimTree.Aggregate` | Skyrim.js:376-388 | `assignValuesForBars`: a leaf's value, 1 for NaN, and for an inner node the `reduce` over its children; `AggregateIsLeafSum` and `GetTreeTotal` state its value |
| `SkyrimTree.ChildrenSum` | Skyrim.js:386 | the left-fold `reduce((acc, child) => acc + assignValuesForBars(child), 0)`; `ChildrenSumIsLeafSum` states its value |
| `SkyrimTree.AggregateIsLeafSum` | Skyrim.js:376-388 | a node's total is the sum over the leaves below it, with NaN counting as 1 |
| `SkyrimTree.ChildrenSumIsLeafSum` | Skyrim.js:386 | the `reduce` over the children is the sum over all the leaves below them |
| `SkyrimTree.StatTotalPermutation` | Skyrim.js:386 | the total does not depend on the order of the characters |
| `SkyrimTree.GetTreeTotal` | Skyrim.js:474-503 | `assignValuesForBars` of the whole tree counts every character's stat once, NaN as 1 |
| `SkyrimTree.AggregateExample` | Skyrim.js:376-388 | a group with leaves 10, NaN and 30 totals 41 |
| `SkyrimBars.WithAggregate` | Skyrim.js:253 | the node after `d.value = assignValuesForBars(d)`; `WithAggregateStored` states its properties |
| `SkyrimBars.WithAggregates` | Skyrim.js:253 | the nodes after the `forEach`, one per node, same length; `AssignBarValues` and `PrepareBarData` use it as the new state |
| `SkyrimBars.WithAggregateStored` | Skyrim.js:376-388 | writing the total into `value` does not change the total, the stored value is the total, and storing again changes nothing |
| `SkyrimBars.AssignBarValues` | Skyrim.js:253 | each child gets its own total as its value |
| `SkyrimBars.SortBarsDescending` | Skyrim.js:259 | the sort leaves a permutation of the children whose values do not increase |
| `SkyrimBars.InsertDescending` | Skyrim.js:259 | one insertion step extends the sorted prefix by one and permutes the array |
| `SkyrimBars.SwapAdjacent` | Skyrim.js:259 | a swap exchanges two neighbours and permutes the array |
| `SkyrimBars.PrepareBarData` | Skyrim.js:250-259 | after the step every child holds its total, the children are a permutation of the originals with those totals, and the values do not increase |
| `CorrectId.CorrectId` | Skyrim.js:510-514 | `string_id.split(/[' ]+/).join('')`; `CorrectIdIsDeletion`, `CorrectIdProperties`, `CorrectIdAppend` and `CorrectIdGluesWords` state what it computes |
| `CorrectId.SplitOnRuns` | Skyrim.js:513 | `split(/[' ]+/)` gives at least one piece, none of them holding `'` or a space |
| `CorrectId.Deleted` | Skyrim.js:510-514 | the reference meaning holds no `'` and no space and is no longer than the input |
| `CorrectId.CorrectIdIsDeletion` | Skyrim.js:510-514 | the id is the name with exactly its `'` and space characters deleted, the rest kept in order |
| `CorrectId.CorrectIdProperties` | Skyrim.js:510-514 | the id holds no `'` and no space, a name without them is its own id, and applying the function twice is applying it once |
| `CorrectId.CorrectIdAppend` | Skyrim.js:513 | the id of two names joined is the two ids joined |
| `CorrectId.CorrectIdGluesWords` | Skyrim.js:513 | a run of `'` and spaces between two words disappears, as "Shor's Stone" becomes "ShorsStone" |

## Left out

- The fetch in `get_JSON_character_objects` (DataCleaning.js:3-20) is I/O: `d3.json` and `console.error` are not modelled. The raw records are a parameter, and a failed load corresponds to passing no records.
- All rendering in Skyrim.js is DOM and d3 drawing, and is not modelled. This covers the circle pack, the drawing half of `createBarGraph`, `zoom`/`zoomTo` (floating-point geometry), colour scales, tooltips, button handlers, `window.onload` and `setTitles`.
- `d3.hierarchy(...).sum(...).sort(...)` and `d3.pack` are library calls with their own NaN handling, and are not modelled. The bar totals are computed by `assignValuesForBars` alone.
- Raw values that are not strings (numbers, arrays, objects in the JSON) are not modelled: every raw value is a string.
- The key order of `for...in` is modelled as a given sequence of keys. The rules JavaScript uses to order them are not modelled.
- Numbers are unbounded integers: the floating-point width of JavaScript numbers (precision beyond 2^53, `-0`) is not modelled.
- The white space that `trim` and `parseInt` strip is a fixed predicate over the code points ECMA-262 lists, with the space separators written out. Changes in later Unicode versions are not tracked.
- A leaf object in `get_tree` has no `children` property; in the model a leaf has an empty `children` sequence and `isLeaf` true.
- Aliasing is not modelled. The node objects of the bar step are shared with the tree that `get_tree` built. Sorting `nodeInFocus.data.children` reorders the tree's own children array, and assigning `value` changes the tree's nodes. The model works on one array of node values.
- `SkyrimBars.SortBarsDescending`: its result is stated as a descending permutation, not as the particular (stable) order `Array.prototype.sort` gives to equal values. It is an insertion sort standing for the engine's sort.
- `CorrectId.CorrectIdGluesWords`: the "Shor's Stone" example is stated for all words and separator runs instead of for that literal string.
