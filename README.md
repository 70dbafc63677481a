# i18n key-usage resolution and key enumeration, in Dafny

The system helps translate the English string table `en.json` of a
TypeScript/React front end. Two programs are modelled here.

The Go program (`main.go`) does four things:

- It flattens the nested JSON document into an ordered list of dotted
  paths with their values (`flattenJSON`, fed by the order-preserving
  `parseOrderedJSON`).
- It scans the `.ts`/`.tsx` sources for calls `t("fragment")`. For each
  call it finds the enclosing function, names it, and forms the key
  `<function name>.<fragment>`. Every flattened entry with exactly that path
  is marked as used. The record keeps the file and the function's source
  text, with the fragment replaced by `---<English text>---`
  (`createTrContext`, `findParentFunction`, `getFunctionName`).
- It hands the records to the translation step, which is not modelled.
- It rebuilds a nested map from the records' dotted paths
  (`serializeToJSON`).

The Bun script (`index.ts`) walks the same document with `iterateObject`.
Each string leaf becomes a result holding its key array, its text and the
translation from `processKV`/`trSimple`.

The modules are:

| module | file | models |
|---|---|---|
| `Wrappers` | wrappers.dfy | `Option` and `Result` |
| `JsonDoc` | json.dfy | the parsed JSON value, and gjson's `String()` of a value |
| `DottedPath` | dotted_path.dfy | `strings.Split` on `"."` and its inverse join |
| `Flatten` | flatten.dfy | `flattenJSON` |
| `TextReplace` | text_replace.dfy | `strings.Replace(s, old, new, -1)` |
| `KeyUsage` | key_usage.dfy | `findParentFunction`, `getFunctionName`, `createTrContext` |
| `Unflatten` | unflatten.dfy | the map-building loop of `serializeToJSON` |
| `KeyWalk` | key_walk.dfy | `iterateObject`, `processKV`, `trSimple` |
| `Scenarios` | scenarios.dfy | one worked example of the Go pipeline |

Several things are modelled as plain values:

- A source file is the list of query matches the tree-sitter query yields
  for it, or the error reading or parsing it gave.
- A match carries the callee's text, the key fragment, and the chain of
  syntax nodes from the callee up to the root. Each node has its kind, its
  `name`/`key` field texts and its source text.
- In `index.ts`, the output of the model chain inside `trSimple` is a
  parameter (`produced`).

## Model

| member | source | states |
|---|---|---|
| DottedPath.JoinKey | main.go:302-305 | flattenJSON's `newKey`: the key itself under the empty prefix, otherwise prefix, ".", key; `DottedSnoc` shows it extends a key path by one key |
| DottedPath.Split | main.go:153 | splitting on "." yields at least one segment, and no segment contains a dot |
| DottedPath.JoinSplit | main.go:153 | joining the segments of a path with "." gives the path back: splitting loses nothing |
| DottedPath.SplitJoin | main.go:153 | dot-free segments (at least one) joined with "." split back into exactly those segments |
| DottedPath.SplitDotFree | main.go:153 | a dot-free key is a single segment |
| DottedPath.SplitCons | main.go:153 | splitting `k.x` for a dot-free `k` gives `k` followed by the segments of `x` |
| DottedPath.JoinIsJoinWith | main.go:153 | joining with "." is `TextReplace.JoinWith` with the separator ".": one model of `strings.Join` |
| DottedPath.SplitIsPieces | main.go:153 | splitting on "." is `TextReplace.Pieces` with the pattern ".": one model of `strings.Split` for main.go:153 and main.go:420 |
| DottedPath.JoinSnoc | main.go:302-305 | joining a path extended by one key is the joined path, ".", then the key |
| DottedPath.DottedSnoc | main.go:302-305 | for a key array with non-empty keys, extending it by a key and dot-joining gives flattenJSON's `newKey` for that key under the array's dotted prefix |
| Flatten.Flattened | main.go:299-315 | no entry emitted holds an object, and under a non-empty prefix every emitted path starts with the prefix and "." |
| Flatten.FlattenJSON | main.go:299-315 | the loop with its recursive call returns exactly the flattening `Flattened(parsed, prefix)` |
| Flatten.QualifiedBelow | main.go:302-308 | a path below `prefix.key` is also below `prefix` |
| Flatten.FlattenedValues | main.go:301-312 | the emitted values are the document's non-object leaves, each once, in document order, unchanged; an empty object contributes nothing |
| Flatten.FlattenedAppend | main.go:301-312 | flattening the members `a + b` is flattening `a`, then `b` |
| Flatten.FlattenedBelow | main.go:302-308 | flattening under prefix `k` is the root flattening with every path prefixed by `k.` |
| Flatten.FirstSegment | main.go:302-308 | the first segment of every root path is one of the document's member keys |
| Flatten.FlattenedUniquePaths | main.go:299-315 | when sibling keys are non-empty, dot-free and distinct, the emitted paths are pairwise distinct |
| Flatten.FlattenedNonEmpty | main.go:307-311 | a non-empty document with no empty object emits at least one entry |
| KeyUsage.NearestFunction | main.go:432-440 | returns the position of a function_declaration, arrow_function or method_definition node with no such node closer to the call; returns none exactly when the chain has none |
| KeyUsage.FindParentFunction | main.go:432-440 | the parent-walking loop returns `NearestFunction` of the chain |
| KeyUsage.GetFunctionName | main.go:442-478 | a non-empty name is always the text of the node's `name` field, or of the parent's `name` or `key` field |
| KeyUsage.NameDispatchAgrees | main.go:447-477 | the nested switch is the table: declarations and methods use their own name; an arrow function uses its variable_declarator's name or its pair's key; anything else is anonymous |
| KeyUsage.Resolve | main.go:403-414 | a match is ignored exactly when the callee is not `t` or no function encloses it; otherwise the key ends in "." and the fragment |
| KeyUsage.InitialRecords | main.go:340-345 | one record per entry, in order, with its path and text, not found, and every other field empty |
| KeyUsage.ApplyMatch | main.go:403-423 | an ignored match changes nothing; a record changes only when the match's key equals its path exactly |
| KeyUsage.ApplyMatches | main.go:397-426 | the matches of one file keep the number of records |
| KeyUsage.ScanFiles | main.go:374-427 | a successful scan keeps the number of records |
| KeyUsage.ApplyMatchInPlace | main.go:403-425 | updating the results array in place leaves it equal to `ApplyMatch` of its old contents |
| KeyUsage.CreateTrContext | main.go:339-430 | a fresh array on success, holding exactly `TrContext`'s records; on failure, `TrContext`'s error |
| KeyUsage.ScanFailureSticks | main.go:374-378 | after the first failing file the result is that failure, whatever files follow |
| KeyUsage.ApplyMatchesAligned | main.go:421 | applying matches keeps every record's path and text and leaves its translation fields empty |
| KeyUsage.ScanAligned | main.go:374-427 | a successful scan keeps every record aligned with its entry |
| KeyUsage.TrContextAligned | main.go:340-345 | the result holds one record per flattened entry, in the same order, with that entry's path and `String()` text and no translation |
| KeyUsage.ScanFailsIff | main.go:374-388 | the scan fails exactly when some file cannot be read or parsed, with the error of the first such file |
| KeyUsage.TrContextFailsIff | main.go:374-388 | createTrContext fails exactly when some file cannot be read or parsed |
| JsonDoc.StringOf | main.go:344 | gjson's `String()`: a string's decoded text, "true"/"false", "" for null, and the raw text of numbers, arrays and objects; `TrContextAligned` states every record's text is this of its entry |
| KeyUsage.UsedRecord | main.go:420-421 | the record a resolving match writes: the entry's path and `String()` text, `usageFound` true, the file, and the function text marked by `TextReplace.ReplaceAll`; `SnippetMarksText` and `SnippetPieces` state the snippet |
| KeyUsage.TrContext | main.go:339-430 | what createTrContext returns: the initial records scanned over the files; `CreateTrContext` computes it, and `TrContextAligned`, `TrContextFailsIff`, `UsageFoundIff` and `LastUsageWins` state its content |
| KeyUsage.ApplyMatchesUnused | main.go:416-423 | a record no match resolves to is left as it was |
| KeyUsage.ApplyMatchesLast | main.go:416-423 | a record is the one written by the last match of the file that resolves to its path |
| KeyUsage.ApplyMatchesFound | main.go:416-423 | after one file, `usageFound` holds exactly when it held before or some match resolves to the path |
| KeyUsage.ScanUnused | main.go:374-427 | over all files, a record no match resolves to is left as it was |
| KeyUsage.ScanLastUsage | main.go:374-427 | over all files, a record comes from the last resolving match, in file order and then match order |
| KeyUsage.ScanFound | main.go:374-427 | over all files, `usageFound` holds exactly when it held before or some match resolves to the path |
| KeyUsage.UsageFoundIff | main.go:416-423 | an entry is marked found exactly when some `t` call in some file resolves to its path; otherwise its record is the initial one |
| KeyUsage.LastUsageWins | main.go:416-423 | a used entry's record carries the file and marked function text of its last usage |
| KeyUsage.SnippetMarksText | main.go:420 | when the fragment occurs in the function text, the stored snippet contains `---<text>---` |
| KeyUsage.SnippetPieces | main.go:420-421 | for a non-empty fragment the stored snippet is the function text cut at each leftmost non-overlapping occurrence of the fragment, joined by `---<text>---`; no piece still contains the fragment |
| TextReplace.ReplaceAll | main.go:420 | `strings.Replace(s, old, new, -1)`: copy up to the leftmost occurrence, write the replacement, go on after it; an empty pattern puts the replacement before every character and at the end; the lemmas below state its meaning |
| TextReplace.ReplaceAbsent | main.go:420 | with no occurrence of the pattern the text is unchanged |
| TextReplace.ReplaceBySelf | main.go:420 | replacing a pattern by itself leaves the text unchanged |
| TextReplace.InterleaveEmpty | main.go:420 | an empty pattern with an empty replacement leaves the text unchanged |
| TextReplace.ReplaceMarks | main.go:420 | if the pattern occurs, the replacement occurs in the result |
| TextReplace.Index | main.go:420 | `strings.Index` is -1 or a position at which the whole pattern fits |
| TextReplace.IndexFirst | main.go:420 | `strings.Index` returns the first position where the pattern occurs, and -1 exactly when it occurs nowhere |
| TextReplace.PiecesJoin | main.go:420 | the text between the leftmost non-overlapping occurrences, joined with the pattern, gives the text back |
| TextReplace.PiecesFree | main.go:420 | no piece contains the pattern, so no occurrence is left wholly inside the text kept between the cuts |
| TextReplace.ReplaceByPieces | main.go:420 | replacing is joining those pieces with the replacement, so each leftmost non-overlapping occurrence, and nothing else, becomes the replacement |
| TextReplace.OverlapLeftmost | main.go:420 | an occurrence overlapping an earlier one is not replaced: `aa` in `aaa` gives `Xa`, although `aa` also occurs at index 1 |
| Unflatten.Insert | main.go:154-174 | on success only the first segment's root entry is added or changed and every other root entry is kept; the only failure is the type-assertion panic |
| Unflatten.Plant | main.go:154-174 | the cursor loop (descend, then set the last key) computes `Insert` |
| Unflatten.Grow | main.go:152-175 | records only add root keys; the only failure is the panic |
| Unflatten.SerializeTree | main.go:151-175 | the loop over the records computes `Grow` from the empty map with each record's path and `Tr` |
| Unflatten.GrowAppend | main.go:152-175 | processing `a + b` is processing `a`, then `b` from its result |
| Unflatten.GrowFailureSticks | main.go:172 | after a panic later records change nothing |
| Unflatten.InsertFindsLeaf | main.go:155-158 | after an insertion the path leads to the value stored |
| Unflatten.InsertFailsIff | main.go:168-172 | an insertion panics exactly when a proper prefix of its path already leads to a string |
| Unflatten.InsertOverwrites | main.go:158 | inserting at the same path again leaves only the second value |
| Unflatten.InsertKeepsOther | main.go:154-174 | a string stored at one path survives an insertion at another path unless the new path ends above it |
| Unflatten.GrowLastWins | main.go:152-175 | a path holds the `Tr` of the last record with that path, when no later record ends above it |
| Unflatten.GrowBeneath | main.go:166-172 | records all below key `k` build, below `k`, the tree they would build on their own |
| Unflatten.Shape | main.go:151-175 | the nested map of a document has exactly the document's member keys at its root |
| Unflatten.GrowMember | main.go:151-175 | the leaves of one member build that member's node |
| Unflatten.RoundTrip | main.go:151-175 | building from the flattening of a well-formed document (non-empty, dot-free, distinct sibling keys and no empty object) gives back the document's shape, added to a map that does not use its keys |
| Unflatten.SerializedShape | main.go:141 | the map written for a well-formed document has the document's shape with "" at every leaf, because the translations are made on copies (main.go:104, main.go:129) |
| KeyWalk.TrSimple | index.ts:223-226 | whatever the model produced, the translation returned is empty with score 0 |
| KeyWalk.ProcessKV | index.ts:52-58 | the keys and the value come back unchanged beside trSimple's translation |
| KeyWalk.Decimal | index.ts:20 | the key Object.entries gives an index is a non-empty string of digits, with no leading zero, that spells the index |
| KeyWalk.DecimalOfDigits | index.ts:20 | every digit string without a leading zero is the key of the index it spells, so distinct indices get distinct keys and the keys are exactly the canonical numerals |
| KeyWalk.Walk | index.ts:17-34 | every result's keys extend the path by at least one key; every translation is the empty one |
| KeyWalk.Visit | index.ts:21-30 | as for `Walk`, for the results of one entry |
| KeyWalk.Enumerate | index.ts:17-34 | iterateObject's outcome: the TypeError for null, otherwise the walk of every entry; `WalkExact`, `EnumerateCount` and `EnumerateDistinct` state its content |
| KeyWalk.IterateObject | index.ts:17-34 | the loop, with its recursive spread, returns `Enumerate`: the TypeError for null, otherwise the walk of every entry |
| KeyWalk.WalkExact | index.ts:17-34 | a result with keys `path + p` and text `s` exists exactly when the value holds the string `s` at key path `p` |
| KeyWalk.VisitExact | index.ts:21-30 | as for `WalkExact`, for one entry |
| KeyWalk.WalkCount | index.ts:17-34 | the walk yields exactly as many results as the value has string leaves, a string entry counting once and a container by its own leaves |
| KeyWalk.VisitCount | index.ts:21-30 | as for `WalkCount`, for one entry: one result for a string, none for a number, boolean or null |
| KeyWalk.EnumerateCount | index.ts:233-234 | for any value but null iterateObject succeeds and the key count logged is the number of string leaves |
| KeyWalk.EntryKeysDiffer | index.ts:20 | with distinct member keys, two different entries of a value have different keys; array and string indices differ because their decimal texts do |
| KeyWalk.WalkDistinct | index.ts:17-34 | when every object has distinct member keys, no two results share a key path, and no result of the first `n` entries lies below a later entry's key |
| KeyWalk.VisitDistinct | index.ts:21-30 | one entry's results have distinct key paths, all continuing with that entry's key |
| KeyWalk.EnumerateDistinct | index.ts:17-34 | for a non-null document with distinct member keys, iterateObject succeeds and gives every key path at most once |
| KeyWalk.StringEntriesAppend | index.ts:22-30 | the string entries of `a + b` are those of `a`, then those of `b` |
| KeyWalk.WalkFlattens | index.ts:17-34 | on objects without arrays or empty keys, the walk's results read as dotted entries are the string entries of flattenJSON's output, in order |
| KeyWalk.VisitFlattens | index.ts:21-30 | as for `WalkFlattens`, for one member |
| KeyWalk.AgreesWithFlatten | index.ts:233-234 | for such a document iterateObject succeeds, and the key count logged is the number of string entries flattenJSON emits, at the same paths with the same texts |
| KeyWalk.FlatteningsDiffer | index.ts:22-30 | for `{"n":1,"a":["x"]}` flattenJSON emits the number and the array while iterateObject yields only `x`, under keys `a`, `0` |
| Scenarios.HomeTitleFlattened | main.go:299-315 | `{"Home":{"title":"Welcome"}}` flattens to the single entry `Home.title` with value "Welcome" |
| Scenarios.HomeResolves | main.go:403-414 | `t("title")` inside `const Home = () => ...` resolves to `Home.title` |
| Scenarios.HomeScan | main.go:374-425 | a single resolving match marks the single entry as used in that file |
| Scenarios.HomeTitleScenario | main.go:339-430 | for that document and a page using `t("title")` in `Home`, the record for `Home.title` is found, with text "Welcome", file `web/page.tsx` and snippet `() => t("---Welcome---")` |
| Scenarios.HomeSnippet | main.go:420 | replacing `title` in `() => t("title")` by `---Welcome---` gives `() => t("---Welcome---")` |

## Left out

- The language model calls are not modelled. These are `simpleTranslate`
  and `translateWithFunContext` (main.go:195-289), `TranslateWithAIContext`,
  and the model chain inside `trSimple`. Only the last has a stand-in: the
  parameter `produced` of `KeyWalk.TrSimple`, which it discards. The Go
  calls need none, because their results are written to goroutine-local
  copies and never reach a record (next line), so every record's
  translation fields stay empty.
- The goroutine fan-out and the results channel (main.go:99-139) are not
  modelled. Each goroutine works on its own copy of a record, so no
  translation reaches `serializeToJSON`. The model keeps this effect:
  `SerializedShape` has "" at every leaf.
- Tree-sitter is not modelled: parsing, the query language and its anchor,
  query execution, and `NewQuery` errors. A file is given as its list of
  matches.
- JSON parsing is not modelled (gjson, `parseOrderedJSON` and `JSON.parse`).
  A document is given already parsed. A top-level value that is not an
  object is not modelled for the Go side. Duplicate keys are kept in order,
  as gjson's `ForEach` yields them. `JSON.parse` would keep only the last
  one. The `index.ts` side does not model that; instead the distinct-path
  lemmas (`KeyWalk.EnumerateDistinct`) take distinct keys as a hypothesis.
- gjson's `String()` of a non-integer number reformats the float. The model
  returns the number's raw text.
- Object.entries puts integer-like keys first, in ascending order. The
  model keeps document order.
- A top-level string is split into UTF-16 code units by Object.entries. The
  model splits it into characters.
- I/O is not modelled: `readJSON`, `findTSFiles` and `.gitignore`
  handling, `os.ReadFile`, the write of `translations.json` (main.go:185),
  `loadJSON` (index.ts:8-11), and console output. `saveJSON`
  (index.ts:13-15) is defined but never called.
- The TypeError that Object.entries(null) throws is modelled by its type
  alone (`KeyWalk.NullEntries`). The message text depends on the JavaScript
  engine running the script.
- Unflatten.SerializeTree: `json.MarshalIndent`'s sorted key order and the
  file write are not modelled. The result is the map itself.
- Unflatten.Plant: the Go cursor aliases the nested maps and writes into
  them in place. The model descends on values and rebuilds the path upward,
  so aliasing is not captured.
- KeyUsage.GetFunctionName: the `nil` node case is not modelled, because it
  is only reached after `findParentFunction` has returned a node.
- The inner loop over `match.Captures` (main.go:403-404) acts once per match.
  The query's captures are the callee identifier and then the string
  fragment, and only the identifier can be `t`.
