# escheck rule check, modelled in Dafny

escheck scans JavaScript source for uses of APIs that are missing in an
older runtime. Its rule set lists unsupported `object.property` pairs, and the
default list holds only `Symbol.iterator`. The analyser parses the text with
acorn and walks the tree with acorn-walk's ancestor walker. For each
`MemberExpression`, it:

1. reads the `name` of the node's object and property children;
2. looks the pair up in the rule category `merberExpression`;
3. keeps the hit only when the node's parent is itself a member expression
   (`a[Symbol.iterator]`, unlike a feature test such as
   `typeof Symbol.iterator === "undefined"`);
4. reports the `{start, end}` range of the first of the last five entries
   of the walker's ancestor list.

`printError` turns each range back into text. The test script merges
several rule files into one rule set: it takes the union of their categories
and concatenates the entries of any category they share.

The project has five modules:

- `Wrappers` (`wrappers.dfy`) holds `Option`. Its `None` stands for JavaScript's `undefined`.
- `NameType` (`name_type.dfy`) holds the node abstraction and the node-kind
  predicates of `src/nameType.ts`. A node keeps its `type`, its `start`/`end`
  offsets and the names of its object and property children. A name is `None`
  when that child is not a plain identifier.
- `Check` (`check.dfy`) holds `src/check.ts`: the matcher, the classifier,
  range extraction, the driver `CheckES5Errors` and the `range2String` slice.
  The driver is a loop over the walker's callbacks, specified by the function
  `Collect`.
- `RuleMerge` (`rule_merge.dfy`) holds `mergeArrayValueObject` and
  `combineCheckList` of `test/index.ts`. `MergeArrayValueObject` is the
  key-by-key reducer as a loop. `Merge` is its specification.
  `CombineCheckList` is the left fold from `{}`.
- `Pipeline` (`pipeline.dfy`) connects the two modules the way the test script
  does. It also works three small programs through the driver and records the
  finding below.

The walker's output is an input here: a sequence of visits, each a node with
the list the walker passed to the callback. acorn-walk's `ancestor` ends that
list with the visited node itself, so the element at index `n-2` is the
parent. The model does not assume pre-order or post-order. The only lemma
that needs the list to be a real root-to-node path says so in its `requires`.

The classifier has only one condition: the parent is a member expression.
There is no call-position condition. `isCallExpression` exists, but the check
never uses it. So `Symbol.iterator()` is not reported
(`Pipeline.CallPositionIsNotReported`).

## Model

| member | source | states |
|---|---|---|
| `NameType.IsIdentifier` | src/nameType.ts:18-20 | holds exactly when the node's `type` is `"Identifier"` (also src/check.ts:169-171) |
| `NameType.IsMemberExpression` | src/nameType.ts:28-30 | holds exactly when the node's `type` is `"MemberExpression"` (also src/check.ts:179-181) |
| `NameType.IsCallExpression` | src/nameType.ts:39-41 | holds exactly when the node's `type` is `"CallExpression"` |
| `NameType.KindsExclusive` | src/nameType.ts:6-10 | no node satisfies two of the three kind predicates, since the enum strings differ |
| `Check.ParseMemberExpression` | src/check.ts:153-161 | the parsed pair is exactly the node's object name and property name, nothing added or swapped |
| `Check.Find` | src/check.ts:143 | `_.find`: a found entry is in the list and equals the parsed pair; nothing found means no entry matches |
| `Check.IsMemberExpressionNodeInFiltList` | src/check.ts:141-145 | true iff both names are defined and `(object, property)` is, by exact case-sensitive equality, an entry of the `merberExpression` category (no category means no match) |
| `Check.DefaultListMatchesOnlySymbolIterator` | src/check.ts:59-61 | with the default `filtList`, a node matches iff its names are `Symbol` and `iterator` |
| `Check.DynamicAccessNeverMatches` | src/check.ts:153-161 | a node whose object or property has no `name` matches no rule set |
| `Check.IsNodePropertyOfExpression` | src/check.ts:126-133 | false on lists of length 0 or 1; otherwise true iff the element at index `n-2` is a `MemberExpression` |
| `Check.FirstOfLastFive` | src/check.ts:109-113 | on a non-empty list, `_.first(_.takeLast(5))` is the element at index `max(0, n-5)` |
| `Check.ExtractErrorMemberExpression` | src/check.ts:101-118 | a range is returned iff the node matches and its parent is a member expression; that range is `{start, end}` of the list element at `max(0, n-5)`, which exists because `n >= 2` |
| `Check.ExtractedRangeCoversNode` | src/check.ts:109-115 | on a root-to-node path of nested ranges, the reported range covers the offending access and belongs to an ancestor at most four levels above it |
| `Check.Step` | src/check.ts:83-91 | the `MemberExpression` callback: it contributes at most one range, exactly when the node is a member expression and extraction succeeds (`if (error) errorList.push(error)`), and that range is the extracted one |
| `Check.Collect` | src/check.ts:81-93 | the collected ranges are never more than the member-expression callbacks |
| `Check.CollectAppend` | src/check.ts:82-92 | collecting over two consecutive stretches of the walk gives the first stretch's ranges followed by the second's (callback order is kept) |
| `Check.CollectSound` | src/check.ts:84-90 | each collected range is the extraction result of some member-expression callback |
| `Check.CollectComplete` | src/check.ts:84-90 | the range of every member-expression callback that passes extraction is collected |
| `Check.CheckES5Errors` | src/check.ts:77-94 | the loop pushing each extracted range yields exactly `Collect` of the callbacks, so at most one range per member-expression callback, in order |
| `Check.Slice` | src/check.ts:201 | lodash's `slice(code, start, end)` for a non-negative start: for a non-negative end, `code[start..min(end, len)]`; for a negative end, `code[start..end + len]`; empty when the start is not below that end; a non-empty result is the substring at `start` |
| `Check.Range2String` | src/check.ts:197-202 | the result is a substring of the code and never longer than it; for a non-negative end it is `code[max(0,start)..min(end, len)]`; for a negative end it is `code[max(0,start)..end + len]`, counting from the back as lodash does; empty when the clamped start is not below the clamped end; `PRINT_RANGE` 0 adds nothing |
| `Check.Range2StringInBounds` | src/check.ts:197-202 | a range inside the code prints exactly the text it covers |
| `Check.PrintError` | src/check.ts:189-211 | one string per range, in order, each the `range2String` of that range |
| `RuleMerge.Merge` | test/index.ts:44-57 | the keys are the union of both key sets; under every key, the entries are the first object's followed by the second's |
| `RuleMerge.MergeCases` | test/index.ts:47-52 | a key in both gets `object[k]` concatenated with `source[k]`; a key in one only keeps that array unchanged |
| `RuleMerge.MergeIdentity` | test/index.ts:44-57 | merging with `{}` on either side gives the other map unchanged |
| `RuleMerge.MergeAssociative` | test/index.ts:44-57 | merging is associative |
| `RuleMerge.MergeArrayValueObject` | test/index.ts:47-56 | the reducer over the union of keys, writing into a fresh `{}`, builds exactly `Merge` of its inputs |
| `RuleMerge.CombineFrom` | test/index.ts:33-35 | the `mergeArr` reduce from an accumulator: its keys are the accumulator's plus every key of the list, and under each key the accumulator's array is followed by the list's arrays in list order |
| `RuleMerge.CombineCheckList` | test/index.ts:32-60 | the keys are those of all rule sets; under each key are the rule sets' arrays concatenated in input-list order |
| `RuleMerge.CombineSmallLists` | test/index.ts:59 | an empty list gives `{}`; a one-element list gives that rule set unchanged |
| `RuleMerge.CombineAppend` | test/index.ts:33-35 | combining a concatenated list is merging the two combined halves |
| `Pipeline.MatchesMerged` | test/index.ts:67-69 | a node matches a merged rule set iff it matches one of the two inputs |
| `Pipeline.MatchesCombined` | test/index.ts:67-69 | a node matches the combination of a list of rule sets iff it matches some element of the list |
| `Pipeline.CheckES5ErrorsAsWritten` | src/check.ts:77-80 | the engine as written checks against `filtList` whatever rule set the caller passes |
| `Pipeline.RulesArgumentIgnored` | test/index.ts:67-69 | with a stand-in rule set `{merberExpression: [Array.from]}` merged with `filtList`, `x[Array.from]` yields one range `[0,13)` under the merged rules and none as written |
| `Pipeline.SymbolIteratorAsKeyIsReported` | src/check.ts:120-133 | `a[Symbol.iterator]` yields exactly one range, the whole program `[0,18)`, and prints as the whole text |
| `Pipeline.FeatureTestIsNotReported` | src/check.ts:126-133 | `typeof Symbol.iterator === "undefined"` yields no range |
| `Pipeline.CallPositionIsNotReported` | src/check.ts:126-133 | `Symbol.iterator()` yields no range, because the parent is a call and not a member expression |

## Left out

- Parsing and walking: `acorn.parse` and `walk.ancestor` are outside the model. Their output is the input sequence of visits, and parse errors are not modelled.
- The walker's visitor table: the driver skips visits whose node is not a `MemberExpression`. That is how registering only a `MemberExpression` visitor behaves.
- Logging: `log.info` in `printError` and the `console.log` of src/index.ts. `PrintError` returns the strings instead of logging them.
- Demo and script code: `main` of src/check.ts, `readFile` and `main` of test/index.ts (file reads, Promises), and all of src/index.ts, whose `handleMemberExpression` is empty.
- `parseRowCol` is unfinished: its reducer returns nothing, the function returns nothing, and nothing calls it.
- Row/column locations, line-window fragments, `NodeError` records and invalid-argument errors: the code does not implement any of them.
- The rule files under rules/ are not part of this model. Rule sets are arbitrary maps, and the category key those files use is not known here.
- Key order of a merged object: `_.union` fixes the insertion order of keys. Dafny maps have no order, so that order is not modelled.
- Inherited object properties: the merge reads `object[cur]` and `source[cur]` as own keys only. A key named like an `Object.prototype` member (e.g. `constructor`) behaves differently in JavaScript.
- Aliasing: the walker reuses its ancestor buffer, but visits here are immutable values. Maps are values too, so "neither input is modified" holds by construction.
- Strings are sequences of `char`. JavaScript's UTF-16 code units are not distinguished from characters.

## Findings

| source | as written | input that shows it | evidently intended | confidence | as-written member | corrected member |
|---|---|---|---|---|---|---|
| src/check.ts:77 | `checkES5Errors(code)` takes no rule-set parameter and always matches against the module constant `filtList`; the merged rule set that test/index.ts:69 passes as a second argument is dropped | a stand-in rule set `{merberExpression: [Array.from]}` merged with `filtList`, source `x[Array.from]`: no range as written, one range `[0,13)` with the rules applied | the check runs against the rule set the caller passes, with `filtList` as the default | not executed; medium | `Pipeline.CheckES5ErrorsAsWritten` (exhibited by `Pipeline.RulesArgumentIgnored`) | `Check.CheckES5Errors` |
