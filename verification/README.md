# gerrit-view core, modelled in Dafny

This project models the pure logic of the gerrit-view VS Code extension. It
covers three areas.

- **The property-path resolver** (`objectUtils.js`). `getProperties` walks a
  dotted path through a JSON value. At an array it branches into every
  element, or only into the one `parentIndexes` selects. Each result records
  the array positions it took. `getUniqueProperty` replays such a position
  list to pick out one value.
- **The tree node store** (`tree.js`). This covers the `hash` fingerprint,
  node ids and `sanitizePath`, the `sortNodes` order, and `forEachNode`. It
  also covers the changed-flag rules (`setChanged`, `clearAll`, `hasChanged`,
  `hasChangedParent`, `hasChangedChildren`), `isVisible`, the text filter
  (`filter`, `clearFilter`), mark-and-sweep `prune`, and `populate`.
- **Helpers in `extension.js`**. These are `scoreToName`, the approval fold
  behind `icons.overallScore`, the query rewriter `replaceOrAdd`, and the
  per-line grouping of review comments.

Design choices:

- JSON values are an algebraic datatype (`JsValue.Json`). `undefined` is
  `None` of a `Value = Option<Json>`.
- The node tree is an immutable `Node` datatype. A node is addressed by its
  path of child positions, which replaces the source's `parent` references.
- A thrown `TypeError` is the `Thrown` case of a `Result`.
- The store's global variables (`nodes`, `changedNodes`, `expandedNodes`,
  `hashes`, `keys`, `selectedNode`, `showChangedOnly`) are fields of one
  `Store` value. Each operation returns a new `Store`.

Modules, one per file: `Common` (options, results, `indexOf`, `parseInt`),
`JsValue`, `ObjectUtils`, `Forest` (paths and `forEachNode`), `Sorting`,
`TreeHash`, `TreeStore`, `Visibility`, `Changes`, `Filtering`, `Pruning`,
`WellFormed` (the store invariant), `Populate`, `Scores`, `Query`,
`Comments`.

Behaviour the model follows as the code has it:

- `populate` walks the flat level list `_structure[level]` (`children` and
  `parent`, tree.js:310-328). It does not walk the nested structure that
  extension.js declares.
- When `parameter:` occurs in the query but is never followed by a
  non-space character, `replaceOrAdd` returns the query unchanged. It
  neither replaces nor appends (extension.js:260-266).
- `populate` calls `getProperties` with two arguments, which throws on any
  path through an array (see Findings). The model uses the evidently
  intended call, with an empty index list.

## Model

| member | source | states |
|---|---|---|
| `ObjectUtils.GetPropertiesAsWritten` | objectUtils.js:11-56 | with an index list the result is the resolver's result list; without one (`undefined`) the call throws exactly when the path crosses an array |
| `ObjectUtils.DotFreePath` | objectUtils.js:49-53 | a dot-free path yields the field's value with indexes `[-1]` when object and value are truthy, and nothing otherwise (a falsy or missing value gives no result) |
| `ObjectUtils.MissingIntermediate` | objectUtils.js:23-27 | a missing or falsy first field of a dotted path yields an empty result list, never an error |
| `ObjectUtils.MissingAnywhere` | objectUtils.js:23-27 | a missing or falsy field at any depth yields an empty result list, never an error: when the path up to some '.' yields no value (in any element of any array it crosses), the whole path yields none |
| `ObjectUtils.ResultShape` | objectUtils.js:11-56 | every result has one index per path segment, the first -1 and none below -1, and a truthy value |
| `ObjectUtils.ArrayFanOut` | objectUtils.js:28-39 | over an array field, results are exactly one per admitted element with a truthy leaf, carrying indexes `[-1, i]`, the expanded path `seg[i].leaf` and the element as parent |
| `ObjectUtils.RestrictedResults` | objectUtils.js:30-37 | a result of the restricted walk is exactly an unrestricted result whose chosen array positions (its indexes without the -1 entries) agree with `parentIndexes` wherever that holds something other than -1 |
| `ObjectUtils.ResultsInElementOrder` | objectUtils.js:23-47 | results come in strictly increasing lexicographic order of their index lists, that is, in element order |
| `ObjectUtils.RoundTrip` | objectUtils.js:58-79 | replaying a result's index list through `getUniqueProperty` gives back that result's value |
| `ObjectUtils.TwoArgumentCallThrows` | tree.js:317 | the two-argument call throws on a record holding one array, while the call with an empty index list returns that array's element field |
| `JsValue.Get` | objectUtils.js:27 | a field read gives a value only for an object that has the field; an array has no named fields |
| `JsValue.At` | objectUtils.js:72 | an element read gives a value exactly for an array and an in-range position, and that value is the element |
| `TreeHash.Hash` | tree.js:19-36 | the hash is the absolute value of the 32-bit wrapped polynomial `31*h + c` over the text, mod 1000000; it lies in [0, 1000000) and is 0 for empty text |
| `TreeHash.FingerprintIsPolynomial` | tree.js:26-31 | the step-by-step 32-bit loop equals the 32-bit wrap of the unbounded polynomial |
| `TreeStore.Sanitize` | tree.js:99-102 | every '.' becomes '_' and every other character is kept, so the result has no '.' |
| `TreeStore.SanitizeIdempotent` | tree.js:99-102 | sanitizing twice equals sanitizing once |
| `TreeStore.SanitizeConcat` | tree.js:99-102 | sanitizing works character by character, so it distributes over concatenation |
| `TreeStore.NewId` | tree.js:342 | a node id contains no '.' and is the sanitized property, ':', then the sanitized parent id and '_' when there is a parent, then the sanitized text of the value |
| `TreeStore.NewIdUnderParent` | tree.js:342 | a child of a node with a dot-free id carries that id verbatim between its own property with ':' and '_' with its value |
| `TreeStore.FlattenMembers` | tree.js:75-92 | an info is in the post-order node list exactly when some valid path leads to it |
| `Forest.MapAllAt` | tree.js:75-92 | `forEachNode` with a callback changes the info at every path by that callback and keeps the shape |
| `Forest.MapAlongAt` | tree.js:254-262 | an update along a path applies one change to the ancestors, one to the node and one to its descendants, and keeps every other node and the shape |
| `Sorting.StrLessTotal` | tree.js:94-97 | the label order compares any two distinct labels one way or the other |
| `Sorting.AtLeastTransitive` | tree.js:94-97 | "not less than" on labels is transitive, so descending order is well defined |
| `Sorting.SortDescCorrect` | tree.js:359-369 | sorting siblings yields a permutation whose labels do not increase |
| `Sorting.SortDescDistinct` | tree.js:359-369 | sorting keeps siblings with distinct (type, value) keys distinct |
| `Visibility.HasChangedParentSpec` | tree.js:38-50 | `hasChangedParent` holds exactly when some proper ancestor shows changes and is changed |
| `Visibility.HasChangedChildrenSpec` | tree.js:52-63 | `hasChangedChildren` holds exactly when the node or some descendant shows changes and is changed |
| `Visibility.VisibleRule` | tree.js:65-73 | the selected node is visible; otherwise a node is visible exactly when its flag is set and changed-only is off, or the node, an ancestor or a descendant carries the change |
| `Visibility.RelativesOfChangeVisible` | tree.js:65-73 | a flagged ancestor or descendant of a shown change is visible |
| `Filtering.MatchListSpec` | tree.js:244-253 | the recursive walk finds exactly the nodes whose type equals the key ignoring case and whose value the matcher accepts |
| `Filtering.Filter` | tree.js:233-267 | a term without a key changes nothing, and filtering touches only the nodes |
| `Filtering.FilterSpec` | tree.js:233-267 | after filtering with a key, a node is visible exactly when it is a match, an ancestor of one or a descendant of one; the shape is unchanged |
| `Filtering.ClearFilterSpec` | tree.js:269-272 | clearing the filter makes every node visible and changes nothing else |
| `Changes.SetChanged` | tree.js:515-542 | setting records the node's id in `changedNodes`, clearing removes it, and every other field except `nodes` is kept (the node effect is `Changes.SetChangedEffect`) |
| `Changes.SetChangedEffect` | tree.js:515-534 | setting marks the node and each ancestor and descendant that shows changes; clearing touches only the node when it shows changes |
| `Changes.ClearAll` | tree.js:544-550 | `changedNodes` becomes empty, and every other field except `nodes` is kept (the node effect is `Changes.ClearAllEffect`) |
| `Changes.ClearAllEffect` | tree.js:544-550 | every node's changed flag becomes false and nothing else about it changes |
| `Changes.HasChangedSpec` | tree.js:552-563 | `hasChanged` holds exactly when some node shows changes, is changed and has its visible flag set |
| `Changes.ClearAllNothingChanged` | tree.js:544-563 | after `clearAll`, `hasChanged` is false |
| `Changes.SetChangedShows` | tree.js:515-563 | setting a node that shows changes and has its visible flag set makes `hasChanged` true |
| `Pruning.Prune` | tree.js:472-485 | pruning from the top replaces only the nodes and the expansion map of the store |
| `Pruning.PruneKeepsUnmarked` | tree.js:455-470 | an unmarked top-level node survives the sweep with its fields as they were |
| `Pruning.PruneKeepsExactly` | tree.js:453-488 | a node survives exactly when neither it nor any ancestor is marked for deletion |
| `Pruning.PruneKeepsOrder` | tree.js:455-469 | the surviving top-level siblings are the unmarked ones, in their original order |
| `Pruning.PruneForgetsMarked` | tree.js:463-467 | the expansion map loses exactly the ids of the nodes marked for deletion |
| `Pruning.PruneUnmarked` | tree.js:453-488 | with nothing marked, the tree and the expansion map are unchanged |
| `WellFormed.PruneWF` | tree.js:453-488 | pruning keeps every sibling list sorted by label, with distinct (type, value) keys and dot-free ids |
| `WellFormed.InsertWF` | tree.js:359-369 | adding a childless node with a new key and a dot-free id, then sorting, keeps the list well formed |
| `Populate.Locate` | tree.js:276-279 | the lookup returns the first sibling with the same type and value, and `None` when there is none |
| `Populate.FindParentSpec` | tree.js:323-328 | above level 0 the parent lookup throws exactly when reading the parent path throws; a parent found is the first node of the previous level's list with that type and value, and none is found exactly when no node of that list has them |
| `Populate.PlaceValueRoot` | tree.js:331-375 | at level 0, placing a value always succeeds and leaves a top-level node of that type and value, reused or created |
| `Populate.PopulateBuildsRoots` | tree.js:310-375 | after a successful `populate`, every value of every level-0 child property of every item is a top-level node of that type and value |
| `Populate.PopulateWF` | tree.js:274-451 | `populate` keeps sibling lists sorted by label, never duplicates a (type, value) sibling, and keeps ids dot-free |
| `Populate.PopulateDetects` | tree.js:294-307 | the hashes stored and the keys reported, in input order, are those of the change-detection fold alone |
| `Populate.DetectStores` | tree.js:294-307 | with distinct keys, afterwards every keyed item's stored hash is the hash of its text |
| `Populate.DetectIdempotent` | tree.js:294-307 | a second detection pass over the same items reports nothing and stores the same hashes |
| `Populate.PopulateLeavesNoMarked` | tree.js:281-446 | after `populate` no surviving node is still marked for deletion |
| `Populate.PopulateNothing` | tree.js:274-451 | `populate` of no items empties the tree, reports nothing, forgets the expansion of every old node, and keeps the hashes |
| `Scores.ScoreToName` | extension.js:443-453 | a name exists exactly for -2, -1, 1 and 2 |
| `Scores.ScoreNameRoundTrip` | extension.js:443-453 | each name maps back to its score |
| `Scores.BuiltSpec` | extension.js:464-469 | the change counts as built exactly when some approval is "Verified" |
| `Scores.FailedSpec` | extension.js:471-481 | the change has failed exactly when some "Verified" approval parses to -1 |
| `Scores.FrozenAfterFailure` | extension.js:471 | once failed, later approvals leave the per-type scores alone |
| `Scores.UpdateIsPriorityMax` | extension.js:484-503 | a per-type update keeps the higher of old and new in the order -2 above 2, 2 above -1, -1 above 1, 1 above unset |
| `Scores.ScoreOfType` | extension.js:462-507 | while the change has not failed, each non-"Verified" type's score after the fold is the highest-priority value among its earlier score and that type's parsed approvals, and stays unset if there are neither |
| `Scores.NotBuiltIsBuilding` | extension.js:509-512 | with no "Verified" approval the icon is "building" |
| `Scores.VerifiedMinusOneFails` | extension.js:513-516 | a "Verified" -1 makes the icon "failed" |
| `Scores.BelowQuota` | extension.js:517-521 | with fewer types than the quota, the icon is "minus-two" if any type is -2, else "minus-one" if any is -1, else "verified" |
| `Scores.AtQuota` | extension.js:522-526 | at or over the quota (or with no quota), the icon is the name of the minimum score (null counting as 0), and the reduce throws exactly when there are no scores |
| `Common.IndexOf` | extension.js:260 | `indexOf` returns the first position at or after the start where the text occurs, and `None` (for -1) exactly when there is none |
| `Common.ParseIntRoundTrip` | extension.js:473 | `parseInt` reads back every integer's decimal text |
| `Query.FirstMatch` | extension.js:262-266 | the leftmost position where `parameter:` is followed by a non-space character |
| `Query.ReplaceOrAdd` | extension.js:258-274 | if `parameter:` is absent, ` parameter:value` is appended; if present with no value, the query is kept; otherwise the length changes by the value swap |
| `Query.ReplaceOrAddSplices` | extension.js:262-266 | when the first `parameter:` followed by a non-space run starts at `i`, the result is the query up to the end of that `parameter:`, then `value`, then the query from the end of the old run on |
| `Query.ReplaceOrAddSets` | extension.js:258-274 | afterwards the query gives `parameter` the value `value`, except that a query with `parameter:` but no run after it is returned unchanged |
| `Query.ReplaceOrAddIdempotent` | extension.js:258-274 | rewriting twice with the same value equals rewriting once |
| `Comments.GroupComments` | extension.js:670-691 | the commented lines are the keys of both maps; each line's authors are its reviewers de-duplicated, and its message is its entries joined by blank lines in input order |
| `Comments.AddAuthorStep` | extension.js:670-680 | if the author map holds, for each line commented so far, that line's reviewers de-duplicated in first-seen order, it still does after one more comment |
| `Comments.AddMessageStep` | extension.js:682-689 | if the message map holds, for each line commented so far, that line's entries joined by blank lines, it still does after one more comment |
| `Comments.AuthorsOnLine` | extension.js:673-680 | a line's author list has no duplicates, holds exactly the reviewers who commented on it, and lists them in first-seen order |

Operations without a row of their own are stated through the rows of their lemmas:
`getProperties` (`ObjectUtils.GetProperties`, `Walk`, `FanOut`) through
`ResultShape`, `ArrayFanOut`, `RestrictedResults`, `ResultsInElementOrder`,
`DotFreePath`, `MissingIntermediate` and `MissingAnywhere`; `getUniqueProperty`
(`GetUniqueProperty`, `Unique`) through `RoundTrip`; `append` through
`ArrayFanOut`, which fixes the expanded path; `prune` (`PruneList`,
`PruneNode`) through the `Pruning` and `PruneWF` rows; `populate` (`Populate`,
`PlaceValue`, `CheckKey`) through the `Populate` rows; `isVisible`,
`hasChangedParent` and `hasChangedChildren` through the `Visibility` rows;
`hasChanged` through `HasChangedSpec`; the approval fold (`OverallScore`,
`Icon`, `Step`, `UpdateScore`) through the `Scores` rows; `Rewrite` and
`ParamValue` through `ReplaceOrAddSplices` and `ReplaceOrAddSets`; and the
comment line (`LineOf`) and grouping (`AddAuthor`, `AddMessage`) through the
`Comments` rows.

## Left out

- gerrit.js (the SSH query and `JSON.parse` of its output) is not part of this model. It is network I/O.
- VS Code rendering, persistence and wiring are left out: `getTreeItem`, `getChildren`, the octicon files, `globalState`/`workspaceState`, `sync`, timers and commands. The persisted maps are plain fields of `Store`.
- Labels are left out: `formatter`, `format`, `icon` and `tooltip` templating in `populate` (tree.js:377-429). These use callbacks and a regular expression. A node's label is the text of its value.
- `JSON.stringify` is a function parameter of `Populate`, because its output text is the engine's.
- The regular-expression engine is left out. `filter` takes the matcher as an abstract predicate on the value's text. `replaceOrAdd` writes `parameter:\S+` out as a predicate and takes `parameter` literally. A parameter holding regex metacharacters is not modelled.
- `toLowerCase` is modelled for ASCII letters only. JavaScript also folds other letters.
- Strings are sequences of `char`. JavaScript's UTF-16 code units differ only for characters outside the Basic Multilingual Plane.
- Numbers are integers. Floating-point values, `NaN` (other than `parseInt` failing) and numeric labels are left out. Labels are compared as text; JavaScript compares two numeric labels as numbers.
- `parseInt` reads optional white space, a sign and decimal digits. Hex prefixes and radix arguments are left out.
- `===` between node values is structural in the model. JavaScript compares objects and arrays by reference.
- A field read on an array, string or number (`"length"`, a numeric key) gives `undefined` in the model.
- A comment's `line` is an integer or absent. Other JSON values for it are left out.
- The engine's sort algorithm is specified only by its result: a permutation in descending label order. The order among equal labels may differ from the engine's.
- The `item.details` wrapper is reduced to the details value itself.
- `Populate`: a thrown `TypeError` returns no state. In the source the exception escapes to the caller's `catch` (extension.js:361, extension.js:387) after the earlier items have already updated `hashes`, `keys`, `changedNodes` and the tree; the deletion marks then stay set, because `prune` is not reached.
- `Populate`: no lemma states that a second run over the same items leaves the tree as it was. That needs each level's parent to be found; otherwise a second run can reach the `parent.nodes` push at tree.js:367 with no parent. Nodes below level 0 are constrained only by `PopulateWF`.
- `Scores.OverallScore`: `approvals` is `None` for a missing field. A field present and `null` passes the `undefined` test at extension.js:462, and its `.map` then throws; the model has no such case and returns "building".
- `Sorting.SortDescCorrect`: it does not say which of several equal-label orders results, because the comparator's tie-break compares two objects.

## Findings

| source | as written | input that shows it | evidently intended | confidence | as-written member | corrected member |
|---|---|---|---|---|---|---|
| tree.js:317 | `getProperties(entry, child.property)` leaves `parentIndexes` undefined. `parentIndexes.length` at objectUtils.js:30 then throws a TypeError as soon as the path crosses an array. | `entry = {seg: [{leaf: "x"}]}` with the path `seg.leaf` (the default tree uses paths such as `patchSets.number`) | every element's field, as with an empty index list | not executed | `ObjectUtils.TwoArgumentCallThrows` | `ObjectUtils.ArrayFanOut` |
