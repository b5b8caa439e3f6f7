# wxt-codesign annotation core in Dafny

This project models the logic of the CoDesign browser extension that turns a design's layer
metadata into one annotation tree for a selected layer. The extension fetches a flat list of
layer records; each record names its own `object_id` and its parent's `parent_id`.

- `getAnnotationByObjectId` finds the first record with the requested object id.
- `buildNodeTree` rebuilds the nested tree of layers below that record.
- `cleanAnnotationNode` strips noise fields and empty arrays from every node of the tree.

Three small text helpers are modelled as well:

- `parseDesignIdFromUrl` extracts the design id from a page address.
- `parseImageSize` reads a `<w>px x <h>px` size label.
- `parseSliceUrl` rewrites the size in a thumbnail address.

All of them live in `src/utils.ts`.

Modules:

- `Json` (`json.dfy`) defines JavaScript values.
  - A record is a `map<string, Value>`.
  - A missing property reads as `Undefined`.
  - `IsNode` is the declared `AnnotationNode` shape: `children`, when present, is `undefined`, `null` or an array of nodes.
- `AnnotationClean` (`clean.dfy`) models the cleaning routine.
  - `Clean` is the specification function.
  - `CleanAnnotationNode` is the imperative routine: one loop deletes the denylisted fields, one loop deletes the empty arrays, and one loop cleans the children. It is proved equal to `Clean`.
  - The lemmas give denylist completeness and pruning at every depth, that nothing else changes, the fixed points, and idempotence.
- `AnnotationTree` (`annotation_tree.dfy`) models `buildNodeTree` and `getAnnotationByObjectId`.
  - Termination of `buildNodeTree` comes from a ghost rank function that falls along every parent link below the requested layer.
  - `RankedIffTerminates` shows that such a rank exists exactly when the recursion of `buildNodeTree` ends. `CycleRulesOutRank` and `LoopBelowRulesOutRank` show that a cyclic parent chain reachable from that layer admits no rank.
- `TextPatterns` (`text_patterns.dfy`) models the three regular expressions.
  - Each one is a left-to-right scan for the leftmost match.
  - A predicate states what a match at one position is: the literal text, and greedy `\d+` runs that cannot be extended.
  - Lemmas show that the scan returns the leftmost match, and "no match" exactly when there is none.
  - A round-trip lemma shows that the rewritten thumbnail address reads back the new size.
- `Scenarios` (`scenarios.dfy`) and `PatternExamples` (`pattern_examples.dfy`) work through concrete inputs.

Points of the code that the model keeps as they are:

- The root layer is looked up by object id only; there is no lookup by name.
- When several records share an object id, the first one is the root, as `Array.find` gives (`src/utils.ts:125-127`).
- A rebuilt layer with no children carries a `children` field set to `undefined` (`src/utils.ts:116`). Cleaning keeps that field, because `undefined` is not an array. It vanishes only when the tree is serialised to JSON.
- A cyclic parent chain below the requested layer is not detected; the code recurses without end there. The model makes the absence of such a chain a precondition of building the tree, and proves that this precondition excludes exactly those inputs.

## Model

| member | source | states |
|---|---|---|
| AnnotationClean.DeleteDenylisted | src/utils.ts:70-86 | the result has exactly the fields of the node that are not among the eight denylisted names, each with its original value |
| AnnotationClean.DeleteEmptyArrays | src/utils.ts:88-94 | the result has exactly the fields whose value is not an empty array, each with its original value |
| AnnotationClean.CleanAnnotationNode | src/utils.ts:66-102 | the copy-delete-delete-map routine returns exactly `Clean(node)`; the argument is a value, so it is not mutated |
| AnnotationClean.Clean | src/utils.ts:66-102 | the cleaned node again has the declared node shape and has no field the input lacked |
| AnnotationClean.CleanFields | src/utils.ts:82-99 | a field survives iff it is neither denylisted nor an empty array; survivors other than `children` keep their values; a non-array `children` is kept as is; a surviving `children` array keeps its length and order, each element replaced by its cleaned node |
| AnnotationClean.CleanIsClean | src/utils.ts:70-99 | no denylisted field and no empty-array field remains at any depth of the `children` tree, whatever values the removed fields had |
| AnnotationClean.CleanFixesClean | src/utils.ts:66-102 | a node that is clean at every depth is returned unchanged |
| AnnotationClean.CleanFixedPoints | src/utils.ts:66-102 | `Clean(n) == n` exactly when `n` is clean at every depth |
| AnnotationClean.CleanIdempotent | src/utils.ts:66-102 | cleaning a cleaned node returns an equal node |
| AnnotationTree.DirectChildren | src/utils.ts:109 | a record is among the direct children of `p` iff it is in the list and its `parent_id` is `p` |
| AnnotationTree.DirectChildrenAppend | src/utils.ts:109 | the filter keeps input order: the children found in `a + b` are those found in `a` followed by those found in `b` |
| AnnotationTree.ChildrenField | src/utils.ts:116 | `undefined` exactly when the rebuilt list is empty, otherwise an array with one element per rebuilt node, in order |
| AnnotationTree.BuildTree | src/utils.ts:105-119 | one node per direct child of `p`, each of the declared node shape |
| AnnotationTree.BuildChild | src/utils.ts:111-117 | a rebuilt child has the declared node shape (its `children` is an array of nodes or `undefined`) |
| AnnotationTree.BuildTreeRebuilt | src/utils.ts:105-119 | element `i` of the tree equals direct child `i` on every field except `children`; at every depth `children` is `undefined` exactly when that layer has no direct children, and otherwise is an array of the same length, rebuilt in the same way in input order |
| AnnotationTree.CycleRulesOutRank | src/utils.ts:112 | a cyclic parent chain through `p` admits no rank |
| AnnotationTree.LoopBelowRulesOutRank | src/utils.ts:111-112 | a chain of parent links from `p` that comes back to an object id it already visited admits no rank either |
| AnnotationTree.RankedTerminates | src/utils.ts:109-118 | with a rank, the recursion from `p` nests at most `rank(p) + 1` calls deep |
| AnnotationTree.TerminatesRanked | src/utils.ts:109-118 | when the recursion from `p` ends within some depth, a rank exists |
| AnnotationTree.RankedIffTerminates | src/utils.ts:109-118 | a rank for `p` exists iff the recursion from `p` ends within some depth, so the precondition of `BuildTree` excludes exactly the inputs on which `buildNodeTree` recurses without end |
| AnnotationTree.FindByObjectId | src/utils.ts:125-127 | `None` iff no record has the object id; otherwise the index of the first record that has it |
| AnnotationTree.WithChildren | src/utils.ts:138-140 | `{ ...current, children }`: every field of the record kept with its value, plus a `children` array holding the rebuilt nodes in order |
| AnnotationTree.CleanWithChildren | src/utils.ts:138-141 | cleaning the root with its children attached gives a tree that is clean at every depth; the root keeps its non-denylisted, non-empty-array fields unchanged; its `children` key is present iff there are children, and then holds each child cleaned, in order |
| AnnotationTree.GetAnnotationByObjectId | src/utils.ts:121-142 | the result is "not found" exactly when no record has the requested object id; a rank is demanded only when one does, since only then is a tree built |
| AnnotationTree.GetAnnotationFound | src/utils.ts:121-142 | when a record has the requested id, the result is built from the first such record: same object id, its surviving fields unchanged, clean at every depth, no `children` key iff it has no direct children, and otherwise the cleaned rebuilt children in input order |
| TextPatterns.LeadingDigits | src/utils.ts:28 | greedy `\d+`: the result is the longest all-digit prefix of the text |
| TextPatterns.LeadingDigitsUnique | src/utils.ts:28 | an all-digit prefix followed by a non-digit or by the end of the text is the greedy run |
| TextPatterns.FirstDesignIdMatch | src/utils.ts:28 | the scan returns the first position from which `/design/` is followed by a digit, or `None` when there is none |
| TextPatterns.DesignIdMatchAtIff | src/utils.ts:28 | the regular expression matches at `i` with capture `d` iff `/design/` followed by a digit starts at `i` and `d` is the digit run after it |
| TextPatterns.ParseDesignIdFromUrl | src/utils.ts:27-30 | a returned id is a non-empty run of digits; `ParseDesignIdNull` and `ParseDesignIdLeftmost` state which one |
| TextPatterns.ParseDesignIdNull | src/utils.ts:27-30 | the result is `null` iff `/\/design\/(\d+)/` matches nowhere in the address |
| TextPatterns.ParseDesignIdLeftmost | src/utils.ts:27-30 | when the leftmost match is at `i` with capture `d`, the result is `d` |
| TextPatterns.FirstImageSizeMatch | src/utils.ts:224-225 | the scan returns the first position where the size pattern matches, or `None` |
| TextPatterns.ImageSizeAtIff | src/utils.ts:224-225 | the scan at `i` yields `(w, h)` iff `/(\d+)px x (\d+)px/` matches at `i` with captures `w` and `h` |
| TextPatterns.ParseImageSize | src/utils.ts:223-231 | both returned captures are non-empty runs of digits; `ParseImageSizeNull` and `ParseImageSizeLeftmost` state which ones |
| TextPatterns.ParseImageSizeNull | src/utils.ts:223-231 | the result is `null` iff the text contains no `<digits>px x <digits>px` |
| TextPatterns.ParseImageSizeLeftmost | src/utils.ts:223-231 | when the leftmost match is at `i` with captures `w` and `h`, the result is the pair `[w, h]` |
| TextPatterns.FirstThumbnailMatch | src/utils.ts:258 | the scan returns the first position where `/\/thumbnail\/\d+x\d+/` matches, or `None` |
| TextPatterns.ThumbnailAtIff | src/utils.ts:258 | the scan at `i` yields `(a, b)` iff the thumbnail pattern matches at `i` with the digit runs `a` and `b` |
| TextPatterns.ReplaceThumbnailSize | src/utils.ts:258 | an address without a thumbnail path is returned as it is; otherwise the length changes by exactly the difference between the new and the old size texts; `ReplaceThumbnailLeftmost` states the result in full |
| TextPatterns.ReplaceThumbnailLeftmost | src/utils.ts:258 | the rewrite replaces exactly the leftmost match with `/thumbnail/<w>x<h>` and keeps the text before and after it |
| TextPatterns.ReplaceThumbnailNoMatch | src/utils.ts:258 | an address without a match is returned unchanged |
| TextPatterns.ReplaceThumbnailRoundTrip | src/utils.ts:258 | after rewriting to a size made of digits, the leftmost thumbnail size of the result is the new size, or there is still none when the address had none |
| TextPatterns.SliceUrl | src/utils.ts:253-260 | an address is returned iff the size label holds a size, and it is the original address when that has no thumbnail path |
| TextPatterns.SliceUrlResizes | src/utils.ts:253-260 | a returned address carries the label's size as its leftmost thumbnail size, or has no thumbnail path when the original had none |
| Scenarios.SubtreeShape | src/utils.ts:105-119 | for records 1←0, 2←1, 3←1, 4←2 the tree below layer 1 is [layer 2 holding [layer 4], layer 3], with `children: undefined` on layers 3 and 4 |
| Scenarios.NotFoundExample | src/utils.ts:125-130 | asking for an object id that no record has gives "not found", for any rank |
| Scenarios.NotFoundInCyclicList | src/utils.ts:125-130 | in a list holding a self-parented record and no record with the requested id, the lookup gives "not found" although no rank exists |
| Scenarios.CleanExample | src/utils.ts:66-102 | a node loses `symbolId` and its empty `fills`, keeps `name`, its non-empty `css` and `children: undefined` |
| PatternExamples.DesignIdExample | src/utils.ts:27-30 | `/design/42/board` yields the design id `42` |
| PatternExamples.ImageSizeExample | src/utils.ts:223-231 | `48px x 36px` yields `["48", "36"]` |

## Left out

- The network fetches `fetchScreenDetailApi` and `fetchScreensApi` (`src/utils.ts:1-25`) are not modelled. Neither are the fetch and JSON-decoding steps of `parseAnnotationData` (`src/utils.ts:303-316`). They are I/O. The model takes the already concatenated `[...groups, ...layers]` list as its input.
- `showToast` (`src/utils.ts:144-221`) is not modelled. It is DOM manipulation with a timer.
- The DOM queries of `parseSliceUrl` and `parseAnnotationData` (`src/utils.ts:233-252`, `263-301`) are not modelled. `SliceUrl` takes the size label text and the thumbnail address as parameters.
- `src/entrypoints/content.ts`, `src/entrypoints/background.ts` and the popup are not part of this model. They cover UI, observers, WebSocket and timers.
- `src/constants.ts`, `src/messages.ts`, `src/types.ts` and the build configuration are not part of this model either. They hold no behaviour.
- Records are maps, so the order of an object's own keys is not modelled. Order within arrays, including `children`, is modelled.
- JSON numbers are modelled as `real`. Ids are compared as values, which agrees with `===` on the strings, numbers and `undefined` that ids hold.
- Object identity and aliasing are not modelled. Records are values, so "the argument is not mutated" holds by construction. This covers both the input list of `buildNodeTree` and the node given to `cleanAnnotationNode`.
- AnnotationClean.Clean and AnnotationClean.CleanAnnotationNode require the declared `AnnotationNode` shape. For inputs outside the TypeScript type the source behaves as follows, and the model leaves these cases out:
  - A `children` that is a non-empty string makes `.map` throw.
  - A `children` element that is a string or an array is spread into index-keyed fields; one that is a number, boolean, `null` or `undefined` is spread into an empty object.
- AnnotationTree.BuildTree requires a ghost rank that falls along the parent links below its layer. By `RankedIffTerminates` this excludes exactly the inputs on which `buildNodeTree` recurses without end. Those inputs are excluded rather than modelled as a stack overflow.
- AnnotationTree.GetAnnotationByObjectId requires that rank only when a record has the requested object id. When none has it, the lookup fails before any tree is built, and any input is accepted.
- The `\d` of all three regular expressions is the ASCII digit class. The expressions carry no `u` flag, and no Unicode digits are modelled.
- TextPatterns.ReplaceThumbnailSize requires a replacement without `$`. The sizes it receives are digit runs, so `String.prototype.replace` inserts them literally, and `$` patterns are not modelled.
