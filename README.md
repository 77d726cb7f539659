# Editing core of the i18n tag editor, in Dafny

The editor shows a translation string as a tree of nodes (`AstEle`):

- **lists** of children;
- **text runs**, each with an optional caret request ("start" or "end");
- **objects**: a tag name together with a content list.

Every list is kept in a canonical shape by `normalizeList` and `normalize`. The canonical shape is:

- never empty;
- a text run at both ends;
- text and non-text children alternating, so that every boundary has a text run to put the caret in.

The shape is restored by four steps:

1. flatten direct list children one level;
2. normalize every child;
3. merge adjacent text runs;
4. normalize again, then insert empty text runs wherever two non-texts meet or a list ends in a non-text.

Each view component of the editor gets two closures from its parent, `replace` and `backspace`. An edit runs at a text input and then travels up through these closures:

- a value typed into a text input either becomes the node's text, or splits off a new tag when it matches `{name `;
- a list splices a replacement into its children and renormalizes;
- an object adopts a new content list;
- Backspace at the start of an input bubbles up:
  - inside a list, it moves the caret to the end of the previous text (`focusEnd`);
  - at the start of an object, it unwraps the object to the text `{tag` followed by its content.

The model is split into these modules:

- `Ast`: the node datatype, heights, the shape predicates (`NormalList`, `WellFormed`, `NoNestedLists`) and the views used to state properties (the direct text `TextOf`, the non-text children `NonTexts`, the leaves `Leaves`, and `Erase`, which drops foci).
- `Merge`: the `reduce` that merges text runs.
- `Segments`: the runs of a child sequence (the stretches of texts between its non-text children), and the layout that joins each run into one text between the non-texts. This describes exactly what the merge and the gap filler produce.
- `Gaps`: the gap-filling loop, as a method over a sequence that is proved equal to its specification function `GapFill`.
- `Normalizer`: `normalizeList`, `normalize` and their properties.
- `Focusing`:
  - `focusEnd` as written, including the in-place `reverse()` of each visited list (plain-array semantics);
  - the corrected search `MarkLast`;
  - `MarkLast` is proved to mark exactly the last leaf and change nothing else;
  - `focusEnd` is proved to keep the leaves as a multiset with the last one marked, and the marked leaf becomes the first leaf of the node afterwards.
- `TagSplit`: the pattern `/^(.*)\{([a-z0-9]+) (.*)$/i`, matched by hand, proved sound, complete and greedy.
- `Edits`: the closures of `AstEleUI.render`, as functions from the node and the event's data to the result.
- `Document`: the closures chained from a text input up to the root, and the editor's invariants: every edit keeps a well-formed document well formed, and one without nested lists in the normal form `normalize` leaves unchanged. The chain takes the search Backspace uses as a parameter (`AsWritten` or `Corrected`), and every property is proved for both.

Trees are values. An in-place mutation in the source is modelled as a function that returns the node afterwards. Where a mutation is visible through sharing, the model returns that change explicitly. For example, `focusEnd` on the fresh array `slice(0, i)` reaches the list's own live children.

The model follows the code where it differs from what the editor evidently intends:

- Normalizing twice should change nothing, for every tree. The code does not guarantee that:
  - flattening goes exactly one level deep, so `List[List[List[x]]]` keeps an inner list on the first pass and loses it on the second;
  - `Normalizer.NormalizeNotIdempotent` proves this;
  - `Normalizer.NormalizeIdempotent` proves idempotence under the condition the code actually needs;
  - starting from a well-formed document without nested lists, the editor's own edits never build such a tree: `Document.EventKeepsNormalForm` proves that every event keeps the document in that form, where `normalize` changes nothing.
- The search should only mark the last text. Under plain-array semantics, the code's `reverse()` also reverses every visited list in place. This is recorded under Findings.

## Model

| member | source | states |
|---|---|---|
| `Ast.EitherFocus` | main.tsx:39 | the merged caret request is one of the two; the left one wins when present; none only when neither side has one |
| `Merge.MergeStep` | main.tsx:32-42 | one step of the `reduce` adds at most one node: a non-text is appended as it is, and the last node is a text iff the current one is; `Segments.MergeStepPiece` proves that a text after the last run merges into that run |
| `Merge.MergeTexts` | main.tsx:31-43 | the fold never lengthens the children, is empty only on an empty input, and ends in a text iff the input does; `Segments.MergeRuns` gives its exact output |
| `Merge.MergeNoAdjacentTexts` | main.tsx:31-43 | after the fold no two neighbouring children are both text runs |
| `Merge.MergeKeepsText` | main.tsx:31-43 | the fold keeps the concatenated text of the direct text children |
| `Merge.MergeKeepsNonTexts` | main.tsx:31-43 | the fold keeps every non-text child, in order |
| `Merge.MergeIdentity` | main.tsx:31-43 | a sequence with no adjacent texts comes out of the fold unchanged |
| `Merge.MergeHeight` | main.tsx:31-43 | the fold never makes the tree deeper |
| `Merge.MergeTwoTexts` | main.tsx:33-41 | two runs become one, with the strings concatenated and the focus `prev.focus \|\| cur.focus` |
| `Merge.MergeFront` | main.tsx:31-43 | a text in front of a sequence starting with a text merges with that first text and with nothing else |
| `Segments.JoinedSnoc` | main.tsx:33-41 | adding a text to a run concatenates the strings and resolves the focus as `prev.focus \|\| cur.focus` |
| `Segments.MergeRuns` | main.tsx:31-43 | the fold turns each non-empty run of texts into one text, with the run's strings concatenated and the run's first focus request, drops the empty runs, and keeps the non-texts between the runs |
| `Segments.RunsSplit` | main.tsx:31-43 | the runs the merge is described by are texts only, number one more than the non-texts, and put back together with the non-texts give the input |
| `Segments.RunsOfRejoin` | main.tsx:31-43 | conversely, stretches of texts joined by non-texts are the runs of the sequence they make up |
| `Gaps.FillGaps` | main.tsx:45-50 | the loop, which re-reads its bound while it splices, computes exactly the specification `GapFill` |
| `Gaps.FillShape` | main.tsx:45-50 | filling a sequence without adjacent texts alternates text and non-text and ends in a text |
| `Gaps.GapFillNormal` | main.tsx:45-50 | after the merge step, the filled list has the canonical shape |
| `Gaps.FillKeepsText` | main.tsx:45-50 | only empty strings are inserted, so the direct text is kept |
| `Gaps.FillKeepsNonTexts` | main.tsx:45-50 | only text runs are inserted, so the non-text children and their order are kept |
| `Gaps.FillElements` | main.tsx:45-50 | every node of the result is an inserted empty text or a node of the input |
| `Gaps.FillIdentity` | main.tsx:45-50 | a sequence already alternating and ending in text gets no insertion |
| `Gaps.GapFillIdentity` | main.tsx:45-50 | a canonical list is left unchanged by the filler |
| `Segments.FillLayout` | main.tsx:45-50 | filling the merged sequence puts an empty text exactly where a run was empty |
| `Segments.LayoutFilledAt` | main.tsx:45-50 | in the filled sequence, position `2k` holds the joined `k`-th run and position `2k + 1` the `k`-th non-text |
| `Normalizer.MapNormalize` | main.tsx:30 | `.map(normalize)`: same length, each element normalized, height never grows (also used for main.tsx:44) |
| `Normalizer.Flatten` | main.tsx:29 | flattening one level never makes the tree deeper |
| `Normalizer.NormalizeList` | main.tsx:27-51 | normalizing a child list never makes it deeper (this is why the second `.map(normalize)` terminates) |
| `Normalizer.Normalize` | main.tsx:53-69 | texts are returned unchanged; lists stay lists and objects keep their tag; height never grows |
| `Normalizer.NormalizeListSameFlat` | main.tsx:28-29 | two child lists that flatten to the same sequence normalize to the same result |
| `Normalizer.NormalizeListNormal` | main.tsx:27-51 | the result is never empty, has text at both ends, and alternates |
| `Normalizer.NormalizeListKeepsText` | main.tsx:27-51 | the direct text of the one-level-flattened input is kept |
| `Normalizer.NormalizeListKeepsNonTexts` | main.tsx:27-51 | the non-text children are those of the flattened input, in order, each normalized twice |
| `Normalizer.NormalizeListRuns` | main.tsx:27-51 | the whole result: the joined runs of texts of the flattened input, each with its strings concatenated and its first focus request (an empty text for an empty run), alternating with the input's non-texts, normalized twice |
| `Normalizer.NormalizeListPositions` | main.tsx:27-51 | position by position: the `k`-th text child of the result is the joined `k`-th run of the flattened input |
| `Normalizer.NormalizeListRunsExample` | main.tsx:31-50 | `[a (start), b, {t}, c, d]` gives `[ab (start), {t}, cd]`: each run merges on its own side of the object |
| `Normalizer.NormalizeWellFormed` | main.tsx:53-69 | every list in a normalized tree, at every depth and in every object, has the canonical shape |
| `Normalizer.NormalizeListWellFormed` | main.tsx:27-51 | a normalized child list is canonical and each of its children is well formed |
| `Normalizer.NormalFormFixed` | main.tsx:53-69 | a well-formed tree without nested lists is a fixpoint of `normalize` |
| `Normalizer.NormalListFixed` | main.tsx:27-51 | a canonical child list of such trees is a fixpoint of `normalizeList` |
| `Normalizer.NormalizeIdempotent` | main.tsx:53-69 | normalizing twice equals normalizing once whenever the first result holds no list directly inside a list |
| `Normalizer.MergeElements` | main.tsx:31-43 | every node the fold leaves behind is a text or one of its input nodes |
| `Normalizer.NormalizeListOfFixed` | main.tsx:27-51 | when every node of the flattened input is a well-formed non-list without nested lists, so is every child of the result |
| `Normalizer.NormalizeListEmpty` | main.tsx:45-50 | an empty child list becomes one empty text run |
| `Normalizer.NormalizeListMergesTexts` | main.tsx:31-43 | two adjacent runs merge into one run, with the left focus preferred |
| `Normalizer.FlattenOneLevel` | main.tsx:29 | a list child is spliced into its parent |
| `Normalizer.DeepListSurvives` | main.tsx:29 | a list two levels deep survives one pass as a child list, bordered by empty texts |
| `Normalizer.NormalizeNotIdempotent` | main.tsx:27-69 | there is a tree for which normalizing twice differs from normalizing once |
| `Focusing.ReversePermutes` | main.tsx:78 | `reverse()` is a permutation of the children, and reversing twice restores their order |
| `Focusing.FocusEnd` | main.tsx:70-84 | the node afterwards has the same kind, string or tag, and number of children as before |
| `Focusing.FindFocus` | main.tsx:78 | `find` keeps the length, and each child afterwards resembles the child before |
| `Focusing.MarkLast` | main.tsx:70-84 | the corrected search (no reordering): the node keeps its kind, string or tag and size; when no text is found it is unchanged; a text is always found and asks for the caret at its end |
| `Focusing.MarkLastIn` | main.tsx:77-79 | the corrected last-first search over children: same length, each child keeps its kind, string or tag and size, and when no text is found the children are unchanged |
| `Focusing.FocusEndWellFormed` | main.tsx:70-84 | the in-place reversal keeps a well-formed node well formed |
| `Focusing.MarkLastMarksLastLeaf` | main.tsx:70-84 | the corrected search succeeds iff there is a text, marks exactly the last leaf "end", and changes nothing else |
| `Focusing.MarkLastWellFormed` | main.tsx:70-84 | the corrected search keeps every node's kind and keeps a well-formed node well formed |
| `Focusing.FocusEndAgreesWithMarkLast` | main.tsx:70-84 | the search as written finds a text iff the corrected one does, and leaves the same leaves up to order |
| `Focusing.FocusEndMarksLastLeaf` | main.tsx:70-84 | `focusEnd` succeeds iff the node holds a text; afterwards the leaves are the old ones with the last marked `End`, as a multiset, and on success the first leaf afterwards is that marked last leaf |
| `Focusing.FindFocusAt` | main.tsx:77-79 | `find` stops at the first child holding a text: the children before it hold none afterwards, that child is the one visited, and the children after it are untouched |
| `Focusing.FocusEndNoNestedLists` | main.tsx:70-84 | the in-place reversal creates no list directly inside a list |
| `Focusing.MarkLastNoNestedLists` | main.tsx:70-84 | the corrected search creates no list directly inside a list |
| `Focusing.FocusEndReversesContent` | main.tsx:78 | on an object with three children, `focusEnd` leaves them reversed, while the corrected search leaves them in order |
| `Focusing.FocusEndPrefersTrailingText` | main.tsx:77-79 | a trailing text is found before an earlier object is entered |
| `TagSplit.RunEnd` | main.tsx:129 | the run of tag characters from a position is maximal |
| `TagSplit.LastOpen` | main.tsx:129 | the position found is the last tag opening below the bound; none means there is no opening |
| `TagSplit.MatchTagOpen` | main.tsx:129 | the hand-written matcher for `/^(.*)\{([a-z0-9]+) (.*)$/i`: a result is always a way for the pattern to match the string; `TagSplit.MatchTagOpenCorrect` adds that it is the greedy one and that no result means no match |
| `TagSplit.MatchTagOpenCorrect` | main.tsx:129 | the matcher returns a match iff one exists, and it returns the one with the longest prefix |
| `TagSplit.SplitDeterminedByPrefix` | main.tsx:129 | two matches with the same prefix length are equal |
| `TagSplit.MatchHelloFoo` | main.tsx:129 | `hello {foo bar` gives `hello `, `foo`, `bar` |
| `TagSplit.MatchPicksLastOpening` | main.tsx:129 | with two openings the greedy prefix takes the later `{` |
| `TagSplit.NoMatchWithoutSpace` | main.tsx:129 | `x{foo` without a trailing space does not match |
| `Edits.SplitNodes` | main.tsx:130-146 | the nodes built from the capture groups carry the prefix and the suffix as their text, and the new object with an empty text asking for the caret as their only non-text |
| `Edits.OnTextChange` | main.tsx:126-150 | the input's `onChange` replaces the node iff the new value matches the pattern, the replacement being the split list as built (normalizing changes nothing); otherwise the text becomes the new value and keeps its focus request |
| `Edits.SplitNodesNormal` | main.tsx:130-146 | the split list is canonical already, so the `normalize` call returns it unchanged |
| `Edits.OnTextChangeCorrect` | main.tsx:126-150 | a replacement happens iff the value matches; it is the greedy split with the caret in the new object; otherwise the text is set and the focus kept |
| `Edits.TypingATag` | main.tsx:126-150 | typing `hello {foo bar` replaces the text by `hello `, a `foo` object with the caret, and `bar` |
| `Edits.ListReplace` | main.tsx:160-166 | `splice(i, 1, e)` then `normalizeList` always gives a well-formed list; `Edits.ListReplaceCorrect` gives its text and non-text children |
| `Edits.ListReplaceCorrect` | main.tsx:160-166 | the new list is canonical at every depth; its text is the old text around `i` with the replacement's text spliced in; its non-texts are the spliced non-texts, normalized |
| `Edits.ListReplaceWithSplit` | main.tsx:160-166 | in a canonical list, a tag split replaces the text by the three split nodes and changes nothing else |
| `Edits.ListBackspace` | main.tsx:167-182 | the list's backspace closure bubbles up iff the caret is in the first child; otherwise the list keeps its length and the child at `i` and everything after it |
| `Edits.FocusedPrefix` | main.tsx:171-174 | the live children before the caret after `focusEnd` ran on their fresh `slice`: same number, each keeping its kind, string or tag and size |
| `Edits.ListBackspaceAsWritten` | main.tsx:167-182 | Backspace bubbles up iff at the first child; otherwise the list keeps its length and the suffix, each earlier child keeps its kind, string or tag and size, and the leaves before the child are the old ones with the last marked, as a multiset |
| `Edits.ListBackspaceMarksLastText` | main.tsx:167-182 | where the caret goes: for the last child `j` before the caret that holds a text, the children before `j` and from the caret on are unchanged, those between hold no text, and the first leaf of child `j` afterwards is its old last leaf asking for the caret at its end |
| `Edits.ListBackspaceIntended` | main.tsx:167-182 | the same closure with the corrected search: bubbles up iff `i == 0`, otherwise keeps the length and the child at `i` and everything after it |
| `Edits.ListBackspaceIntendedCorrect` | main.tsx:167-182 | with the corrected search, exactly the last text before the child gets the caret and nothing else changes |
| `Edits.ListBackspaceReversesObject` | main.tsx:171-174 | Backspace after an object with three children reverses that object's content, and the corrected closure does not |
| `Edits.ObjectReplace` | main.tsx:196-200 | the object's replace closure keeps the tag and takes a list replacement's children, or the single other node, as its content; what this promises (leaves kept, well-formedness as an iff) is `Edits.ObjectReplaceCorrect` |
| `Edits.ObjectReplaceCorrect` | main.tsx:196-200 | the tag and the leaves are kept; a list content is well formed iff the list is; a wrapped single node is well formed iff it is a text |
| `Edits.ObjectReplaceWithList` | main.tsx:196-200 | a list replacement from the content leaves the object well formed |
| `Edits.ObjectUnwrap` | main.tsx:201-211 | the object's backspace closure always hands its parent a well-formed list |
| `Edits.ObjectUnwrapCorrect` | main.tsx:201-211 | unwrapping gives a canonical list whose text is `{`, the tag and the content's text, and whose non-texts are the content's, normalized |
| `Edits.ObjectUnwrapSteady` | main.tsx:201-211 | for canonical content, `{tag` merges into the first text with the caret at its end, and the rest is the content unchanged |
| `Edits.UnwrapExample` | main.tsx:201-211 | Backspace at the start of `{x <y>}` leaves one text `{xy` with the caret at its end |
| `Document.Propagate` | main.tsx:106-216 | an event travelling up through the closures: a replacement handed up is always a list, a node changed in place keeps its kind, and only Backspace bubbles, never out of an object |
| `Document.ApplyEvent` | main.tsx:305-308 | the document afterwards is a list or has the root's kind, and a change of text under an object root leaves an object |
| `Document.PropagateKeepsCanonical` | main.tsx:106-216 | in a well-formed node, any event hands up a canonical list or leaves a well-formed node of the same kind |
| `Document.BackspaceKeepsCanonical` | main.tsx:167-182 | Backspace inside a canonical list leaves it canonical, although `focusEnd` reorders inner lists |
| `Document.CorrectedBackspaceKeepsCanonical` | main.tsx:167-182 | with the corrected search, Backspace inside a canonical list leaves it canonical |
| `Document.EventKeepsWellFormed` | main.tsx:305-308 | every change and every Backspace keeps a well-formed document well formed at every depth, with either search |
| `Document.PropagateKeepsFlat` | main.tsx:106-216 | in a well-formed node without nested lists, no event builds one: neither a replacement handed up nor a node changed in place holds a list directly inside a list |
| `Document.EventKeepsNormalForm` | main.tsx:305-308 | from a well-formed root list without nested lists, every event leaves a document of that form, which `normalize` leaves as it is |
| `Document.TagTypedInRoot` | main.tsx:126-166 | typing a tag into a child of the root splices the three split nodes into the root and changes nothing else |
| `Document.UnwrapInRoot` | main.tsx:160-211 | Backspace at an object's start makes the root read as the text before it, then `{` and the tag, then the object's text, then the rest |

## Left out

- Rendering: the React and DOM rendering is not modelled, including the input width at main.tsx:113 and the object's `{tag }` and `}` labels. It is presentation only.
- Caret consumption: `focus()` and `autorun` (main.tsx:93-105) move the browser caret and delete the request. This is DOM I/O. The model keeps the request in the tree.
- Caret test: the selection test in `onKeyDown` (main.tsx:116-124) is the browser's state. The model takes it as the event `BackspaceAtStart`. Other keys change nothing and are not events.
- MobX: observability and re-rendering scheduling (`@observable`, `@observer`) are not modelled. The model gives arrays plain-array semantics, so `reverse()` at main.tsx:78 reverses in place. The document is a deep observable (main.tsx:235-236, 307). With MobX 4 or 5, `reverse()` on an observable array returns a reversed copy and leaves the array as it is. Under that runtime the lists inside the document keep their order, and `focusEnd` acts on them as `Focusing.MarkLast` does.
- `getKey` (main.tsx:7-16): React keys by object identity, which is not part of the edit semantics.
- The example document (main.tsx:236-300) and `console.log`: data and logging only.
- The commented-out `mergeAsText` sketch: it is dead code.
- A single-caret invariant: the code does not maintain one, so none is claimed.
- Node identity and aliasing: trees are values. The old list that `splice` mutates before its parent replaces it is not observable afterwards, and is not modelled.
- Characters: strings are sequences of Dafny characters rather than UTF-16 code units, so a surrogate pair counts as one character.
- `Focusing.FocusEndMarksLastLeaf`: states the leaves as a multiset plus the position of the marked one (first afterwards), not the whole order afterwards, because the in-place reversal reorders every visited list.
- `Edits.ListBackspaceAsWritten`: states the leaves as a multiset, for the same reason; `Edits.ListBackspaceMarksLastText` adds which child holds the caret and where.

## Findings

| source | as written | input that shows it | evidently intended | confidence | as-written member | corrected member |
|---|---|---|---|---|---|---|
| main.tsx:78 | `focusEnd` searches a list last-first with `ele.content.reverse().find(...)`, which, under plain-array semantics, reverses every visited list in place | Backspace at the start of `z` in `[a, {b <x {c} y>}, z]`: the object's content becomes `y {c} x` | search the children last-first without reordering them, and only mark the last text | not executed; depends on the array semantics (MobX 4 and 5 observable arrays return a reversed copy) | `Focusing.FocusEndReversesContent` | `Focusing.MarkLastMarksLastLeaf` |
| main.tsx:171-174 | the list's backspace closure calls `focusEnd` on the children before the caret, so under plain-array semantics the reversal reaches the document | the same input, seen at the list: `[a, {b <x {c} y>}, z]` with the caret at the start of `z` | move the caret to the end of `y` and leave the object's content in order | not executed; depends on the array semantics, as above | `Edits.ListBackspaceReversesObject` | `Edits.ListBackspaceIntendedCorrect` |
