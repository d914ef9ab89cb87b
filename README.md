# SVG to React converter: a verified model of its core

The system turns the text of an SVG file into the source of a React component. The model covers
the following parts of it:

- **The advanced page's cleaner.** `SVGCleaner.clean` in `src/utils/svg-cleaner.ts` parses the SVG
  and runs up to eight passes over the parsed document, in place:
  - duplicate removal;
  - removal of unused definitions;
  - rounding of long decimals;
  - path-data simplification;
  - `rgb()` to hex colours;
  - whitespace trimming;
  - removal of empty `style` elements;
  - merging of paths that share the same style.

  It then serializes the document and reports what it did.
- **The advanced page's utilities.** `src/utils/svg-utils.ts` holds the validator, the optimiser
  (comments, empty groups, empty `defs`, `data-*` and Figma attributes) and the analyser.
- **The advanced page's converter and hook.** `svgToJsx` and its validator
  (`src/utils/svgToJsx.ts`) are a chain of regular-expression rewrites followed by a template. The
  hook `useAdvancedConverter` (`src/hooks/use-advanced-converter.ts`) strings cleaning,
  optimisation, a worker or the local template, and progress reporting together.
- **The advanced page's handlers.** `src/pages/Index.tsx` covers loading a file, the
  processing-queue buttons and the queue's total progress. `src/components/SVGPreview.tsx` covers
  what the preview shows.
- **The basic app.** `uj/hooks/use-converter.ts` covers the rewrite chain, CSS extraction, the
  component template and the formatter. `uj/App.tsx` covers loading a file and the two counters of
  the details card.

How the code is organised:

- **The document tree.** The DOM is modelled by `Dom`. A node is `Element(id, tag, attrs,
  children)` or `TextNode(id, value)`. The id stands for object identity. A valid document has
  distinct ids.
- **DOM operations.** `querySelectorAll` is a snapshot in document order. `removeChild` detaches a
  node by id, together with its subtree. `setAttribute`, `removeAttribute` and the `nodeValue`
  write are patches by id.
  - `Dom.DomDocument` is a class whose `tree` field the cleaner's methods update.
  - Each pass is a `method` with the source's loop.
  - Each is proved against a specification function on the old tree (`AfterDuplicates`, …,
    `AfterMerge`), and the lemmas in `CleanerRemovals`, `CleanerRewrites` and `CleanerMerge` say
    what those functions do.
- **Regular-expression replaces.** `String.prototype.replace` with a global or a first-match
  expression is modelled by `Rewrite`. A left-to-right scan takes a matcher, which gives the length
  of the match at a position (0 for none), and a replacement. Each expression of the source becomes
  a matcher whose semantics are written out for that expression (greedy or lazy, anchored or not).
- **The parser.** The parser is a parameter. A parse either returns a document, or throws with a
  message. A parse error is an element named `parsererror` in the returned tree, which is what the
  source checks.

## Model

| member | source | states |
|---|---|---|
| SvgCleaner.SVGCleaner.constructor | src/utils/svg-cleaner.ts:24-27 | the cleaner holds the given parser |
| SvgCleaner.SVGCleaner.Clean | src/utils/svg-cleaner.ts:29-94 | the result is `CleanOutcome` of the parse: a parser exception propagates; otherwise the eight passes run in order as their options say, and the serialized document, the removed-element count, the log and the size reduction are reported |
| SvgCleaner.SVGCleaner.EarlyStages | src/utils/svg-cleaner.ts:35-65 | the five passes before whitespace leave the tree and counters that `EarlyPasses` describes, from an empty log |
| SvgCleaner.SVGCleaner.DuplicatesStage | src/utils/svg-cleaner.ts:35-40 | the duplicate stage adds its removals to `removedElements` and logs a positive count; when switched off it changes nothing |
| SvgCleaner.SVGCleaner.DefinitionsStage | src/utils/svg-cleaner.ts:42-47 | the definition stage adds its removals to `removedElements` and logs a positive count |
| SvgCleaner.SVGCleaner.PrecisionStage | src/utils/svg-cleaner.ts:49-53 | the precision stage logs the number of rounded values when positive; `removedElements` is unchanged |
| SvgCleaner.SVGCleaner.PathsStage | src/utils/svg-cleaner.ts:55-59 | the path stage logs the number of simplified paths when positive |
| SvgCleaner.SVGCleaner.ColorsStage | src/utils/svg-cleaner.ts:61-65 | the colour stage logs the number of recoloured values when positive |
| SvgCleaner.SVGCleaner.WhitespaceStage | src/utils/svg-cleaner.ts:67-71 | the whitespace stage fails exactly when there is no document element to walk; otherwise it always logs its line |
| SvgCleaner.SVGCleaner.StylesStage | src/utils/svg-cleaner.ts:73-77 | the style stage logs the number of removed `style` elements but does not add it to `removedElements` |
| SvgCleaner.SVGCleaner.MergeStage | src/utils/svg-cleaner.ts:79-83 | the merge stage logs the number of merged paths but does not add it to `removedElements` |
| SvgCleaner.RunLog | src/utils/svg-cleaner.ts:35-83 | the log of a completed run: only switched-on passes write, at most one line each, in the fixed pass order; every line but the whitespace one has a positive count; the whitespace line is there exactly when its option is on |
| SvgCleaner.RemovedElementsCounts | src/utils/svg-cleaner.ts:32-47 | `removedElements` is the duplicate pass's plus the definition pass's removals, and nothing else |
| SvgCleaner.LogMessages | src/utils/svg-cleaner.ts:38-82 | writing a message only when the count is positive renders exactly the log entries kept |
| SvgCleaner.Messages | src/utils/svg-cleaner.ts:38-82 | one message per log entry, in order |
| SvgCleaner.SVGCleaner.RemoveDuplicateElements | src/utils/svg-cleaner.ts:96-112 | the loop over the `*` snapshot leaves `AfterDuplicates` of the old tree and counts `DuplicatesRemoved` |
| SvgCleaner.SVGCleaner.CleanupUnusedDefinitions | src/utils/svg-cleaner.ts:114-141 | the reference scan and the removal loop leave `AfterDefinitions` and count `DefinitionsRemoved` |
| SvgCleaner.SVGCleaner.CollectReferences | src/utils/svg-cleaner.ts:120-129 | one element adds the ids named by its `url(#…)` reference attributes to the used set |
| SvgCleaner.SVGCleaner.RemoveIfUnused | src/utils/svg-cleaner.ts:132-138 | a candidate definition is detached, and counted, exactly when its id is non-empty and unused |
| SvgCleaner.SVGCleaner.OptimizePrecision | src/utils/svg-cleaner.ts:143-159 | the loop leaves `AfterPrecision` and counts one per rounded attribute value |
| SvgCleaner.SVGCleaner.RoundElement | src/utils/svg-cleaner.ts:145-157 | the walk over one element's attribute snapshot rewrites each long decimal, and counts the rewrites |
| SvgCleaner.SVGCleaner.RoundAll | src/utils/svg-cleaner.ts:148-155 | the loop over the snapshot leaves the prefix rewrite of all attributes and its count, and the live document changed only when something was rewritten |
| SvgCleaner.SVGCleaner.RoundStep | src/utils/svg-cleaner.ts:148-154 | one turn of the walk extends the rewritten prefix and the rewrite count by one attribute, and the live document carries the rewritten list once anything was rewritten |
| SvgCleaner.SVGCleaner.RoundAttribute | src/utils/svg-cleaner.ts:148-155 | a value is rewritten exactly when it matches the long-decimal pattern, to its two-digit rounding, on the live attribute list |
| SvgCleaner.SVGCleaner.SimplifyPaths | src/utils/svg-cleaner.ts:161-183 | the loop leaves `AfterPaths` and counts the paths whose `d` changed |
| SvgCleaner.SVGCleaner.SimplifyPath | src/utils/svg-cleaner.ts:164-181 | a path's `d` is written back, and counted, exactly when the simplification changes it |
| SvgCleaner.SVGCleaner.OptimizeColors | src/utils/svg-cleaner.ts:185-206 | the loop leaves `AfterColors` and counts one per recoloured `fill` or `stroke` |
| SvgCleaner.SVGCleaner.RecolorElement | src/utils/svg-cleaner.ts:189-203 | each named attribute of one element holding an `rgb()` colour is set to its hex form, and counted |
| SvgCleaner.SVGCleaner.RecolorAttribute | src/utils/svg-cleaner.ts:190-202 | one attribute is rewritten exactly when its value holds an `rgb()` colour |
| SvgCleaner.SVGCleaner.NormalizeWhitespace | src/utils/svg-cleaner.ts:208-229 | the walk trims every text node under the document element and detaches the ones left empty; without a document element it fails and changes nothing |
| SvgCleaner.SVGCleaner.NormalizeText | src/utils/svg-cleaner.ts:221-228 | one text node with data is trimmed, then detached when empty; one without data is left alone |
| SvgCleaner.SVGCleaner.RemoveUnusedStyles | src/utils/svg-cleaner.ts:231-243 | the loop leaves `AfterStyles` and counts the detached `style` elements |
| SvgCleaner.SVGCleaner.RemoveIfBlank | src/utils/svg-cleaner.ts:233-241 | a `style` element is detached, and counted, exactly when its text content is blank |
| SvgCleaner.SVGCleaner.MergePaths | src/utils/svg-cleaner.ts:245-274 | grouping and merging leave `AfterMerge` and count the detached paths |
| SvgCleaner.SVGCleaner.MergeGroup | src/utils/svg-cleaner.ts:259-271 | a group of two or more: the head takes the joined `d` and the rest are detached and counted; a smaller group changes nothing |
| SvgCleaner.GroupPaths | src/utils/svg-cleaner.ts:250-256 | the dictionary has a group for exactly the keys met. Each group is the paths with that key, in document order. The keys come in creation order |
| CleanerRemovals.SeenBeforeIff | src/utils/svg-cleaner.ts:98-108 | a serialization is in the seen set exactly when an earlier snapshot element had it |
| CleanerRemovals.DuplicateIdsIff | src/utils/svg-cleaner.ts:98-109 | an element is detached exactly when an earlier element of the snapshot serialized the same way |
| CleanerRemovals.FirstOccurrenceKept | src/utils/svg-cleaner.ts:98-109 | the first element with a given serialization is never itself detached (it can still go with a detached ancestor) |
| CleanerRemovals.DuplicateCountIsDetached | src/utils/svg-cleaner.ts:99-111 | the counter equals the number of distinct nodes detached |
| CleanerRemovals.RefsOfIff | src/utils/svg-cleaner.ts:120-129 | an id is used exactly when some reference attribute of some element names it |
| CleanerRemovals.DefinitionRemovedIff | src/utils/svg-cleaner.ts:114-141 | a `defs` descendant with an id is itself detached exactly when the id is non-empty and no element references it; a referenced definition is never itself detached |
| CleanerRemovals.ReferencedDefinitionKept | src/utils/svg-cleaner.ts:131-138 | in the tree the pass leaves, a definition that no unreferenced definition contains, itself included, is still present with its subtree pruned |
| CleanerRemovals.StyleRemovedIff | src/utils/svg-cleaner.ts:231-243 | a `style` element is detached exactly when its text content is all whitespace |
| CleanerRewrites.RoundingStep | src/utils/svg-cleaner.ts:148-155 | one attribute step: a long decimal is set rounded and counted, anything else is left |
| CleanerRewrites.RoundedAttrsUntouched | src/utils/svg-cleaner.ts:150 | an element without long decimals keeps its attributes and counts nothing |
| CleanerRewrites.RoundedAttrsPositional | src/utils/svg-cleaner.ts:147-156 | exactly the long-decimal values are rewritten, each to its two-digit rounding; names and positions are kept |
| CleanerRewrites.RewriteCountIff | src/utils/svg-cleaner.ts:147-156 | an element's count is the number of its attributes that were rewritten |
| CleanerRewrites.RewriteCountPositive | src/utils/svg-cleaner.ts:147-156 | the count is positive exactly when some attribute is rewritten |
| CleanerRewrites.PrecisionTouches | src/utils/svg-cleaner.ts:150-153 | an element is touched exactly when it has a long-decimal value |
| CleanerRewrites.RoundedAttrsIdempotent | src/utils/svg-cleaner.ts:150-152 | a second precision pass changes nothing |
| CleanerRewrites.ShortValuesUntouched | src/utils/svg-cleaner.ts:150 | a value with at most two fractional digits does not match `^\d+\.\d{3,}$` |
| CleanerRewrites.NegativeUntouched | src/utils/svg-cleaner.ts:150 | a negative number is not matched |
| CleanerRewrites.IntegerUntouched | src/utils/svg-cleaner.ts:150 | an integer is not matched |
| CleanerRewrites.PrecisionScenarioTen | src/utils/svg-cleaner.ts:150-151 | `10.1234` is matched and becomes `10.12` |
| CleanerRewrites.PrecisionScenarioOne | src/utils/svg-cleaner.ts:150-151 | `1.00001` is matched and becomes `1.00` |
| CleanerRewrites.PrecisionPatch | src/utils/svg-cleaner.ts:143-159 | element-by-element rewrites over the `*` snapshot make up `AfterPrecision`, which is valid |
| CleanerRewrites.SimplifiedPathAttrsFacts | src/utils/svg-cleaner.ts:166-178 | a changed path's new `d` is trimmed, has no whitespace run and differs from the old one; other elements keep their attributes |
| CleanerRewrites.PathCountedIff | src/utils/svg-cleaner.ts:175-178 | a path is counted exactly when its `d` is rewritten |
| CleanerRewrites.PathsPatch | src/utils/svg-cleaner.ts:161-183 | the rewrites over the `path` snapshot make up `AfterPaths`, which is valid |
| CleanerRewrites.RecolorOneFacts | src/utils/svg-cleaner.ts:190-202 | recolouring one attribute sets its hex value, and every other attribute is unchanged |
| CleanerRewrites.RecoloredAttrsFacts | src/utils/svg-cleaner.ts:189-203 | after the pass, `fill` and `stroke` each hold the hex form of the leftmost `rgb()` of their old value when they had one, and are otherwise unchanged; one count per rewritten attribute |
| CleanerRewrites.RecoloredAttrsUntouched | src/utils/svg-cleaner.ts:192-195 | an element without an `rgb()` colour keeps its attributes and counts nothing |
| CleanerRewrites.RecoloredAttrsIdempotent | src/utils/svg-cleaner.ts:189-203 | a second colour pass changes nothing |
| CleanerRewrites.RedScenario | src/utils/svg-cleaner.ts:194-197 | `rgb(255, 0, 0)` becomes `#ff0000` |
| CleanerRewrites.ColorsPatch | src/utils/svg-cleaner.ts:185-206 | the rewrites over the `*` snapshot make up `AfterColors`, which is valid |
| CleanerRewrites.WalkerTextsFromTree | src/utils/svg-cleaner.ts:209-219 | the tree walker visits distinct text nodes, all inside the document |
| CleanerRewrites.WhitespaceEffect | src/utils/svg-cleaner.ts:221-228 | each walked text node with data is trimmed, and detached exactly when the trimmed data is empty |
| CleanerRewrites.WhitespaceStep | src/utils/svg-cleaner.ts:221-228 | visiting the next text node writes its trimmed data to the tree the earlier visits left, then detaches it when empty |
| CleanerMerge.MergeStepsAre | src/utils/svg-cleaner.ts:258-271 | merging group by group is all the head rewrites followed by all the detaching |
| CleanerMerge.MergeStepsDone | src/utils/svg-cleaner.ts:258-271 | merging every group of a valid document gives the merge pass's tree, still valid |
| CleanerMerge.GroupMembers | src/utils/svg-cleaner.ts:252-256 | a group holds exactly the filed paths with its key; it is non-empty exactly when such a path exists |
| CleanerMerge.GroupKeysIff | src/utils/svg-cleaner.ts:252-256 | a key is listed exactly when some filed path has it |
| CleanerMerge.GroupKeysDistinct | src/utils/svg-cleaner.ts:254 | no key is listed twice |
| CleanerMerge.GroupHeadIndex | src/utils/svg-cleaner.ts:261 | a group's first member is the first path with that key |
| CleanerMerge.TailMembership | src/utils/svg-cleaner.ts:266-269 | a path is a non-first member of its group exactly when an earlier path has the same key |
| CleanerMerge.FiledGroupsAre | src/utils/svg-cleaner.ts:250-256 | the dictionary holds a group for exactly the created keys, each the paths filed under it |
| CleanerMerge.GroupSizesAddUp | src/utils/svg-cleaner.ts:252-256 | the groups partition the paths: their sizes add up to the number of paths |
| CleanerMerge.NewKeyGroup | src/utils/svg-cleaner.ts:254-255 | a path whose key has no group yet starts a group of its own |
| CleanerMerge.MergedIsSizes | src/utils/svg-cleaner.ts:266-269 | `merged` is the summed group sizes less one per group |
| CleanerMerge.MergedCount | src/utils/svg-cleaner.ts:245-274 | `merged` is the number of paths less the number of distinct keys |
| CleanerMerge.VictimsOfGroups | src/utils/svg-cleaner.ts:266-269 | a path is detached exactly when it is a non-first member of a group |
| CleanerMerge.EditsOfGroups | src/utils/svg-cleaner.ts:261-263 | a path is rewritten exactly when it heads a group of two or more, and it takes that group's joined `d` |
| CleanerMerge.GroupTwo | src/utils/svg-cleaner.ts:259-260 | two paths with the same key make a group of two or more |
| CleanerMerge.MergeRemovedIff | src/utils/svg-cleaner.ts:252-269 | a path is itself detached by the merge exactly when an earlier path has the same key; the first path of every group is never itself detached |
| CleanerMerge.MergeEditIff | src/utils/svg-cleaner.ts:259-263 | the head of a group of two or more takes the group's `d` values joined by spaces, in document order (an absent `d` is joined as empty text); no other path's attributes change |
| CleanerMerge.MergeKeyCollides | src/utils/svg-cleaner.ts:253 | `fill="a-b" stroke="c"` and `fill="a" stroke="b-c"` both get the key `a-b-c-null` |
| CleanerObservations.DuplicatesNotIdempotent | src/utils/svg-cleaner.ts:96-111 | on `<svg><c/><g><c/></g><g/></svg>` the first run detaches only the inner `c`, and a second run then detaches the second `g`: the pass is not idempotent |
| CleanerObservations.NestedDefinitionRemoved | src/utils/svg-cleaner.ts:113-141 | on `<svg><defs><g id="b"><linearGradient id="a"/></g></defs><rect fill="url(#a)"/></svg>` the referenced gradient goes with the unreferenced group around it, leaving `<svg><defs/><rect fill="url(#a)"/></svg>` |
| CleanerObservations.UnreferencedDefinitionSurvives | src/utils/svg-cleaner.ts:119-138 | on `<svg><defs><linearGradient id="a"/><pattern id="b" fill="url(#a)"/></defs></svg>` the pass removes the pattern and keeps the gradient, which nothing in the cleaned tree references any more |
| CleanerSyntax.FixedTwo | src/utils/svg-cleaner.ts:151 | a count of hundredths written with exactly two fractional digits |
| CleanerSyntax.FixedTwoIsShort | src/utils/svg-cleaner.ts:150-151 | rounded text is not a long decimal |
| CleanerSyntax.ToFixedTwoValue | src/utils/svg-cleaner.ts:151 | `toFixed(2)` text reads back as the rounded value, within half a hundredth of the input |
| CleanerSyntax.FixedTwoValue | src/utils/svg-cleaner.ts:151 | the digits of the rounded text read back as the hundredths |
| CleanerSyntax.RoundingBounds | src/utils/svg-cleaner.ts:151 | rounding half up to hundredths moves the value by at most half a hundredth |
| CleanerSyntax.DigitSpanOf | src/utils/svg-cleaner.ts:194 | `\d+` takes exactly a run of digits followed by a non-digit |
| CleanerSyntax.SpaceSpanOf | src/utils/svg-cleaner.ts:194 | `\s*` takes exactly a run of whitespace followed by a non-space |
| CleanerSyntax.MatchRgb | src/utils/svg-cleaner.ts:194 | an anchored match of `rgb\((\d+),\s*(\d+),\s*(\d+)\)` starts with `rgb(` and captures three non-empty digit strings |
| CleanerSyntax.FindRgb | src/utils/svg-cleaner.ts:194 | `match` finds the leftmost anchored match; its captures are digit strings |
| CleanerSyntax.FindRgbWithoutR | src/utils/svg-cleaner.ts:194 | text without the letter `r` has no match |
| CleanerSyntax.HexChannel | src/utils/svg-cleaner.ts:197 | `parseInt(x).toString(16).padStart(2, '0')` gives at least two hex digits |
| CleanerSyntax.HexColor | src/utils/svg-cleaner.ts:197 | the written colour is `#` followed by hex digits |
| CleanerSyntax.HexColorIs | src/utils/svg-cleaner.ts:197 | the colour is `#`, then the three channels in order |
| CleanerSyntax.HexChannelValue | src/utils/svg-cleaner.ts:197 | a channel reads back as its decimal value; below 256 it has exactly two digits |
| CleanerSyntax.Recolored | src/utils/svg-cleaner.ts:192-199 | a non-empty value with a match anywhere is replaced as a whole by a hex colour |
| CleanerSyntax.RecoloredStable | src/utils/svg-cleaner.ts:192-199 | a written hex colour is not recoloured again |
| CleanerSyntax.DropPairs | src/utils/svg-cleaner.ts:171-172 | the pair-dropping scan never lengthens the text and never starts with new whitespace |
| CleanerSyntax.DropPairsNoSpaceRun | src/utils/svg-cleaner.ts:170-172 | dropping letter pairs creates no whitespace run |
| CleanerSyntax.SimplifyPathData | src/utils/svg-cleaner.ts:169-173 | the simplified `d` is trimmed, has no whitespace run and is no longer than the original |
| CleanerSyntax.SimplifyPathDataNotIdempotent | src/utils/svg-cleaner.ts:169-173 | `M L L` becomes `L L`, and a second run gives `L` |
| CleanerSyntax.ReferencedId | src/utils/svg-cleaner.ts:124-125 | a reference names an id exactly when its value starts with `url(#`; the id is `value.slice(5, -1)`, and the closing parenthesis is not checked |
| Dom.GetAttrFacts | src/utils/svg-cleaner.ts:123 | `getAttribute` finds a value exactly when an attribute of that name is present |
| Dom.SetAttrFacts | src/utils/svg-cleaner.ts:152 | after `setAttribute` the name reads the value and every other name reads as before; an existing attribute is replaced in place, a new one goes at the end |
| Dom.RemoveAttrFacts | src/utils/svg-utils.ts:91 | after `removeAttribute` every other name reads as before and, with unique names, the name is gone |
| Dom.DocumentElement | src/utils/svg-cleaner.ts:210 | the document element is the document's first element child |
| Dom.DomDocument.constructor | src/utils/svg-cleaner.ts:31 | the parsed document's tree |
| Dom.DomDocument.RemoveNode | src/utils/svg-cleaner.ts:104 | `removeChild` detaches the node and its subtree |
| Dom.DomDocument.SetAttributes | src/utils/svg-cleaner.ts:152 | the element's attribute list is replaced and nothing else changes |
| Dom.DomDocument.SetNodeValue | src/utils/svg-cleaner.ts:223 | the text node's data is replaced and nothing else changes |
| DomFacts.SelectDistinct | src/utils/svg-cleaner.ts:97 | a snapshot of a valid tree holds no node twice |
| DomFacts.SnapshotAt | src/utils/svg-cleaner.ts:97 | every node of a snapshot is an element the selector matches |
| DomFacts.SelectComplete | src/utils/svg-cleaner.ts:97 | every element the selector matches is in the snapshot |
| DomFacts.SelectedRemovalIff | src/utils/svg-cleaner.ts:232-240 | detaching the snapshot nodes that satisfy a test detaches exactly the matching elements that satisfy it |
| DomFacts.PruneCompose | src/utils/svg-cleaner.ts:104 | detaching one set of nodes and then another is detaching both |
| DomFacts.PruneKeeps | src/utils/svg-cleaner.ts:135 | a node that is neither detached nor inside a detached node stays in the tree, with its own subtree pruned |
| DomFacts.PruneEditAttrsCommute | src/utils/svg-cleaner.ts:263-267 | detaching nodes and rewriting attributes commute |
| DomFacts.SnapshotPatchIsMap | src/utils/svg-cleaner.ts:144-158 | a pass over a snapshot that holds every element it changes maps its rewrite over the whole tree |
| SvgUtils.ValidateSvg | src/utils/svg-utils.ts:10-58 | the content is valid exactly when no error is reported |
| SvgUtils.BlankIsEmptyError | src/utils/svg-utils.ts:12-17 | blank content is rejected with the empty-content message before parsing |
| SvgUtils.ValidIff | src/utils/svg-utils.ts:10-58 | content is valid exactly when it is not blank, parses without a `parsererror` element, and has an `svg` root that states its size |
| SvgUtils.RootNotSvgIsError | src/utils/svg-utils.ts:34-41 | a well-formed document whose root is not `svg` gets the root message |
| SvgUtils.SizingIff | src/utils/svg-utils.ts:43-51 | with an `svg` root, validity is exactly its having `viewBox` or both `width` and `height`; otherwise the sizing message |
| SvgUtils.OptimizeSvg | src/utils/svg-utils.ts:63-110 | the result is `OptimizeOutcome`: the cleaned serialization, or the input itself when something throws |
| SvgUtils.RemoveAll | src/utils/svg-utils.ts:70-75 | every element of the snapshot is detached |
| SvgUtils.RemoveChildlessDefs | src/utils/svg-utils.ts:78-83 | every `defs` without child nodes is detached |
| SvgUtils.StripAttributes | src/utils/svg-utils.ts:86-101 | every element loses its `data-*` and Figma attributes |
| SvgUtils.StripElement | src/utils/svg-utils.ts:87-100 | the walk over one element drops `data-*` names, then the Figma names still present |
| SvgUtils.StrippedElementIff | src/utils/svg-utils.ts:86-101 | with unique names, an element keeps exactly the attributes that are neither `data-*` nor Figma |
| SvgUtils.CommentsGone | src/utils/svg-utils.ts:70-71 | no element named `comment` is left |
| SvgUtils.EmptyGroupRemovedIff | src/utils/svg-utils.ts:74-75 | an element is detached as an empty group exactly when it is a `g` that is `:empty` |
| SvgUtils.EmptyDefsRemovedIff | src/utils/svg-utils.ts:78-83 | an element is detached as an empty `defs` exactly when it is a `defs` without child nodes |
| SvgUtils.NestedEmptyGroupSurvives | src/utils/svg-utils.ts:74-75 | a group whose only child is an empty group loses that child but survives, now empty |
| SvgUtils.AnalyzeSvg | src/utils/svg-utils.ts:115-136 | the analysis is `null` exactly when the parser throws |
| SvgUtils.CountsBounded | src/utils/svg-utils.ts:120-125 | no per-type count exceeds the element count |
| SvgUtils.InlineStylesIff | src/utils/svg-utils.ts:126 | `hasInlineStyles` holds exactly when some element has a `style` attribute |
| SvgUtils.Utf8SizeBounds | src/utils/svg-utils.ts:127 | each character takes one to four bytes |
| SvgUtils.FileSizeBounds | src/utils/svg-utils.ts:127 | the byte size lies between one and four times the length |
| AttrStripping.KeepIf | src/utils/svg-utils.ts:88-93 | the attributes satisfying a test, in order |
| AttrStripping.WithoutNames | src/utils/svg-utils.ts:96-100 | the attributes whose names are not listed, in order |
| AttrStripping.RemoveAttrLength | src/utils/svg-utils.ts:91 | `removeAttribute` drops one attribute when the name is present, and none otherwise |
| AttrStripping.DropNamedIsFilter | src/utils/svg-utils.ts:96-100 | the guarded removal of the Figma names filters them out |
| AttrStripping.DropDataIsFilter | src/utils/svg-utils.ts:88-93 | the walk over the attribute snapshot filters the `data-*` attributes out |
| AttrStripping.StrippedAttrsKept | src/utils/svg-utils.ts:86-101 | with unique names, an element keeps exactly its non-`data-*`, non-Figma attributes, in their original order |
| ExtractCss.ExtractCssFromSvg | uj/hooks/use-converter.ts:156-201 | the result is `ExtractOutcome` of the parse |
| ExtractCss.CollectStyleTags | uj/hooks/use-converter.ts:161-168 | every `style` element's text and a newline are appended, and the element is detached |
| ExtractCss.ClassifyInlineStyles | uj/hooks/use-converter.ts:170-183 | every non-empty inline style moves into a generated class, recorded under that class name |
| ExtractCss.AppendRules | uj/hooks/use-converter.ts:186-191 | the rule of every entry is appended, in order |
| ExtractCss.StyleTagsGone | uj/hooks/use-converter.ts:161-168 | no `style` element is left |
| ExtractCss.ClassNamesDistinct | uj/hooks/use-converter.ts:175-177 | generated class names differ for different positions |
| ExtractCss.RestyledFacts | uj/hooks/use-converter.ts:180-181 | a styled element loses `style` and has exactly the generated class; other attributes read as before |
| ExtractCss.ClassPatchFacts | uj/hooks/use-converter.ts:172-183 | exactly the elements with a non-empty style are rewritten |
| ExtractCss.ClassesAssigned | uj/hooks/use-converter.ts:170-183 | the k-th styled element of the snapshot carries `svg_element_k`; every other element keeps its attributes |
| ExtractCss.InlineStylesEmptyIff | uj/hooks/use-converter.ts:177-186 | no inline entry is recorded exactly when no element has a non-empty style |
| ExtractCss.InlineStylesFrom | uj/hooks/use-converter.ts:175-183 | each entry is a generated class name and the style of a styled element |
| ExtractCss.InlineKeysDistinct | uj/hooks/use-converter.ts:172-183 | no class name is recorded twice, so the record keeps every entry |
| ExtractCss.InlineHeaderIff | uj/hooks/use-converter.ts:186-187 | the CSS carries the inline-styles header exactly when some element is styled |
| SvgToJsx.Convert | src/utils/svgToJsx.ts:9-89 | the method's stages, in order, give `SvgToJsxText` |
| SvgToJsx.RenameAttributes | src/utils/svgToJsx.ts:45-48 | the `forEach` makes one rename per map entry, in order |
| SvgToJsx.CloseTags | src/utils/svgToJsx.ts:54-58 | the `forEach` makes one closing rewrite per tag, in order |
| SvgToJsx.TrimLines | src/utils/svgToJsx.ts:81-83 | each line is trimmed, and the line count is kept |
| SvgToJsx.XmlDeclarationsNest | src/utils/svgToJsx.ts:13 | XML declarations do not interleave |
| SvgToJsx.DeclarationsRemoved | src/utils/svgToJsx.ts:13 | exactly the characters outside every XML declaration are kept, in order |
| SvgToJsx.DoctypesNest | src/utils/svgToJsx.ts:14 | DOCTYPEs do not interleave |
| SvgToJsx.DoctypesRemoved | src/utils/svgToJsx.ts:14 | exactly the characters outside every DOCTYPE are kept, in order |
| SvgToJsx.CommentsKeptUnlessAsked | src/utils/svgToJsx.ts:17-19 | without `removeComments`, or without `<!--`, the text is unchanged |
| SvgToJsx.CommentsRemoved | src/utils/svgToJsx.ts:17-19 | where comments do not start inside one another, exactly the characters outside every comment are kept |
| SvgToJsx.RenamesWellFormed | src/utils/svgToJsx.ts:22-42 | every entry maps a hyphenated lower-case name to its camel-case form |
| SvgToJsx.RenamesLeaveNone | src/utils/svgToJsx.ts:22-51 | after the renames no mapped name and no `class` is left followed by `=` at a word boundary |
| SvgToJsx.RenamesInOrder | src/utils/svgToJsx.ts:45-51 | the map's renames followed by `class` make up one series |
| SvgToJsx.OpenTagCloses | src/utils/svgToJsx.ts:54-58 | an opening tag of a listed name whose last character before `>` is not `/` is closed with ` />` |
| SvgToJsx.LineClosesLinearGradient | src/utils/svgToJsx.ts:54-57 | the rule for `line` also closes `<linearGradient>` |
| SvgToJsx.ClosedTagKept | src/utils/svgToJsx.ts:56-57 | a tag already ending in `/>` is left as it is |
| SvgToJsx.BareTagKept | src/utils/svgToJsx.ts:56-57 | a bare `<tag>` without attributes is left as it is |
| SvgToJsx.WhitespaceCollapsed | src/utils/svgToJsx.ts:61 | no two whitespace characters in a row, and trimmed |
| SvgToJsx.PropsOnFirstSvg | src/utils/svgToJsx.ts:64-67 | ` {...props}` goes before the `>` of the first `<svg` tag only; everything else is kept |
| SvgToJsx.NoSvgTagKept | src/utils/svgToJsx.ts:64-67 | without an `<svg` tag the props stage changes nothing |
| SvgToJsx.TemplateShape | src/utils/svgToJsx.ts:70-76 | the component starts with the TypeScript imports exactly when they are asked for, and declares and exports the given name |
| SvgToJsx.ImportsIff | src/utils/svgToJsx.ts:70-72 | the imports start with the TypeScript ones exactly when `addTypescript` is set |
| SvgToJsx.TrimmedLinesKept | src/utils/svgToJsx.ts:79-83 | on already trimmed lines the first formatting step gives the text back |
| SvgToJsx.ConvertedShape | src/utils/svgToJsx.ts:70-88 | unformatted output is the template around the processed SVG, with the TypeScript imports exactly when asked for |
| SvgToJsx.ValidateSvg | src/utils/svgToJsx.ts:91-119 | valid exactly when no error is reported |
| SvgToJsx.ValidIff | src/utils/svgToJsx.ts:91-119 | valid exactly when the content parses with no `parsererror` element and has an `svg` element somewhere |
| SvgToJsx.InvalidMessages | src/utils/svgToJsx.ts:96-118 | the message of each of the three failures |
| AttrRename.RenameNoOverlap | src/utils/svgToJsx.ts:46 | no occurrence of `name=` starts inside another, so every one is replaced |
| AttrRename.RenameReplaces | src/utils/svgToJsx.ts:46-47 | each `name=` at a word boundary becomes `to=`, and the text around it is converted on its own |
| AttrRename.RenameLeavesNone | src/utils/svgToJsx.ts:46-47 | after a rename no `name=` is left at a word boundary |
| AttrRename.RenameKeepsNone | src/utils/svgToJsx.ts:45-48 | a rename creates no occurrence of another hyphenated name at a word boundary |
| AttrRename.KeptPrefix | src/utils/svgToJsx.ts:46-47 | output that starts with `w=`, for `w` without `=` and capitals, was copied unchanged from the input |
| AttrRename.RenameAllLeavesNone | src/utils/svgToJsx.ts:45-51 | after every rename in turn, none of the renamed names is left at a word boundary |
| UseConverter.AlnumOnly | uj/hooks/use-converter.ts:97 | the letters and digits of a text, in order |
| UseConverter.AlnumFrom | uj/hooks/use-converter.ts:97 | deleting every character outside `[a-zA-Z0-9]` keeps the rest in order |
| UseConverter.ComponentNameFacts | uj/hooks/use-converter.ts:97 | the name is the file name's letters and digits, or `SvgIcon`; never empty; a plain name is kept |
| UseConverter.QuotesUnchanged | uj/hooks/use-converter.ts:92-94 | both quote rewrites put back what they match |
| UseConverter.QuotesIgnored | uj/hooks/use-converter.ts:92-94 | the `quotes` option has no effect on the content |
| UseConverter.Camelized | uj/hooks/use-converter.ts:73 | `-x` becomes `X` for each lower-case `x`; no such pair is left; a name without `-` is unchanged |
| UseConverter.CamelCased | uj/hooks/use-converter.ts:73 | the replace is camel case read from the left |
| UseConverter.Declaration | uj/hooks/use-converter.ts:67-74 | a style declaration becomes a non-empty entry |
| UseConverter.DeclarationOf | uj/hooks/use-converter.ts:71-74 | `p:v` becomes the camel-cased trimmed property and the quoted trimmed value |
| UseConverter.DeclarationWithoutValue | uj/hooks/use-converter.ts:71-74 | a declaration without `:` gets the value `undefined` |
| UseConverter.StyleObjectSingle | uj/hooks/use-converter.ts:67-76 | a non-empty style without `;` is one declaration |
| UseConverter.StyleObjectConcat | uj/hooks/use-converter.ts:67-76 | the declarations on each side of `;` are joined with `, `, and empty segments are dropped |
| UseConverter.StyleMatchLength | uj/hooks/use-converter.ts:65-79 | a `style="` followed by a closing `"` is one match, ending at that quote |
| UseConverter.StyleValueReplaced | uj/hooks/use-converter.ts:65-79 | that match becomes `style={{…}}` around the style object of the text between the quotes |
| UseConverter.FirstIdRemoved | uj/hooks/use-converter.ts:82-84 | the first `id="…"` attribute is removed with the whitespace before it |
| UseConverter.IdsKeptWithout | uj/hooks/use-converter.ts:82-84 | text without `id="` is unchanged |
| UseConverter.AttrValueFirst | uj/hooks/use-converter.ts:119-120 | only the first `name="…"` is replaced, up to the next `"` (returned as `q`); the text around it is kept |
| UseConverter.LiteralFirst | uj/hooks/use-converter.ts:121 | only the first occurrence of a literal is replaced |
| UseConverter.FirstClassReplaced | uj/hooks/use-converter.ts:122 | the global `class="…"` replace keeps the text before the first match, replaces it up to the next `"` (returned as `q`) and continues after it |
| UseConverter.ClassValueAt | uj/hooks/use-converter.ts:122 | `class="v"` becomes a `className` expression that joins `styles.v` with the component's `className` prop, or with the empty string when that prop is absent |
| UseConverter.NoPatternUnchanged | uj/hooks/use-converter.ts:58-64 | text in which no pattern occurs goes through the rewrites unchanged |
| UseConverter.CssImportIff | uj/hooks/use-converter.ts:100 | the module starts with the CSS-module import exactly when CSS was extracted |
| UseConverter.MemoExportIff | uj/hooks/use-converter.ts:126 | the export is `memo(Name)` exactly when `memo` is on |
| UseConverter.ComponentFirst | uj/hooks/use-converter.ts:103-139 | every generated module starts with `import` |
| UseConverter.CollapsedHasNoSpaceRun | uj/hooks/use-converter.ts:208 | after the first formatter step no two whitespace characters are adjacent |
| UseConverter.SemicolonsBreak | uj/hooks/use-converter.ts:210 | every `;` is followed by a newline |
| UseConverter.FormattedBreaks | uj/hooks/use-converter.ts:204-217 | in formatted code every `;` is followed by a newline |
| UseConverter.FormattedFirst | uj/hooks/use-converter.ts:204-217 | formatting keeps a leading `i` |
| UseConverter.ModuleFirst | uj/hooks/use-converter.ts:100-144 | the module opens with an import, so it never reads as the error comment |
| UseConverter.ModuleCssImport | uj/hooks/use-converter.ts:100-139 | unformatted, the module imports its CSS exactly when there is CSS |
| UseConverter.ModuleMemo | uj/hooks/use-converter.ts:126-139 | unformatted, the module ends in `export default memo(Name);` exactly when `memo` is on |
| UseConverter.ModuleFormatted | uj/hooks/use-converter.ts:141-144 | formatted, every `;` ends its line |
| UseConverter.ErrorExactlyWhenRejected | uj/hooks/use-converter.ts:33-152 | the error output appears exactly when the optimiser, the parser or the `svg` check rejects the input |
| UseConverter.CssOnlyExtracted | uj/hooks/use-converter.ts:47-55 | CSS output comes only from an accepted input with `extractCss` on |
| UseConverter.GeneratedShape | uj/hooks/use-converter.ts:96-144 | the component imports its CSS exactly when there is CSS and exports `memo(Name)` exactly when `memo` is on; formatted, every `;` ends its line |
| UseConverter.Converter.constructor | uj/hooks/use-converter.ts:11-31 | the initial state: the sample icon, empty outputs, `LayersIcon`, every option on |
| UseConverter.Converter.ConvertSvgToJsx | uj/hooks/use-converter.ts:33-153 | the outputs become the conversion of the current input; nothing else changes |
| UseConverter.Convert | uj/hooks/use-converter.ts:33-153 | the `try` body and its `catch` give `Converted` |
| UseConverter.Generate | uj/hooks/use-converter.ts:47-147 | the part after the `svg` check gives `Generated` |
| AdvancedConverter.DefaultsCleanWithoutMerging | src/hooks/use-advanced-converter.ts:36-45 | the default cleaning options run a cleaner without merging; the cleaning test of line 75 holds exactly when some cleaning option is on |
| AdvancedConverter.LocalModule | src/hooks/use-advanced-converter.ts:131-201 | the local module is the basic converter's unformatted module for no CSS: no CSS import; `memo(Name)` exactly when `memo` is on |
| AdvancedConverter.LocalIgnoresOtherOptions | src/hooks/use-advanced-converter.ts:131-201 | only the ids, comments, TypeScript and memo options reach `processLocally` |
| AdvancedConverter.WorkerError | src/hooks/use-advanced-converter.ts:102 | a missing or empty worker message is replaced by the default |
| AdvancedConverter.UsesWorkerIff | src/hooks/use-advanced-converter.ts:91 | the worker test is the comparison with the exact quotient |
| AdvancedConverter.DefaultThreshold | src/hooks/use-advanced-converter.ts:47-52 | with the default configuration the worker takes inputs over one mebibyte |
| AdvancedConverter.ProgressIff | src/hooks/use-advanced-converter.ts:58-128 | progress ends at 100 exactly when the conversion succeeds |
| AdvancedConverter.ErrorShown | src/hooks/use-advanced-converter.ts:121-124 | a failure shows `// Error: ` and its message, and no CSS |
| AdvancedConverter.Decisions | src/hooks/use-advanced-converter.ts:65-111 | a full memory fails first; the cleaner can fail only when some cleaning flag is set; the worker answers exactly when it is enabled and the input is over the threshold |
| AdvancedConverter.AdvancedConverterHook.constructor | src/hooks/use-advanced-converter.ts:17-56 | the initial state: empty input and outputs, `SvgIcon`, idle, the default options |
| AdvancedConverter.AdvancedConverterHook.ConvertSvgToJsx | src/hooks/use-advanced-converter.ts:58-129 | a blank input changes nothing; otherwise the outputs show the conversion or its error, processing is over and the progress is the last value set |
| AdvancedConverter.AdvancedConverterHook.Finish | src/hooks/use-advanced-converter.ts:121-128 | the `catch` and `finally` writes |
| AdvancedConverter.Run | src/hooks/use-advanced-converter.ts:65-124 | the `try` and `catch` blocks give what `TryBlock` describes |
| AdvancedConverter.Process | src/hooks/use-advanced-converter.ts:65-120 | the `try` block, each `throw` ending it |
| Pages.ConvertRequestedIff | src/pages/Index.tsx:110-118 | a conversion is asked for exactly when the input is not blank |
| Pages.WithoutSvgSuffix | src/pages/Index.tsx:84-90 | `.svg` is removed only where it ends the name |
| Pages.Pieces | src/pages/Index.tsx:84-90 | `split(/[-_\s]+/)` gives at least one piece |
| Pages.Capitalized | src/pages/Index.tsx:84-90 | the first character is upper-cased and the rest lower-cased |
| Pages.CapitalizedAll | src/pages/Index.tsx:84-90 | every piece is capitalised |
| Pages.NameOr | src/pages/Index.tsx:84-90 | the derived name when it is not empty, else the fallback |
| Pages.JoinedPieces | src/pages/Index.tsx:84-90 | joining the capitalised pieces keeps exactly the non-separator characters, up to case |
| Pages.PiecesSplit | src/pages/Index.tsx:84-90 | the pieces have no separator, and joined they are the non-separator characters |
| Pages.DerivedNameKeeps | src/pages/Index.tsx:84-90 | the derived name has no separator and spells the name's other characters, in order and up to case, without `.svg` |
| Pages.FallbackShape | uj/App.tsx:66-72 | with a plain fallback the name is never empty and has no separator |
| Pages.EmptyNameIff | src/pages/Index.tsx:84-90 | the derived name is empty exactly when only separators remain |
| IndexPage.QueuedIff | src/pages/Index.tsx:72-93 | the queue test is the comparison `length / 1024 > 500` |
| IndexPage.HandleFileSelect | src/pages/Index.tsx:59-108 | a rejected file changes nothing; an accepted one sets the input and the derived name, or `MyIcon` |
| IndexPage.QueueAdmission | src/pages/Index.tsx:93-102 | the queue grows by one exactly when the file is accepted and over 500 KiB; the old entries stay; the new one is pending at 0 with no error |
| IndexPage.FileNameShape | src/pages/Index.tsx:84-90 | an accepted file's name is non-empty, without separators |
| IndexPage.WithStatus | src/pages/Index.tsx:170-180 | every entry with the id gets the status; the others are unchanged |
| IndexPage.Cancel | src/pages/Index.tsx:182-184 | exactly the entries with another id remain |
| IndexPage.Retry | src/pages/Index.tsx:186-190 | matching entries are pending with no error; the others are unchanged |
| IndexPage.LastStatusWins | src/pages/Index.tsx:170-180 | pausing twice is pausing once, and resume overrides pause |
| IndexPage.LastStatus | src/pages/Index.tsx:170-180 | of two status changes to one id only the second shows |
| IndexPage.CancelKeepsOrder | src/pages/Index.tsx:182-184 | cancelling distributes over concatenation and drops exactly the entries with the id |
| IndexPage.CancelAfterStatus | src/pages/Index.tsx:170-190 | a status change or retry before a cancel of the same id makes no difference |
| IndexPage.CancelRemovesAll | src/pages/Index.tsx:182-184 | no entry with the id is left |
| IndexPage.TotalInPercent | src/pages/Index.tsx:197-199 | with every entry in 0..100 the total is too |
| IndexPage.StatusKeepsProgress | src/pages/Index.tsx:170-190 | status buttons do not change the total progress |
| AppPage.HandleFileSelect | uj/App.tsx:51-79 | a rejected file changes nothing; an accepted one sets the input and a non-empty, separator-free name |
| AppPage.WordEnd | uj/App.tsx:343 | the end of the run of word characters |
| AppPage.AttributesFrom | uj/App.tsx:343 | "Attributes Converted" counts the `=` signs that directly follow a word character |
| AppPage.PathsCounted | uj/App.tsx:349 | "Path Elements" counts every occurrence of `<path` |
| SvgPreview.CleanSvgContent | src/components/SVGPreview.tsx:19-39 | blank input shows nothing with no error; shown content is the stripped trimmed text and starts with `<svg`; the error appears exactly when non-blank input does not |
| SvgPreview.PlainSvgShown | src/components/SVGPreview.tsx:24-34 | an input without declarations that starts with `<svg` is shown trimmed, unchanged |

## Left out

- **Parsing and serialization.** `DOMParser` and `XMLSerializer` are not modelled in detail.
  - The parser is a function parameter. Its result must be a valid tree with fresh ids.
  - The serializer is a plain deterministic writer, without escaping or namespaces.
  - Comments and processing instructions are not nodes of the tree.
- **The basic app's utilities.** `uj/utils/svg-utils.ts` is not part of this model.
  - The basic converter takes its optimiser as a function parameter.
  - The basic app takes its validator's verdict as a boolean parameter.
- **React, the browser and time.**
  - React state is a value or a class field. Setters are assignments.
  - Toasts, the clipboard, downloads, timers and console logging are left out: the 1 s progress
    reset, the 100 ms `processLocally` delay and the basic app's 300 ms delay.
  - `Date.now()` is the parameter `now`.
  - Performance metrics and the memory probe are left out; the probe enters as a boolean.
  - The web worker's internals are left out; its reply is a parameter.
- **Error values.** Every modelled exception is an `Error` with a message. The `'Unknown error'`
  and `'Ismeretlen hiba'` branches for non-`Error` values cannot arise in the model.
  - The messages of exceptions the browser raises (`WalkerError` for a tree walker without a
    root, `NullRootMessage` for reading the name of a missing root) are placeholders. Browsers word
    them differently, and a `TypeError`'s `message` has no `TypeError: ` prefix. A real
    `DOMParser` always returns a document with a root, so neither path is reached.
- **Text.**
  - Lengths count characters, while JavaScript counts UTF-16 code units.
  - Case mapping and `\w` are ASCII. `\s` (`IsSpace`) is JavaScript's full set: the ASCII
    whitespace, U+00A0, U+1680, U+2000–U+200A, U+2028, U+2029, U+202F, U+205F, U+3000 and U+FEFF.
  - The size the analyser reports is a UTF-8 byte count.
- **Numbers.**
  - ToFixedTwo: `parseFloat(…).toFixed(2)` is modelled on the decimal text, rounding half up on
    the third fractional digit. JavaScript rounds an IEEE 754 double instead, and the two differ:
    - at binary ties, such as `1.005`, whose double lies below the decimal value;
    - with more than about 17 significant digits: `0.12499999999999999999` parses to the double
      0.125, which JavaScript writes `0.13`, while the model writes `0.12`;
    - for integer parts above 2^53, which a double cannot hold exactly: JavaScript writes
      `9007199254740993.001` as `9007199254740994.00` (the nearest double), the model as
      `9007199254740993.00`;
    - for values of 1e21 and more, which `toFixed` writes in exponent form (`1e+21`).
  - HexChannel: `parseInt(x).toString(16)` is modelled on the exact decimal value of the digits.
    JavaScript parses to a double, so above 2^53 the hex digits are those of the nearest double,
    and past about 308 digits the value is `Infinity`, written `Infinity`.
  - The size reduction is an exact rational, and undefined for an empty input.
  - The advanced page's precision slider is not modelled; the cleaner always rounds to two digits.
- **Data shapes.**
  - The `Record` of inline styles is a list with distinct keys.
  - The queue entry's `result` field is not modelled.
  - The 1000 KB large-file toast is not modelled.
- DefinitionRemovedIff: says which definitions are themselves detached, not which stay in the tree.
  What stays is stated by `ReferencedDefinitionKept`, under the hypothesis that no unreferenced
  definition contains the definition. `NestedDefinitionRemoved` shows that the hypothesis is needed.
- **Observed behaviours.** These are recorded, but no corrected version is modelled.
  - **Duplicate removal is not idempotent.** In `<svg><c/><g><c/></g><g/></svg>`, the second `g`
    survives the first run. It was compared with the first `g` before that `g` lost its child. A
    second run then removes it. `DuplicatesNotIdempotent`, listed in the table above, works both
    runs out.
  - **A referenced definition can be removed.** `defs *[id]` also selects definitions nested inside
    other definitions. An unreferenced definition takes every definition inside it along, referenced
    or not: see `NestedDefinitionRemoved` in the table above. `ReferencedDefinitionKept` states
    when a definition is sure to stay. The same holds for duplicates and merged paths: the
    element or path a pass keeps is never itself detached, but it can go with a detached ancestor.
  - **An unreferenced definition can survive when only a removed definition referenced it.** The
    references are collected once, before anything is removed, so they include those made by
    definitions the pass then removes: see `UnreferencedDefinitionSurvives` in the table above.
  - **Path merging can group different colours.** The merge key is a plain concatenation, so
    `MergeKeyCollides`, listed in the table above, shows two differently coloured paths that share
    a key.
  - **Path-data simplification is not idempotent.** See `SimplifyPathDataNotIdempotent` in the
    table above.
  - **The basic app's `class="…"` template rewrite fires only on text that later rewrites create.**
    The earlier `class=` → `className=` rewrite renames every `class` attribute of the input. Removing
    comments or ids afterwards can still join the pieces of a new `class="`: compare
    `<svg><text>clas<!---->s="a"</text></svg>` with comment removal on, or
    `<svg><text>clas id="x"s=""</text></svg>` with id removal on. The model (`StyledClasses`)
    applies the rewrite as the code does.
