# reveal.js-d3 step synchronisation, modelled in Dafny

reveal.js-d3 is a reveal.js plugin that embeds d3.js visualizations in slides
as iframes. Each visualization exposes its steps as `_transitions`. The plugin
makes those steps follow the slide's fragments:

- On an iframe's `load`, the steps of all visualizations on the slide are
  reconciled with the fragment indices the author wrote.
- Every step gets a slide fragment index. Each iframe stores a table from
  that index to its forward and backward transitions.
- Invisible `.fragment.visualizationStep` marker spans are added to the slide
  so that reveal.js stops on every step.
- `fragmentshown` fires the stored forward transition of every iframe.
  `fragmenthidden` fires the backward one.
- When a slide is reached going backwards, its last state is replayed.
- The current plugin also decides which background slides hold a live iframe.
  The older variant instead creates the new slide's iframes on every slide
  change, styling them with one object that all containers share, and removes
  the previous slide's iframes.

The model covers both copies of this engine:

- `demo/reveal.js/plugin/reveald3.js`, the current plugin;
- `reveald3.js`, the older variant.

The DOM is abstracted:

- A slide (`Dom.Slide`) holds its elements (`Dom.Fragment`: class tokens and a
  parsed `data-fragment-index`), its foreground iframes and its background
  iframes.
- An iframe (`Dom.Frame`) holds its fixed `_transitions` and the table and
  on-slide-change step that the plugin attaches to it.
- Calling a transition appends an action id to a trace (`Base.Trace`).

JavaScript semantics that matter are written out:

- `%` truncates (`Lifecycle.JsRem`).
- `parseInt` gives NaN, modelled as `None`, and NaN never matches a table key.
- `Math.max.apply` returns NaN as soon as one input is NaN (`Playback.JsMax`).
- `new Set` keeps first occurrences (`Collector.Dedupe`).
- An empty array is truthy.
- `String.prototype.includes` is a substring test (`Base.Contains`).

Modules:

- `Base`: options, sequences and sets.
- `Steps`: step descriptors and stored transitions.
- `Dom`: fragments, marker spans and their write-back, iframes, slides.
- `Options`: configuration normalisation and the file path.
- `Collector`: `getUniqueFragmentIndices`.
- `Reconciler`: `generateVisualizationStepsIndices`, which both variants share except its first and last loops.
- `Playback`: dispatch, replay and navigation direction.
- `Lifecycle`: background gating.
- `Styles`: iframe style and attributes.
- `Reveald3`: the current plugin's handlers.
- `LegacyReveald3`: the older variant's reconciler and handlers.

## Model

| member | source | states |
|---|---|---|
| Options.MapPath | demo/reveal.js/plugin/reveald3.js:33 | a string `mapPath` is used as given, another truthy value means `src`, and an absent or falsy one means no prefix |
| Options.DemoOptionsOf | demo/reveal.js/plugin/reveald3.js:17-44 | `runLastState` is true when absent and otherwise the value set; the delay defaults to 0; `tryFallbackURL` and `disableCheckFile` default to false |
| Options.DemoOptionsHonourSetValues | demo/reveal.js/plugin/reveald3.js:22-43 | every option the user sets keeps the value set |
| Options.DemoDefaults | demo/reveal.js/plugin/reveald3.js:17-44 | an empty configuration gives replay on, delay 0, no prefix, no fallback and the existence check on |
| Options.KeepIframeOverride | reveald3.js:58-62 | replay stays on only when it was on and `keepIframe` is off; the other options do not change |
| Options.LegacyOptionsAsWritten | reveald3.js:9-31 | replay is on exactly when `runLastState` is not truthy and `keepIframe` is off; `keepIframe`, `mapPath` and `tryFallbackURL` are normalised as written |
| Options.LegacyRunLastStateInverted | reveald3.js:14 | setting `runLastState: true` switches replay off, and setting it to false switches replay on |
| Options.LegacyOptionsOf | reveald3.js:10-14 | the corrected options: `keepIframe`, `mapPath` and `tryFallbackURL` as in the code |
| Options.LegacyRunLastStateIntended | reveald3.js:14 | in the corrected options, replay is on iff the setting is absent or true and `keepIframe` is off; without `keepIframe` this agrees with the current plugin |
| Options.FileExists | demo/reveal.js/plugin/reveald3.js:294 | the probe result is used unless the check is disabled, in which case the file counts as existing |
| Options.DemoFilePathAsWritten | demo/reveal.js/plugin/reveald3.js:295 | the path is the prefixed or the bare file name, and always the bare one without `tryFallbackURL` |
| Options.DemoMapPathIgnored | demo/reveal.js/plugin/reveald3.js:295 | with only `mapPath: "slides/"` set, the file loads from the unprefixed path |
| Options.DemoFilePath | demo/reveal.js/plugin/reveald3.js:31-38 | the corrected path is the bare name iff the fallback is requested and the prefixed file is not confirmed (or the prefix is empty); otherwise it is the prefixed name |
| Options.DemoFilePathAgrees | demo/reveal.js/plugin/reveald3.js:294-295 | the corrected path equals the code's whenever the fallback is requested; without the fallback, or with the check disabled, it is the prefixed path |
| Options.LegacyFilePath | reveald3.js:317 | `doesFileExist` returns `undefined`, so the path is always the bare file name |
| Collector.FilterMembers | demo/reveal.js/plugin/reveald3.js:244-246 | the filtered list holds exactly the elements that pass the test, and is no longer than the input |
| Collector.DemoFilterRemovesNothing | demo/reveal.js/plugin/reveald3.js:246 | the current plugin's filter as written keeps every `.fragment` element |
| Collector.DemoFilterKeepsMarkers | demo/reveal.js/plugin/reveald3.js:246 | as written, the filter keeps the marker spans the plugin itself creates |
| Collector.AuthoredAreOthers | demo/reveal.js/plugin/reveald3.js:245 | with the corrected filter, the authored fragments are exactly the `.fragment` elements that are not marker spans |
| Collector.AuthoredAfterWriteBack | demo/reveal.js/plugin/reveald3.js:243-254 | the span write-back does not change which authored fragments are collected |
| Collector.LegacyKeepsOnlyAuthored | reveald3.js:182 | the older filter drops every marker span; it also drops a fragment whose class is merely `visualizationSteps` |
| Collector.DedupeSpec | demo/reveal.js/plugin/reveald3.js:252 | `[...new Set(xs)]` has no duplicates, has the same values as `xs`, and keeps them in order of first occurrence |
| Collector.DedupeCountsOnce | demo/reveal.js/plugin/reveald3.js:252 | a repeated index and repeated NaNs each count once |
| Collector.GetUniqueFragmentIndices | demo/reveal.js/plugin/reveald3.js:243-254 | the result is the deduplicated parsed indices of the `.fragment` elements that pass the filter, in document order |
| Dom.NewSpanIsMarker | demo/reveal.js/plugin/reveald3.js:417-425 | a created span is a marker with no index, and it has the `visible` class iff the navigation was backward |
| Dom.WriteBackContract | demo/reveal.js/plugin/reveald3.js:413-431 | no span is removed; there are `max(existing, s)` markers afterwards; marker `i < s` carries `spansToCreate[i]`; later markers are unchanged; added spans are `visible` iff asked; non-markers are untouched |
| Dom.MarkerPositionsRank | demo/reveal.js/plugin/reveald3.js:428 | entry `i` of the marker selector result is the position of the marker of rank `i` |
| Dom.Slide.WriteBackMarkers | demo/reveal.js/plugin/reveald3.js:413-431 | the append loop and the labelling loop leave the slide's elements equal to `WrittenBack` of the old ones; the iframes do not change |
| Dom.VizFrames | demo/reveal.js/plugin/reveald3.js:455-456 | the result holds exactly the iframes whose class name contains `iframe-visualization` |
| Dom.NonVizFrames | reveald3.js:76-82 | the result holds exactly the iframes whose class name does not contain `iframe-visualization` |
| Dom.FirstVizClass | demo/reveal.js/plugin/reveald3.js:153 | `querySelector(".iframe-visualization")` finds the first iframe carrying that class, or nothing when none does |
| Dom.RemoveFirstVizClass | demo/reveal.js/plugin/reveald3.js:152-154 | only that first matching iframe is removed, and nothing when there is none |
| Dom.Slide.RemoveVizFrames | reveald3.js:69-83 | after the removal loop each of foreground and background keeps exactly its iframes that are not visualization iframes; the elements do not change |
| Playback.TriggerTransition | demo/reveal.js/plugin/reveald3.js:612-622 | at most one action fires: none without a table or an entry for the step (a NaN step included), and otherwise the direction's action of that entry |
| Playback.TriggerAllTransitions | demo/reveal.js/plugin/reveald3.js:606-610 | the loop fires each iframe's transition in order |
| Playback.FiredAllBounds | demo/reveal.js/plugin/reveald3.js:606-622 | each iframe fires at most once; nothing fires when no iframe has an entry, or when the step is NaN |
| Playback.FiredAllConcat | demo/reveal.js/plugin/reveald3.js:606-610 | firing on a concatenation of iframe lists fires on each part in turn |
| Playback.AssignTables | demo/reveal.js/plugin/reveald3.js:402-404 | iframe `i` stores table `i`, an iframe past the last table stores none, and the on-slide-change steps do not change |
| Playback.TriggerOnSlideChangeTransition | demo/reveal.js/plugin/reveald3.js:624-630 | each iframe with an on-slide-change step fires its forward action, in order |
| Playback.OnSlideChangeOnlyGiven | demo/reveal.js/plugin/reveald3.js:624-630 | at most one action fires per iframe, and none when no iframe was given an on-slide-change step |
| Playback.IsNavigationBack | demo/reveal.js/plugin/reveald3.js:566-571 | backward iff `h_cur < h_prev` or `v_cur < v_prev`; a slide is never backward from itself |
| Playback.NavigationBackEitherAxis | demo/reveal.js/plugin/reveald3.js:570 | because the axes are compared separately, moving right to the top of the next column counts as backward, and two slides can each be backward from the other |
| Playback.JsMax | demo/reveal.js/plugin/reveald3.js:562 | the result is defined iff the list is non-empty and has no NaN; then it is an element of the list and no element exceeds it |
| Playback.JsMaxOfIndices | demo/reveal.js/plugin/reveald3.js:562 | once every marker has an index, the replayed step is their maximum |
| Playback.TriggerLastState | demo/reveal.js/plugin/reveald3.js:549-564 | nothing fires on forward navigation or without markers; otherwise the forward action of the highest marker index fires |
| Playback.ReplayAfterWriteBack | demo/reveal.js/plugin/reveald3.js:428-437 | after a write-back that needed all the spans, the replayed index is the highest written index |
| Playback.Proceed | demo/reveal.js/plugin/reveald3.js:597-604 | the event proceeds iff the concatenated class names contain `visualizationStep` |
| Playback.ProceedOnMarker | demo/reveal.js/plugin/reveald3.js:597-604 | an event that includes a marker span always proceeds |
| Playback.ProceedNeedsFragments | demo/reveal.js/plugin/reveald3.js:597-604 | an event with no fragments never proceeds |
| Playback.ProceedAcrossFragments | demo/reveal.js/plugin/reveald3.js:599-603 | two fragments whose class names spell `visualizationStep` only when joined also make the event proceed |
| Playback.HandleFragments | demo/reveal.js/plugin/reveald3.js:632-640 | the step of the event's first fragment fires in the given direction on every visualization iframe of the slide |
| Playback.OnFragmentEvent | demo/reveal.js/plugin/reveald3.js:584-595 | nothing fires unless the event proceeds; then the event has a fragment and its step fires on all iframes |
| Reconciler.ExplicitIndices | demo/reveal.js/plugin/reveald3.js:484 | the explicit indices are non-negative, and there are no more of them than steps |
| Reconciler.LocalIndices | demo/reveal.js/plugin/reveald3.js:482-492 | there is one index per step, all non-negative; the explicit ones come first in declared order; the rest follow as `max+1, max+2, …` (or `0, 1, …`) and lie above every explicit one |
| Reconciler.AssignLocalIndices | demo/reveal.js/plugin/reveald3.js:482-492 | the push loop produces `LocalIndices` |
| Reconciler.AssignAllLocalIndices | demo/reveal.js/plugin/reveald3.js:482-493 | list `k` of the result holds the local indices of visualization `k` |
| Reconciler.InsertSortedIncreasing | demo/reveal.js/plugin/reveald3.js:496-497 | inserting into a strictly increasing list keeps it strictly increasing |
| Reconciler.InsertSortedElements | demo/reveal.js/plugin/reveald3.js:496-497 | insertion adds exactly the inserted value |
| Base.SortedUnique | demo/reveal.js/plugin/reveald3.js:496-497 | two strictly increasing lists with the same values are equal, so the sorted insertion gives the same list as set-then-sort |
| Reconciler.SortedUnion | demo/reveal.js/plugin/reveald3.js:496-497 | the union is strictly increasing and holds exactly the indices of all the lists |
| Reconciler.RemapMonotone | demo/reveal.js/plugin/reveald3.js:513-523 | the remapping keeps order strictly, so distinct visualization indices never share a slide index |
| Reconciler.RemapOverflowBounds | demo/reveal.js/plugin/reveald3.js:500-523 | an overflow index lands in `[M, M+K)`, where `K` is the number of overflow indices |
| Reconciler.BuildHashTable | demo/reveal.js/plugin/reveald3.js:500-523 | the hash table's keys are the union; an index `d <= M-1` maps to itself; the k-th overflow index maps to `M+k` |
| Reconciler.MarkersOfHash | demo/reveal.js/plugin/reveald3.js:546 | the marker list is strictly increasing, has one entry per distinct index, and is exactly the kept indices plus `M..M+K-1` |
| Reconciler.RemapIndices | demo/reveal.js/plugin/reveald3.js:496-523 | the hash table and the marker list, with the properties above |
| Reconciler.TableStep | demo/reveal.js/plugin/reveald3.js:536-541 | storing one more step keeps the table equal to "the last step written under each key" |
| Reconciler.BuildActionTable | demo/reveal.js/plugin/reveald3.js:534-541 | the table stores `Entry(steps, j)` under `hash[indices[j]]`; keys are exactly those; a later step overwrites an earlier one with the same key |
| Reconciler.TableLookup | demo/reveal.js/plugin/reveald3.js:536-541 | the entry under a remapped index is that of the last step with that local index; its backward action is the no-op for `"none"`, its own when given, and else the previous step's forward |
| Reconciler.BuildOneTable | demo/reveal.js/plugin/reveald3.js:527-544 | one pass of the table loop builds the action table of list `i` |
| Reconciler.BuildActionTables | demo/reveal.js/plugin/reveald3.js:526-545 | there is one table per visualization, each the action table of its steps under its remapped local indices |
| Reconciler.GenerateVisualizationStepsIndices | demo/reveal.js/plugin/reveald3.js:478-547 | the whole reconciler: tables as above; the marker indices are strictly increasing, one per distinct index, and exactly the kept indices and `M..M+K-1` |
| Lifecycle.JsRem | demo/reveal.js/plugin/reveald3.js:134 | the truncated remainder has the dividend's sign and is smaller than the divisor in absolute value |
| Lifecycle.JsDivision | demo/reveal.js/plugin/reveald3.js:134 | the truncated quotient and remainder recompose the dividend |
| Lifecycle.JsRemNotEuclidean | demo/reveal.js/plugin/reveald3.js:134 | `-1 % 3` is -1 in JavaScript, where Euclidean division gives 2 |
| Lifecycle.Distance | demo/reveal.js/plugin/reveald3.js:130-135 | the distance is `abs(Δh)`; under `loop` it is `abs(Δh rem (len - viewDistance))`, below the divisor; a zero divisor gives 0 |
| Lifecycle.DistanceSymmetric | demo/reveal.js/plugin/reveald3.js:130-135 | the distance does not depend on which column is the current one |
| Lifecycle.CurrentColumnMaterializes | demo/reveal.js/plugin/reveald3.js:137 | the background of the current column always materialises |
| Lifecycle.NoPreloadOnlyHere | demo/reveal.js/plugin/reveald3.js:137 | without `data-preload` a background materialises only at distance 0 |
| Lifecycle.UpdateBackgroundSlide | demo/reveal.js/plugin/reveald3.js:137-156 | when materialising a slide with no iframe, one new `iframe-visualization` becomes its background; with an iframe present nothing changes; otherwise its first `.iframe-visualization` background iframe is removed |
| Lifecycle.UpdateBackgroundSlides | demo/reveal.js/plugin/reveald3.js:122-158 | the overview forces view distance 10; every background slide ends in the state its own decision prescribes; nothing happens before the backgrounds are collected |
| Lifecycle.ClearBackgrounds | demo/reveal.js/plugin/reveald3.js:113-120 | every background slide's background content is emptied; nothing else changes |
| Styles.PutSpec | demo/reveal.js/plugin/reveald3.js:272 | writing a key sets it; other keys keep their values; a new key is appended last and an existing key keeps its place |
| Styles.AssignSpec | demo/reveal.js/plugin/reveald3.js:274 | after `Object.assign`, a key has the source's last value when the source has it and the target's otherwise; the target's keys stay in front in order and stay distinct |
| Styles.DefaultStyles | demo/reveal.js/plugin/reveald3.js:257-265 | the current default style is the older one plus `border: 0`, and neither repeats a key |
| Styles.InputtedStyle | demo/reveal.js/plugin/reveald3.js:270-273 | the match loop gives the object `Object.assign({}, matches)` |
| Styles.IframeStyleSpec | demo/reveal.js/plugin/reveald3.js:274 | the user's style wins on every key it sets; the defaults hold elsewhere and come first in their own order; no key repeats |
| Styles.UserWidthKeepsBorder | demo/reveal.js/plugin/reveald3.js:257-274 | a user style that sets only `width` gets that width and keeps `border: 0` |
| Styles.FirstSpaceSpec | demo/reveal.js/plugin/reveald3.js:303 | the search finds the first whitespace character of `\s`, or reports that there is none |
| Styles.RunEndSpec | demo/reveal.js/plugin/reveald3.js:303 | the greedy `\s+` run ends at the first non-whitespace character |
| Styles.CollapseFirstRunSpec | demo/reveal.js/plugin/reveald3.js:303 | `replace(/\s+/, " ")` is the text before the first whitespace, one space, then the text after that run; a value without whitespace is unchanged |
| Styles.CollapseIdempotent | demo/reveal.js/plugin/reveald3.js:303 | collapsing twice gives the same as collapsing once |
| Styles.CollapseOnlyFirst | demo/reveal.js/plugin/reveald3.js:303 | only the first run is collapsed: `"a  b  c"` becomes `"a b  c"` |
| Styles.SerializeConcat | demo/reveal.js/plugin/reveald3.js:302-303 | the style string of concatenated entries is the concatenation of their style strings |
| Styles.SerializeOne | demo/reveal.js/plugin/reveald3.js:303 | one entry serialises to `key:collapsed value;` |
| Styles.Scrolling | demo/reveal.js/plugin/reveald3.js:277-281 | `scrolling` is the `data-scroll` value when present and non-empty, and `yes` otherwise |
| Styles.ContainerOverflow | demo/reveal.js/plugin/reveald3.js:292 | a set overflow is kept; an unset one becomes `hidden` unless `data-overflow-shown` is true |
| Styles.ContainerOverflowStable | demo/reveal.js/plugin/reveald3.js:292 | applying the overflow rule again changes nothing |
| Styles.ExtraLookup | demo/reveal.js/plugin/reveald3.js:314-336 | the assigned extras name the file under `src` on the current slide and under `data-src` elsewhere, and never set `class` or `style` |
| Styles.DemoIframeConfigSpec | demo/reveal.js/plugin/reveald3.js:306-337 | the iframe carries `class: iframe-visualization` and its style string, and names its file under exactly one of `src` and `data-src` |
| Styles.LegacyIframeConfigSpec | reveald3.js:324-329 | the older iframe carries the class, `src`, the style and no `data-src`, with distinct keys |
| Reveald3.SplitSpec | demo/reveal.js/plugin/reveald3.js:380-388 | every step lands in exactly one part: numbered and unnumbered steps in `inSlide`, string-indexed ones in `onSlideChange` |
| Reveald3.SplitTransitions | demo/reveal.js/plugin/reveald3.js:380-388 | the `reduce` produces the two parts in declared order |
| Reveald3.CollectSteps | demo/reveal.js/plugin/reveald3.js:378-395 | the step lists are the in-slide parts of the iframes that have some; the on-slide-change step is the loading iframe's first one, if any |
| Reveald3.InSlideListsAligned | demo/reveal.js/plugin/reveald3.js:389-391 | there are no more lists than iframes; when every iframe contributes, list `i` is iframe `i`'s |
| Reveald3.InSlideListsShift | demo/reveal.js/plugin/reveald3.js:389-404 | with a non-contributing iframe first, the only list is the second iframe's, so the table built from it goes to the first iframe |
| Reveald3.ReplayLastState | demo/reveal.js/plugin/reveald3.js:435-439 | on backward arrival with markers every iframe fires the highest marker index forward; otherwise nothing fires |
| Reveald3.Reconcile | demo/reveal.js/plugin/reveald3.js:375-399 | the collected lists are reconciled as `GenerateVisualizationStepsIndices` promises, and the on-slide-change step is the loading iframe's |
| Reveald3.InstallSteps | demo/reveal.js/plugin/reveald3.js:402-440 | the tables are stored by position, the on-slide-change step goes to the loading iframe only, and replay happens only when it is on, the slide is current and the loading iframe is the last |
| Reveald3.OnLoad | demo/reveal.js/plugin/reveald3.js:357-444 | the whole load handler: the iframes are unchanged; the tables reconcile the slide's step lists and are stored; the markers are written back (visible iff backward); replay as in the source |
| Reveald3.TableKeysAreMarkers | demo/reveal.js/plugin/reveald3.js:536-546 | every key of every table is one of the marker indices |
| Reveald3.StoredStepsHaveMarkers | demo/reveal.js/plugin/reveald3.js:428-431 | after the write-back every stored step's key is carried by a marker span, so a fragment event can reach it |
| Reveald3.RefreshBackgrounds | demo/reveal.js/plugin/reveald3.js:103-111 | clearing first and then updating leaves each background in its decided state, computed from emptied backgrounds when cleared |
| Reveald3.SlideChanged | demo/reveal.js/plugin/reveald3.js:76-101 | backgrounds are refreshed (cleared under the overview); replay fires only with replay on and backward navigation; arrival steps fire only on forward navigation |
| Reveald3.SlideChangeExclusive | demo/reveal.js/plugin/reveald3.js:89-100 | a slide change never both replays and runs arrival steps, and returning to the same indices replays nothing |
| LegacyReveald3.TransitionsOf | reveald3.js:357-363 | one entry per iframe, its `_transitions` or undefined |
| LegacyReveald3.CollectTransitions | reveald3.js:357-363 | the loop collects `TransitionsOf` the iframes |
| LegacyReveald3.DefinedLists | reveald3.js:194-212 | undefined lists are skipped, so there are no more index lists than step lists |
| LegacyReveald3.PairedPositions | reveald3.js:246-250 | a table is built only at a position where the step list is defined and an index list exists |
| LegacyReveald3.PairedKeys | reveald3.js:255-259 | the steps are keyed by the remapped entries of the positionally paired index list, one per step while that list lasts |
| LegacyReveald3.LegacyAssignAllLocalIndices | reveald3.js:194-212 | the first loop returns the local indices of the defined lists only |
| LegacyReveald3.BuildPairedTable | reveald3.js:250-262 | one pass builds the action table of the steps under the paired keys |
| LegacyReveald3.BuildPairedTables | reveald3.js:246-263 | one table per paired position, in order, each the action table of that position's steps under its paired keys |
| LegacyReveald3.LegacyGenerateVisualizationStepsIndices | reveald3.js:191-267 | the older reconciler: tables by paired position; the marker indices strictly increasing and exactly the kept indices plus `M..M+K-1` |
| LegacyReveald3.AllDefinedAligned | reveald3.js:194-263 | with every list defined, the defined lists are all the lists and every position is paired with itself |
| LegacyReveald3.LegacyAgreesWhenAllDefined | reveald3.js:191-267 | with every list defined, the older reconciler's promise is exactly the current one's |
| LegacyReveald3.UndefinedFirstLosesTable | reveald3.js:246-263 | with an undefined list before a defined one, markers are still created, but no table is built |
| LegacyReveald3.UndefinedFirstShiftsIndices | reveald3.js:246-248 | with an undefined list first, the only table is built at position 1, paired with the index list of position 1, which belongs to the second defined list |
| LegacyReveald3.LegacyOnLoad | reveald3.js:340-389 | the iframes are unchanged; the tables reconcile the collected lists and are stored by position; the markers are written back without `visible` |
| LegacyReveald3.GetAllContainers | reveald3.js:128-137 | the loop returns the slide first when it is a container, then the inner containers in order |
| LegacyReveald3.ContainersSpec | reveald3.js:128-137 | the slide leads iff it is a container; inner containers follow in order; the list is empty iff there is neither |
| LegacyReveald3.SharedStyleStep | reveald3.js:151-172 | a container's own `data-style` wins on the keys it sets; elsewhere its style is the one the previous container got (the default for the first); no key repeats |
| LegacyReveald3.StyleLeaks | reveald3.js:151-172 | a key one container's `data-style` sets keeps that value in the style of every later container that does not set it |
| LegacyReveald3.WidthLeaks | reveald3.js:151-172 | `width: 50%` on the first container also applies to a second container that sets no width |
| LegacyReveald3.Initialize | reveald3.js:304-337 | a container that holds an iframe gets none and no attribute object; otherwise a fresh `iframe-visualization` loading its visualization is added, in the slide's background when the container is the slide itself, and its attribute object carries the container's file and the given style serialised at that moment |
| LegacyReveald3.InitializeContainer | reveald3.js:160-175 | the style passed on is the shared style merged with the container's matches, and the container is initialised with it as above, so a created iframe's `style` attribute is that merged style serialised |
| LegacyReveald3.InitializeAllVisualizations | reveald3.js:149-176 | container `i` is initialised with the shared style after containers `0..i`; the slide gains one `iframe-visualization` per container without an iframe, in container order, loading that container's visualization; the attribute object of container `i`'s iframe, when one is created, has the serialisation of that accumulated style as its `style`; nothing else changes |
| LegacyReveald3.CreatedAreFound | reveald3.js:269-281 | every iframe the initialisation creates is one `getAllIframes` returns |
| LegacyReveald3.LegacyTriggerLastState | reveald3.js:104-126 | only on backward navigation to a slide with markers are all iframes armed, with the highest marker index; otherwise nothing is armed |
| LegacyReveald3.LegacyIframeLoaded | reveald3.js:119-124 | a load of an armed iframe runs the load handler, then fires the armed index forward on every iframe |
| LegacyReveald3.HandleSlideVisualizations | reveald3.js:89-102 | nothing happens without containers; otherwise the authored indices are collected with the older filter and the visualizations are initialised, each created iframe's attribute object carrying its container's file and accumulated style; the last state is armed only with replay on, on the slide's iframes after initialisation, the created ones included |
| LegacyReveald3.Teardown | reveald3.js:64-86 | unless `keepIframe` is set, every visualization iframe of the previous slide is removed and no other iframe is; with `keepIframe` the slide is unchanged |
| LegacyReveald3.TeardownLeavesNoViz | reveald3.js:76-82 | no visualization iframe survives the removal |
| LegacyReveald3.LegacySlideChanged | reveald3.js:50-86 | the handlers run in registration order: containers, collection, initialisation and arming on the new slide, then teardown of the previous slide unless iframes are kept; the new slide's iframes, created ones included, survive the teardown |

## Left out

- The file probes (`fetch` in the current plugin, `XMLHttpRequest` in the older one) are network calls. Their result is an input (`Options.FileExists`).
- In the current plugin, iframe creation and insertion (`initialize`, `setAttribute`, `appendChild`) are host calls; insertion appears only as the background update of `Lifecycle.UpdateBackgroundSlide`, and the attribute objects are modelled in `Styles`. In the older variant, `LegacyReveald3.Initialize` models both: it adds the iframe to the slide's foreground or background and returns its attribute object (`Styles.LegacyIframeConfig`); the `setAttribute` calls that copy that object onto the element are not modelled. `Reveal.layout`, `Reveal.triggerKey` and the forwarding of keydown events are host calls.
- Listener registration, the asynchronous `load` callbacks and the race between loads and navigation are concurrency. Each handler is a method called in sequence.
- The `setTimeout` of `onSlideChangedDelay` is a timer. `Reveald3.SlideChanged` fires the arrival steps at once.
- In the current plugin, the `ready` handler, `initializeAllVisualizations` and `getAllVizSlides` (demo lines 162-240) create the foreground iframes and collect slides from the document. Their results (the background slide list and `fragmentsInSlide`) are inputs. Each container's style comes from `getIframeStyle`, a fresh object per call, modelled by `Styles.IframeStyle`. The older variant's `initializeAllVisualizations` is modelled (`LegacyReveald3.InitializeAllVisualizations`).
- The regular expression that parses `data-style` is not modelled. Its matches are an input to `Styles.InputtedStyle`.
- `JSON.parse` of `data-overflow-shown` is browser semantics. Its result is an input to `Styles.ContainerOverflow`.
- `parseInt` beyond number-or-NaN is not modelled. Indices are integers or `None`. `Steps.StepIndex` separates numeric, absent and string step indices.
- String `index` values are modelled as non-numeric (`Steps.Named`); numeric strings such as `"2"`, for which `"2" >= 0` is true in JavaScript, are not modelled. In the current plugin a string index goes to the on-slide-change part, as the split does (demo lines 382-386). The older variant has no split (reveald3.js:359-363): the step stays in its list, the reconciler does not count it as explicit, as for `"x" >= 0`, which is false, and gives it a generated index.
- A step whose `index` is `null` is modelled as a step without an index (`Steps.Unset`). Like the source, the model keeps it in-slide (demo line 382). But in the source `null >= 0` is true (demo line 484), so the reconciler counts it as an explicit index, which `Math.max` reads as 0. The model gives it a generated index instead.
- Table writes under the key `"undefined"` are not modelled: `Reconciler.BuildActionTable` and `LegacyReveald3.PairedKeys` drop them. They happen when the older variant pairs a step list with a shorter index list. No lookup by a parsed number reaches them.
- `Reveald3.OnLoad` performs the span write-back before storing the tables, while the source stores the tables first. The two updates touch different objects, so the final state is the same.
- LegacyReveald3.Element: whether an inner container already holds an iframe is an input (`hasIframe`). The model keeps the slide's iframe lists, not one list per container. For the slide itself as a container, its background list is looked at.
- LegacyReveald3.Initialize: a created foreground iframe is appended at the end of the slide's list. In the document it sits inside its container, so `getAllIframes` may list it before iframes of later containers.
- LegacyReveald3.InitializeAllVisualizations: does not restate that the created iframes are new objects; each `LegacyReveald3.Initialize` call promises that for its own iframe.
- LegacyReveald3.LegacySlideChanged: requires the new and the previous slide to differ, which reveal.js ensures by firing `slidechanged` only when the indices change.
- Lifecycle.UpdateBackgroundSlide: the new background iframe is given the visualization's `_transitions` at creation, not after its load.
- Playback.HandleFragments: requires at least one fragment in the event, which reveal.js always supplies; `Playback.OnFragmentEvent` shows that the guard makes this hold.

## Findings

| source | as written | input that shows it | evidently intended | confidence | as-written member | corrected member |
|---|---|---|---|---|---|---|
| reveald3.js:14 | `runLastState: !config.reveald3.runLastState` | `runLastState: true` switches replay off; `false` switches it on | the setting is honoured and defaults to true (comment on line 14; the current plugin, line 22) | high; not executed | Options.LegacyRunLastStateInverted | Options.LegacyRunLastStateIntended |
| demo/reveal.js/plugin/reveald3.js:295 | the `mapPath` prefix is applied only when `tryFallbackURL` is set and the probe succeeds | `mapPath: "slides/"` alone loads `viz.html` instead of `slides/viz.html` | `mapPath` always prefixes; the fallback only drops it when the prefixed file is not found (comments on lines 31-36) | medium; not executed | Options.DemoMapPathIgnored | Options.DemoFilePathAgrees |
| demo/reveal.js/plugin/reveald3.js:246 | `split()` without a separator makes the whole class attribute one item, so the filter never matches | a slide whose author wrote `<span class="fragment visualizationStep">` spans keeps them as authored fragments | drop the plugin's own marker spans (comment on line 245; the older variant, line 182) | latent: the only call is at `ready` (lines 212 and 233), before any load handler adds spans, so only hand-written marker spans reach it; not executed | Collector.DemoFilterKeepsMarkers | Collector.AuthoredAreOthers |
