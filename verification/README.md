# gpui-component interaction core, modelled in Dafny

This project models the stateful core of several gpui-component widgets and
proves properties about them:

- **Command palette.** Covers:
  - the item and match value types and their builders;
  - the two built-in matchers (nucleo and skim), including how each combines
    title, subtitle, keyword and category scores;
  - the conversion of matched character indices to UTF-8 byte ranges;
  - the palette state: query, query id, provider results, ranking, truncation
    and selection;
  - the view's highlighted-title rendering and event forwarding.
- **Global state.** The stacks of blur, reduced-motion and floating-inset
  settings that scopes push and pop.
- **Popover.** The open/closing state machine, its close timer, and the
  render plan.
- **Context menu.** The shared state of a right-click menu, from the click
  through the deferred build and the dismiss to the close timer.
- **Accordion.** The open-index bookkeeping of an accordion group, and the
  ids of its animations.
- **Sidebar menu.** Builders, the recursive suffix search, the row flags and
  the per-item open state.

Files:

| file | module | content |
|---|---|---|
| `wrappers.dfy` | `Wrappers` | `Option`, `Min`, and the `u64` wrapping increment |
| `utf8.dfy` | `Utf8` | UTF-8 widths, encoding, byte offsets and char boundaries |
| `palette_types.dfy` | `PaletteTypes` | items, matches, matched items, config |
| `ranking.dfy` | `Ranking` | the score-then-title order and a stable insertion sort, with its stability proved |
| `matcher.dfy` | `Matcher` | index-to-range conversion and the two item matchers |
| `palette_state.dfy` | `PaletteState` | `CommandPaletteState` and the match pipeline |
| `palette_view.dfy` | `PaletteView` | highlighted rendering and `CommandPaletteView` |
| `global_state.dfy` | `ContextStacks` | `GlobalState` |
| `popover.dfy` | `Popover` | `PopoverState` and the render plan |
| `context_menu.dfy` | `ContextMenu` | `ContextMenuSharedState` |
| `accordion.dfy` | `Accordion` | the accordion group |
| `sidebar_menu.dfy` | `SidebarMenu` | sidebar menu and its items |

How the source is represented:

- **Stateful objects become classes.** `CommandPaletteState`,
  `CommandPaletteView`, `GlobalState`, `PopoverState`,
  `ContextMenuSharedState`, the accordion's open set and a sidebar item's open
  state are classes whose methods update their fields.
- **Methods are proved against functions.** Each method is proved against a
  specification function on values: `Displayed`, `SetOpenOutcome`,
  `Dismissed`, `Toggled` and so on.
- **Properties over event sequences are lemmas.** Stale timers, stale query
  results and round-trips are proved as lemmas about those functions.
- **Loops stay loops.** The source's loops are methods with loop invariants:
  - `indices_to_ranges`;
  - the async merge in `update_matches`;
  - `render_highlighted_text`;
  - the accordion's initial open set.
- **Integers.** `u64` counters wrap explicitly, modulo 2^64. The accordion's
  animation ids are `bv64`.
- **Panics.** A `str` slice that would panic makes `RenderHighlightedText`
  return `None`.
- **Time.** The clock and the timers are parameters.
- **Engines.** The fuzzy engines are function parameters.

## Model

| member | source | states |
|---|---|---|
| `Wrappers.WrappingInc` | crates/ui/src/command_palette/state.rs:116 | `fetch_add(1) + 1` on a `u64` is the successor modulo 2^64 and stays below 2^64 |
| `Wrappers.WrappingIncMoves` | crates/ui/src/popover.rs:252 | a wrapping increment never returns the value it started from |
| `Wrappers.WrappingIncAfter` | crates/ui/src/popover.rs:252 | after fewer than 2^64 − 1 further increments, a counter never comes back to its starting value |
| `Utf8.Width` | crates/ui/src/command_palette/matcher.rs:206-247 | a char takes 1 to 4 bytes, and 1 exactly when it is ASCII |
| `Utf8.ByteLen` | crates/ui/src/command_palette/state.rs:124-127 | `str::len` counts bytes: at least the char count and at most four times it |
| `Utf8.EncodeChar` | crates/ui/src/command_palette/matcher.rs:206-247 | a char's encoding has its width, and its first byte is never a continuation byte |
| `Utf8.Encode` | crates/ui/src/command_palette/matcher.rs:206-247 | a string's bytes number `ByteLen` |
| `Utf8.ByteOffset` | crates/ui/src/command_palette/matcher.rs:212-222 | the byte offset of char `i` lies between `i` and the byte length |
| `Utf8.EncodeAppend` | crates/ui/src/command_palette/matcher.rs:206-247 | encoding and byte length distribute over concatenation |
| `Utf8.ByteOffsetStrictlyMonotone` | crates/ui/src/command_palette/matcher.rs:212-222 | byte offsets grow by each char's width, so strictly |
| `Utf8.ByteOffsetAtEnd` | crates/ui/src/command_palette/matcher.rs:212-222 | the offset past the last char is the byte length |
| `Utf8.EncodeSlice` | crates/ui/src/command_palette/matcher.rs:206-247 | the bytes between the offsets of chars `i` and `j` encode exactly `s[i..j]` |
| `Utf8.ByteOffsetIsCharBoundary` | crates/ui/src/command_palette/matcher.rs:206-247 | every char's byte offset is a char boundary of the encoding |
| `PaletteTypes.NewItem` | crates/ui/src/command_palette/types.rs:95-107 | a new item has its id and title and every optional field empty |
| `PaletteTypes.Item.WithSubtitle` | crates/ui/src/command_palette/types.rs:110-114 | sets the subtitle and changes nothing else |
| `PaletteTypes.Item.WithCategory` | crates/ui/src/command_palette/types.rs:116-120 | sets the category and changes nothing else |
| `PaletteTypes.Item.WithIcon` | crates/ui/src/command_palette/types.rs:122-126 | sets the icon and changes nothing else |
| `PaletteTypes.Item.WithShortcut` | crates/ui/src/command_palette/types.rs:128-132 | sets the shortcut and changes nothing else |
| `PaletteTypes.Item.WithKeyword` | crates/ui/src/command_palette/types.rs:134-138 | appends one keyword after the existing ones; nothing else changes |
| `PaletteTypes.Item.WithKeywords` | crates/ui/src/command_palette/types.rs:140-144 | appends the keywords, in order, after the existing ones |
| `PaletteTypes.WithKeywordsIsRepeatedWithKeyword` | crates/ui/src/command_palette/types.rs:134-144 | `keywords(ks)` equals calling `keyword` once per element of `ks` |
| `PaletteTypes.Item.WithDisabled` | crates/ui/src/command_palette/types.rs:146-150 | sets the disabled flag and changes nothing else |
| `PaletteTypes.Item.WithPayload` | crates/ui/src/command_palette/types.rs:152-155 | sets the payload and changes nothing else |
| `PaletteTypes.NewMatch` | crates/ui/src/command_palette/types.rs:170-177 | a match with the score and no ranges |
| `PaletteTypes.Match.WithTitleRanges` | crates/ui/src/command_palette/types.rs:180-183 | replaces the title ranges and keeps the rest |
| `PaletteTypes.Match.WithSubtitleRanges` | crates/ui/src/command_palette/types.rs:186-189 | replaces the subtitle ranges and keeps the rest |
| `PaletteTypes.NewMatchedItem` | crates/ui/src/command_palette/types.rs:207-210 | pairs the item with its match |
| `PaletteTypes.DefaultConfig` | crates/ui/src/command_palette/types.rs:35-55 | the default config: 50 results, nucleo, the platform's shortcut, the default texts and sizes |
| `Ranking.LexLtIrreflexive` | crates/ui/src/command_palette/state.rs:219-232 | the title order used as a tie-break is irreflexive |
| `Ranking.LexLtTransitive` | crates/ui/src/command_palette/state.rs:219-232 | and transitive |
| `Ranking.LexLtTotal` | crates/ui/src/command_palette/state.rs:219-232 | and total and asymmetric, so `cmp` on titles is a total order |
| `Ranking.RankLeTransitive` | crates/ui/src/command_palette/state.rs:219-232 | higher score first, then title, is a transitive order |
| `Ranking.BeforeAsymmetric` | crates/ui/src/command_palette/state.rs:219-232 | an item strictly before another also ranks no later |
| `Ranking.Insert` | crates/ui/src/command_palette/state.rs:219-232 | inserting adds exactly that element |
| `Ranking.SortByRank` | crates/ui/src/command_palette/state.rs:219-232 | the sort is a permutation of its input |
| `Ranking.InsertSorted` | crates/ui/src/command_palette/state.rs:219-232 | inserting into a sorted list keeps it sorted |
| `Ranking.SortByRankSorted` | crates/ui/src/command_palette/state.rs:219-232 | the sort's result is sorted by score descending, then title |
| `Ranking.WithKeySnoc` | crates/ui/src/command_palette/state.rs:219-232 | one more element adds itself to its own class only |
| `Ranking.BeforeKeysDiffer` | crates/ui/src/command_palette/state.rs:219-232 | an item listed strictly before another never has the same score and title |
| `Ranking.InsertWithKey` | crates/ui/src/command_palette/state.rs:219-232 | insertion keeps the order inside every class of equal score and title, and puts the new item last in its own |
| `Ranking.SortByRankStable` | crates/ui/src/command_palette/state.rs:219-232 | `sort_by` is stable: items with equal score and title come out in their input order |
| `Ranking.SameKeyIffUnordered` | crates/ui/src/command_palette/state.rs:219-232 | equal score and title is exactly "neither is listed before the other", the comparator's `Equal` |
| `Matcher.IndicesToRangesUsize` | crates/ui/src/command_palette/matcher.rs:253-291 | the loop computes `ByteRanges`: runs of consecutive char indices turned into byte ranges; no indices give no ranges |
| `Matcher.CharOffsets` | crates/ui/src/command_palette/matcher.rs:212-222 | the char-to-byte table holds each char's byte offset |
| `Matcher.MergeRuns` | crates/ui/src/command_palette/matcher.rs:224-238 | merging consecutive indices yields exactly `CharRuns` |
| `Matcher.MergeAfterRuns` | crates/ui/src/command_palette/matcher.rs:224-238 | after `k` indices, the finished runs plus the runs of the rest are all the runs |
| `Matcher.RunsToByteRanges` | crates/ui/src/command_palette/matcher.rs:240-246 | converting the runs with the offset table yields `ByteRangesOf` |
| `Matcher.IndicesToRanges` | crates/ui/src/command_palette/matcher.rs:206-247 | the `u32` variant computes the same ranges as the `usize` one on the widened indices |
| `Matcher.Widen` | crates/ui/src/command_palette/matcher.rs:206 | widening keeps every index |
| `Matcher.RunsFromShape` | crates/ui/src/command_palette/matcher.rs:224-238 | the runs are non-empty, increasing, within the indices' span and separated by gaps |
| `Matcher.RunsFromCover` | crates/ui/src/command_palette/matcher.rs:224-238 | a char lies in a run exactly when it is one of the indices |
| `Matcher.CharRunsShape` | crates/ui/src/command_palette/matcher.rs:224-238 | for strictly increasing indices: no runs iff no indices; runs lie within the first and last index and are separated |
| `Matcher.CharRunsCover` | crates/ui/src/command_palette/matcher.rs:224-238 | for strictly increasing indices, char `c` is covered iff `c` is an index |
| `Matcher.ByteRangesOfInBounds` | crates/ui/src/command_palette/matcher.rs:240-246 | runs inside the text each become one range from the start char's offset to the end char's offset |
| `Matcher.RunsOfValidIndices` | crates/ui/src/command_palette/matcher.rs:253-291 | for valid indices, one byte range per run, each between the runs' char offsets |
| `Matcher.ByteRangesShape` | crates/ui/src/command_palette/matcher.rs:253-291 | for valid indices, the ranges are sorted, disjoint, within the byte length and on char boundaries; none iff no indices |
| `Matcher.ByteRangesCover` | crates/ui/src/command_palette/matcher.rs:253-291 | a char is highlighted by some range exactly when its index was matched |
| `Matcher.RunCoversChar` | crates/ui/src/command_palette/matcher.rs:240-246 | a char inside a run lies inside the run's byte range |
| `Matcher.CoveredCharInRun` | crates/ui/src/command_palette/matcher.rs:240-246 | and a char whose bytes lie in the run's byte range is inside the run |
| `Matcher.MatchText` | crates/ui/src/command_palette/matcher.rs:20-40 | empty query: score 0, no ranges; otherwise a match exactly when the engine matches, with its score and its indices converted to byte ranges |
| `Matcher.BestScore` | crates/ui/src/command_palette/matcher.rs:59-63 | `max_by_key` over the keyword matches: none iff no keyword matched, else the largest score among them |
| `Matcher.KeywordMatches` | crates/ui/src/command_palette/matcher.rs:59-63 | one text match per keyword, in order |
| `Matcher.TruncDiv10` | crates/ui/src/command_palette/matcher.rs:93-98 | `score / 10` truncates toward zero, for negative scores too |
| `Matcher.BestBoosted` | crates/ui/src/command_palette/matcher.rs:73-91 | the best score is the largest of title+1000, subtitle+500 and keyword+200 among the fields that matched; none iff none matched |
| `Matcher.Combine` | crates/ui/src/command_palette/matcher.rs:67-105 | no match iff title, subtitle and keywords all miss; score is the best boosted score plus a tenth of the category score; title ranges from the title; subtitle ranges only when the subtitle won |
| `Matcher.MatchItemWith` | crates/ui/src/command_palette/matcher.rs:44-106 | an empty query matches every item with score 0 and no ranges |
| `Matcher.NucleoMatchItem` | crates/ui/src/command_palette/matcher.rs:44-106 | the nucleo matcher: an empty query matches every item with score 0 |
| `Matcher.FuzzyMatchItem` | crates/ui/src/command_palette/matcher.rs:148-200 | the skim matcher: an empty query matches every item with score 0 |
| `Matcher.MatchItem` | crates/ui/src/command_palette/state.rs:320-330 | the configured kind picks nucleo, skim or the custom matcher |
| `Matcher.MatchesIffSomeFieldMatches` | crates/ui/src/command_palette/matcher.rs:44-106 | a non-empty query matches an item iff its title, subtitle or some keyword matches |
| `Matcher.CategoryAloneDoesNotMatch` | crates/ui/src/command_palette/matcher.rs:93-98 | a category match alone never makes the item match |
| `Matcher.FuzzyIgnoresCategory` | crates/ui/src/command_palette/matcher.rs:148-200 | the skim matcher's result does not depend on the category |
| `Matcher.TitleOutranksSubtitleOnly` | crates/ui/src/command_palette/matcher.rs:170-181 | a title hit outranks a subtitle-only hit of no higher raw score |
| `Matcher.TitleRangesWellFormed` | crates/ui/src/command_palette/matcher.rs:73-76 | for valid title indices, the match's title ranges are sorted, disjoint and within the title |
| `PaletteState.Position` | crates/ui/src/command_palette/state.rs:186-192 | the first position holding the id, or none iff no item has it |
| `PaletteState.IdsOf` | crates/ui/src/command_palette/state.rs:201-217 | an id is a static id iff some static item has it |
| `PaletteState.EnumerationOf` | crates/ui/src/command_palette/state.rs:182-199 | every set of keys has an enumeration without repeats, standing for the `HashMap`'s iteration order |
| `PaletteState.Overlay` | crates/ui/src/command_palette/state.rs:182-199 | overlaying keeps the static list's length |
| `PaletteState.MatchAll` | crates/ui/src/command_palette/state.rs:201-217 | filtering by the matcher keeps at most the candidates |
| `PaletteState.MatchAllSpec` | crates/ui/src/command_palette/state.rs:201-217 | an item is kept, with its match, exactly when the matcher accepts it |
| `PaletteState.MatchAllAcceptingAll` | crates/ui/src/command_palette/state.rs:201-217 | a matcher accepting everything keeps every item, in order |
| `PaletteState.Truncate` | crates/ui/src/command_palette/state.rs:234-253 | statics take `min(statics, max)` slots, async results the rest up to `max`; selection resets to the first row or none |
| `PaletteState.TruncateItems` | crates/ui/src/command_palette/state.rs:234-246 | the shown list is a prefix of the statics followed by a prefix of the async results |
| `PaletteState.TruncatePositions` | crates/ui/src/command_palette/state.rs:234-246 | row `k` is static row `k`, or async row `k − staticLen` |
| `PaletteState.TruncateSortedParts` | crates/ui/src/command_palette/state.rs:219-246 | truncating sorted lists keeps both parts sorted and the kept statics rank no worse than the dropped ones |
| `PaletteState.Displayed` | crates/ui/src/command_palette/state.rs:174-256 | a one-byte query shows nothing; otherwise at most `max_results` rows with statics first and selection on the first row |
| `PaletteState.RemainingDelay` | crates/ui/src/command_palette/state.rs:129-132 | the delay is positive iff the reveal deadline lies ahead, and then ends at the deadline |
| `PaletteState.NextIndex` | crates/ui/src/command_palette/state.rs:273-285 | the next index is in range |
| `PaletteState.PrevIndex` | crates/ui/src/command_palette/state.rs:259-270 | the previous index is in range |
| `PaletteState.NextPrevInverse` | crates/ui/src/command_palette/state.rs:259-285 | next and previous undo each other |
| `PaletteState.NextTimesAdd` | crates/ui/src/command_palette/state.rs:273-285 | `a` then `b` presses of select-next equal `a + b` presses |
| `PaletteState.NextTimesNoWrap` | crates/ui/src/command_palette/state.rs:273-285 | before the end, `k` presses move down `k` rows |
| `PaletteState.NextTimesCycle` | crates/ui/src/command_palette/state.rs:273-285 | `n` presses on `n` rows come back to the start |
| `PaletteState.MergeAsyncItems` | crates/ui/src/command_palette/state.rs:182-199 | the merge loop computes the overlaid statics and the async-only items in the map's iteration order |
| `PaletteState.OverlayStep` | crates/ui/src/command_palette/state.rs:187-194 | one async item replaces the first static item with its id, if any |
| `PaletteState.OverlayDone` | crates/ui/src/command_palette/state.rs:182-199 | after every key, the list equals `Overlay` |
| `PaletteState.OverlayAt` | crates/ui/src/command_palette/state.rs:187-194 | row `i` is replaced iff its id has an async item and `i` is that id's first position |
| `PaletteState.OverlaySpec` | crates/ui/src/command_palette/state.rs:182-199 | overlaying keeps every id; the first static with an async id takes the async item; statics without one are kept |
| `PaletteState.PositionSnoc` | crates/ui/src/command_palette/state.rs:186-192 | appending an item only adds a position for a new id |
| `PaletteState.AsyncOnlySnoc` | crates/ui/src/command_palette/state.rs:195-197 | one more key adds its item iff it is async-only |
| `PaletteState.AsyncOnlySpec` | crates/ui/src/command_palette/state.rs:195-199 | the async-only list holds exactly the async items whose id no static item has |
| `PaletteState.EnumerationStep` | crates/ui/src/command_palette/state.rs:182-199 | visiting one more key extends the enumeration |
| `PaletteState.RankMatches` | crates/ui/src/command_palette/state.rs:201-232 | filtering then sorting computes `Ranked` of `MatchAll` |
| `PaletteState.TruncateMatches` | crates/ui/src/command_palette/state.rs:234-246 | the truncation code computes `Truncate` |
| `PaletteState.ComputeMatches` | crates/ui/src/command_palette/state.rs:182-253 | the whole pipeline shows `Displayed` for some iteration order of the async map: at most `max_results` rows, statics first, none for a one-byte query |
| `PaletteState.CollectById` | crates/ui/src/command_palette/state.rs:160-167 | collecting provider results by id gives `ItemsById`, whose keys are the items' ids |
| `PaletteState.ItemsByIdKeys` | crates/ui/src/command_palette/state.rs:160-167 | the map's keys are exactly the results' ids, each mapped to an item with that id |
| `PaletteState.ItemsByIdLastWins` | crates/ui/src/command_palette/state.rs:160-167 | for duplicate ids the last result wins |
| `PaletteState.SamePosition` | crates/ui/src/command_palette/state.rs:182-199 | positions depend only on the ids |
| `PaletteState.RankedLength` | crates/ui/src/command_palette/state.rs:219-232 | ranking keeps the length |
| `PaletteState.RankedFacts` | crates/ui/src/command_palette/state.rs:219-232 | ranking is a permutation; an empty query keeps the order, any other sorts |
| `PaletteState.RankedMember` | crates/ui/src/command_palette/state.rs:219-232 | every ranked row is one of the matches |
| `PaletteState.DisplayedParts` | crates/ui/src/command_palette/state.rs:201-246 | the rows are the truncation of the ranked static and async matches |
| `PaletteState.StaticMatchesComeFirst` | crates/ui/src/command_palette/state.rs:234-246 | `min(static matches, max)` statics are shown first, then async results up to `max` rows |
| `PaletteState.ShownStaticIsTopRanked` | crates/ui/src/command_palette/state.rs:219-246 | for a non-empty query the shown statics are the best-ranked static matches, both parts are sorted, and the dropped statics rank no better |
| `PaletteState.ShownItemsMatch` | crates/ui/src/command_palette/state.rs:201-217 | every shown row carries the matcher's own result for a candidate item |
| `PaletteState.TruncatedRankedMember` | crates/ui/src/command_palette/state.rs:219-246 | every shown row is one of the static or async matches |
| `PaletteState.EmptyQueryKeepsProviderOrder` | crates/ui/src/command_palette/state.rs:219-246 | with the built-in matchers, an empty query shows the statics in the provider's order with score 0 |
| `PaletteState.CommandPaletteState.constructor` | crates/ui/src/command_palette/state.rs:61-105 | empty query, id 0, no async items, a reveal deadline unless motion is reduced, initial matches shown |
| `PaletteState.CommandPaletteState.UpdateMatches` | crates/ui/src/command_palette/state.rs:174-256 | recomputes the shown rows as `Displayed` and selects the first row, if any |
| `PaletteState.CommandPaletteState.SetQuery` | crates/ui/src/command_palette/state.rs:108-171 | an unchanged query does nothing; otherwise the query is set, the id wraps forward, async items are cleared, the rows are recomputed and the selection is reset to the first row (none when there are no rows); a provider query starts iff the query has at least 2 bytes, after the remaining reveal delay |
| `PaletteState.CommandPaletteState.StartProviderQuery` | crates/ui/src/command_palette/state.rs:143-145 | the provider runs only if no newer query has started |
| `PaletteState.CommandPaletteState.FinishProviderQuery` | crates/ui/src/command_palette/state.rs:156-167 | results from a superseded query change nothing; current results replace the async items by id, the rows are recomputed and the selection is reset to the first row |
| `PaletteState.SupersededResultsAreDropped` | crates/ui/src/command_palette/state.rs:138-168 | after two query changes, the first query's late results leave the state valid and exactly as the second change left it: query `q2`, id advanced twice, no async items, selection on the first row |
| `PaletteState.CommandPaletteState.SelectPrev` | crates/ui/src/command_palette/state.rs:259-270 | with rows, moves up and wraps to the last row; without rows, nothing changes |
| `PaletteState.CommandPaletteState.SelectNext` | crates/ui/src/command_palette/state.rs:273-285 | with rows, moves down and wraps to the first row; without rows, nothing changes |
| `PaletteState.CommandPaletteState.SelectIndex` | crates/ui/src/command_palette/state.rs:306-311 | selects an index in range and ignores any other |
| `PaletteState.CommandPaletteState.Confirm` | crates/ui/src/command_palette/state.rs:288-298 | emits `Selected(item)` iff a selected row exists and its item is enabled |
| `PaletteState.CommandPaletteState.Dismiss` | crates/ui/src/command_palette/state.rs:301-303 | always emits `Dismissed` |
| `PaletteState.CommandPaletteState.SelectedItem` | crates/ui/src/command_palette/state.rs:314-316 | the selected row, iff the selection is in range |
| `PaletteView.RenderHighlightedText` | crates/ui/src/command_palette/view.rs:265-307 | fails (the source panics) exactly when a slice would not lie on char boundaries; otherwise the loop computes `HighlightedText`; no ranges render the whole text plain |
| `PaletteView.PanicAt` | crates/ui/src/command_palette/view.rs:281-297 | one range slicing off a char boundary makes the whole call panic |
| `PaletteView.MidCharRangePanics` | crates/ui/src/command_palette/view.rs:288-297 | a range starting inside the two-byte "é" panics |
| `PaletteView.StartPastEndPanics` | crates/ui/src/command_palette/view.rs:281-286 | a range starting past the end of the text panics |
| `PaletteView.BoundaryRangesRenderWithoutPanic` | crates/ui/src/command_palette/view.rs:265-307 | ranges inside the text with starts and ends on char boundaries never panic, in any order |
| `PaletteView.RenderAfter` | crates/ui/src/command_palette/view.rs:279-300 | `last_end` never passes the end of the text |
| `PaletteView.FlattenAppend` | crates/ui/src/command_palette/view.rs:265-307 | the shown bytes of two element lists concatenate |
| `PaletteView.HighlightsAppend` | crates/ui/src/command_palette/view.rs:265-307 | so do their highlighted parts |
| `PaletteView.OrderedStartsInBounds` | crates/ui/src/command_palette/view.rs:281-286 | ordered ranges inside the text never start past its end |
| `PaletteView.FlattenSingle` | crates/ui/src/command_palette/view.rs:265-307 | one element shows its own bytes |
| `PaletteView.StepFlatten` | crates/ui/src/command_palette/view.rs:281-299 | one ordered range shows the text from `last_end` to its end |
| `PaletteView.PrefixStep` | crates/ui/src/command_palette/view.rs:281-299 | one more range extends the shown prefix to the range's end |
| `PaletteView.RenderAfterPrefix` | crates/ui/src/command_palette/view.rs:279-300 | after `k` ordered ranges, the elements show exactly the text up to range `k − 1`'s end |
| `PaletteView.SegmentsReassemble` | crates/ui/src/command_palette/view.rs:265-307 | for ordered ranges, the elements put back together are the title itself |
| `PaletteView.StepHighlights` | crates/ui/src/command_palette/view.rs:288-297 | one range highlights its end-clamped slice when it is non-empty |
| `PaletteView.RenderAfterHighlights` | crates/ui/src/command_palette/view.rs:279-300 | the highlights after `k` ranges are their clamped slices |
| `PaletteView.HighlightsAreClampedSlices` | crates/ui/src/command_palette/view.rs:265-307 | the highlighted elements are the ranges' clamped slices, in order |
| `PaletteView.RenderAfterNonEmpty` | crates/ui/src/command_palette/view.rs:279-300 | the loop never pushes an empty element |
| `PaletteView.NoEmptySegments` | crates/ui/src/command_palette/view.rs:265-307 | with ranges, no rendered element is empty |
| `PaletteView.SlicesOfInBoundsRanges` | crates/ui/src/command_palette/view.rs:288-297 | non-empty ranges inside the text are highlighted unclamped, one each |
| `PaletteView.MatchedTitleRenders` | crates/ui/src/command_palette/matcher.rs:253-291 | a title's matched ranges are sorted, disjoint and on char boundaries, so rendering them never panics; they render back to the title with exactly the matched slices highlighted |
| `PaletteView.CommandPaletteView.constructor` | crates/ui/src/command_palette/view.rs:57-86 | the view wraps the state, with the dialog open and nothing forwarded |
| `PaletteView.CommandPaletteView.OnStateEvent` | crates/ui/src/command_palette/view.rs:111-126 | either event closes the dialog and is forwarded |
| `PaletteView.CommandPaletteView.OnInputChange` | crates/ui/src/command_palette/view.rs:95-100 | an unchanged value does nothing; a changed one becomes the query, advances the id, clears the async items and resets the selection to the first row; a provider query starts iff it changed and has at least 2 bytes |
| `PaletteView.CommandPaletteView.OnConfirm` | crates/ui/src/command_palette/view.rs:101-105 | confirming forwards `Selected` and closes the dialog iff an enabled row is selected; otherwise nothing changes |
| `PaletteView.CommandPaletteView.OnCancel` | crates/ui/src/command_palette/view.rs:128-132 | escape forwards `Dismissed` and closes the dialog |
| `PaletteView.CommandPaletteView.OnSelectUp` | crates/ui/src/command_palette/view.rs:140-145 | moves the selection to the previous row |
| `PaletteView.CommandPaletteView.OnSelectDown` | crates/ui/src/command_palette/view.rs:147-152 | moves the selection to the next row |
| `PaletteView.CommandPaletteView.OnRowMouseDown` | crates/ui/src/command_palette/view.rs:197-208 | a row rendered disabled has no handler; otherwise the press selects the rendered index if it is still in range, then confirms whatever is selected, forwarding `Selected` and closing iff that row is enabled; for an in-range enabled row that is the row's own item |
| `ContextStacks.Top` | crates/ui/src/global_state.rs:44-46 | a stack's value is its last element, or the default when it is empty |
| `ContextStacks.Pop` | crates/ui/src/global_state.rs:54-58 | popping drops the last element but never the base |
| `ContextStacks.SetBase` | crates/ui/src/global_state.rs:62-66 | setting replaces only the base value |
| `ContextStacks.Pops` | crates/ui/src/global_state.rs:54-58 | repeated pops never lengthen the stack |
| `ContextStacks.TopAfterPush` | crates/ui/src/global_state.rs:49-51 | a pushed value is what readers see |
| `ContextStacks.PopAfterPush` | crates/ui/src/global_state.rs:49-58 | pop undoes push |
| `ContextStacks.PopKeepsBase` | crates/ui/src/global_state.rs:54-58 | a pop keeps the base value |
| `ContextStacks.PopsKeepBase` | crates/ui/src/global_state.rs:54-58 | however many pops run, the base value survives |
| `ContextStacks.SetBaseKeepsPushed` | crates/ui/src/global_state.rs:62-66 | setting the base does not change a pushed override |
| `ContextStacks.SetBaseOnBaseOnly` | crates/ui/src/global_state.rs:62-66 | with nothing pushed, setting changes what readers see |
| `ContextStacks.GlobalState.constructor` | crates/ui/src/global_state.rs:22-29 | blur on, motion not reduced, inset 4 px, no text view |
| `ContextStacks.GlobalState.TextViewState` | crates/ui/src/global_state.rs:39-41 | the last text view state, if any |
| `ContextStacks.GlobalState.BlurEnabled` | crates/ui/src/global_state.rs:44-46 | the top of the blur stack, defaulting to on |
| `ContextStacks.GlobalState.ReducedMotion` | crates/ui/src/global_state.rs:70-72 | the top of the reduced-motion stack, defaulting to off |
| `ContextStacks.GlobalState.FloatingInset` | crates/ui/src/global_state.rs:95-97 | the top of the inset stack, defaulting to 4 px |
| `ContextStacks.GlobalState.PushBlurEnabled` | crates/ui/src/global_state.rs:49-51 | pushes the value, which readers now see |
| `ContextStacks.GlobalState.PopBlurEnabled` | crates/ui/src/global_state.rs:54-58 | pops unless only the base is left |
| `ContextStacks.GlobalState.SetBlurEnabled` | crates/ui/src/global_state.rs:62-66 | replaces the base; a pushed override stays visible |
| `ContextStacks.GlobalState.PushReducedMotion` | crates/ui/src/global_state.rs:75-77 | pushes the value, which readers now see |
| `ContextStacks.GlobalState.PopReducedMotion` | crates/ui/src/global_state.rs:80-84 | pops unless only the base is left |
| `ContextStacks.GlobalState.SetReducedMotion` | crates/ui/src/global_state.rs:88-92 | replaces the base; a pushed override stays visible |
| `ContextStacks.GlobalState.PushFloatingInset` | crates/ui/src/global_state.rs:100-102 | pushes the inset, which readers now see |
| `ContextStacks.GlobalState.PopFloatingInset` | crates/ui/src/global_state.rs:105-109 | pops unless only the base is left |
| `ContextStacks.BlurScope` | crates/ui/src/global_state.rs:49-58 | a push/pop scope shows its value inside and leaves the stack as it found it |
| `ContextStacks.ReducedMotionScope` | crates/ui/src/global_state.rs:75-84 | a push/pop scope shows its value inside and leaves the stack as it found it |
| `ContextStacks.FloatingInsetScope` | crates/ui/src/global_state.rs:100-109 | a push/pop scope shows its value inside and leaves the stack as it found it |
| `Popover.SetOpenOutcome` | crates/ui/src/popover.rs:249-310 | takes effect iff it changes something. Opening cancels a pending close and bumps the id. Closing with animation bumps the id and schedules a timer for it. Closing with reduced motion ends at once |
| `Popover.FireTimer` | crates/ui/src/popover.rs:289-302 | a timer ends the closing phase only if it carries the current id |
| `Popover.Run` | crates/ui/src/popover.rs:249-310 | every sequence of `set_open` calls keeps the phase valid |
| `Popover.Advanced` | crates/ui/src/popover.rs:252 | the id advances at most once per call |
| `Popover.StepCounts` | crates/ui/src/popover.rs:249-310 | one call advances the id by one exactly when it bumps it; a call that does not bump it and leaves the popover closing changes nothing |
| `Popover.RunCounts` | crates/ui/src/popover.rs:249-310 | after a sequence of calls the id has moved by the number of bumps, modulo 2^64 |
| `Popover.StaleTimerIsIgnored` | crates/ui/src/popover.rs:289-302 | once the phase has changed, a timer scheduled before the change is ignored |
| `Popover.LatestTimerEndsClosing` | crates/ui/src/popover.rs:276-302 | the timer of an animated close ends the closing phase |
| `Popover.MouseUpAlwaysTakesEffect` | crates/ui/src/popover.rs:365-377 | a trigger click flips the rendered open state |
| `Popover.SetOpenIdempotent` | crates/ui/src/popover.rs:249-256 | repeating a `set_open` does nothing, except re-closing while closing |
| `Popover.RenderPlan` | crates/ui/src/popover.rs:340-465 | nothing without a trigger. The trigger shows open while open or closing. Content is present while open or closing, with the close or open animation unless motion is reduced, dismissed by an outside mouse-up when overlay-closable |
| `Popover.PopoverState.Current` | crates/ui/src/popover.rs:205-211 | the state's phase fields |
| `Popover.PopoverState.constructor` | crates/ui/src/popover.rs:213-224 | open as `default_open`, not closing, id 0, no change handler |
| `Popover.PopoverState.IsOpen` | crates/ui/src/popover.rs:227-229 | whether the popover is open |
| `Popover.PopoverState.SetOpen` | crates/ui/src/popover.rs:249-310 | the new phase and timer are `SetOpenOutcome`'s; the change handler sees the new state iff the call took effect |
| `Popover.PopoverState.Dismiss` | crates/ui/src/popover.rs:232-236 | closes an open popover, telling the change handler `false`; does nothing otherwise |
| `Popover.PopoverState.Show` | crates/ui/src/popover.rs:239-243 | opens a closed popover, telling the change handler `true`; does nothing to an open one |
| `Popover.PopoverState.ToggleOpen` | crates/ui/src/popover.rs:245-247 | sets the negation of `open`, with `SetOpenOutcome`'s phase and timer; the change handler sees the new state iff the call took effect |
| `Popover.PopoverState.CloseTimerFired` | crates/ui/src/popover.rs:289-302 | applies `FireTimer` |
| `Popover.Render` | crates/ui/src/popover.rs:332-352 | a controlled `open` overrides the state, the handler is installed, and the element follows `RenderPlan` |
| `Popover.OnTriggerMouseUp` | crates/ui/src/popover.rs:365-377 | the click sets the negation of the rendered open flag, starts `SetOpenOutcome`'s timer, and always tells the change handler |
| `ContextMenu.RightClick` | crates/ui/src/menu/context_menu.rs:319-334 | a right click forgets the old menu, records the position, opens and bumps the id |
| `ContextMenu.Built` | crates/ui/src/menu/context_menu.rs:392-397 | the deferred build stores the menu and subscribes to it; nothing else changes |
| `ContextMenu.Dismissed` | crates/ui/src/menu/context_menu.rs:337-387 | a dismiss from another menu does nothing. From the current menu it closes and bumps the id; with reduced motion the menu is dropped at once, otherwise it keeps closing and a timer is scheduled |
| `ContextMenu.TimerFired` | crates/ui/src/menu/context_menu.rs:374-387 | only the current id's timer ends the closing phase and drops the menu |
| `ContextMenu.MenuElementOf` | crates/ui/src/menu/context_menu.rs:166-256 | the menu is drawn iff open or closing with a non-empty built menu; it sits at the click position with the open or close animation unless motion is reduced |
| `ContextMenu.Step` | crates/ui/src/menu/context_menu.rs:319-399 | every event keeps the state valid |
| `ContextMenu.Run` | crates/ui/src/menu/context_menu.rs:319-399 | every event sequence keeps the state valid |
| `ContextMenu.Advanced` | crates/ui/src/menu/context_menu.rs:319-387 | the id advances at most once per event |
| `ContextMenu.StepCounts` | crates/ui/src/menu/context_menu.rs:319-387 | one event advances the id by one exactly when it bumps it; an event that does not bump it never starts a closing phase |
| `ContextMenu.RunCounts` | crates/ui/src/menu/context_menu.rs:319-387 | after a sequence of events the id has moved by the number of bumps, modulo 2^64 |
| `ContextMenu.StaleTimerIsIgnored` | crates/ui/src/menu/context_menu.rs:374-387 | once the id has moved, an earlier timer is ignored |
| `ContextMenu.RightClickThenBuild` | crates/ui/src/menu/context_menu.rs:319-399 | nothing is drawn between the click and the build; afterwards the built menu is drawn at the click position iff it has items |
| `ContextMenu.DismissLifecycle` | crates/ui/src/menu/context_menu.rs:356-370 | a reduced-motion dismiss removes the menu at once; an animated one keeps it drawn with the close animation and schedules a timer |
| `ContextMenu.ContextMenuSharedState.Current` | crates/ui/src/menu/context_menu.rs:110-117 | the state's fields |
| `ContextMenu.ContextMenuSharedState.constructor` | crates/ui/src/menu/context_menu.rs:124-138 | the default state: no menu, closed, id 0, at the origin |
| `ContextMenu.ContextMenuSharedState.OnMouseDown` | crates/ui/src/menu/context_menu.rs:319-334 | a right press in the bubble phase over the element applies `RightClick`; any other press changes nothing |
| `ContextMenu.ContextMenuSharedState.OnMenuBuilt` | crates/ui/src/menu/context_menu.rs:392-397 | applies `Built` |
| `ContextMenu.ContextMenuSharedState.OnDismiss` | crates/ui/src/menu/context_menu.rs:350-387 | applies `Dismissed` |
| `ContextMenu.ContextMenuSharedState.OnCloseTimer` | crates/ui/src/menu/context_menu.rs:374-387 | applies `TimerFired` |
| `Accordion.OpenIndices` | crates/ui/src/accordion.rs:103-118 | an index is open iff its item was built open |
| `Accordion.Toggled` | crates/ui/src/accordion.rs:129-142 | the item is open afterwards iff it asked to be. Closing, or opening in multiple mode, leaves the others alone. Opening in single mode leaves only that item |
| `Accordion.SingleModeOpensOne` | crates/ui/src/accordion.rs:129-142 | in single mode, opening leaves exactly that item open |
| `Accordion.SingleModeKeepsAtMostOne` | crates/ui/src/accordion.rs:129-142 | in single mode, at most one item stays open |
| `Accordion.OpenThenCloseRestores` | crates/ui/src/accordion.rs:129-142 | in multiple mode, opening then closing an item restores the set |
| `Accordion.ToggleIdempotent` | crates/ui/src/accordion.rs:129-142 | closing twice, or opening twice in multiple mode, is the same as once |
| `Accordion.RenderItem` | crates/ui/src/accordion.rs:120-128 | a row takes the accordion's index and disabled flag; chevron and toggle click exist iff enabled; the click asks for the negation of `open` |
| `Accordion.AccordionGroup.constructor` | crates/ui/src/accordion.rs:115-118 | the open set starts as the items built open |
| `Accordion.AccordionGroup.OnToggle` | crates/ui/src/accordion.rs:129-142 | applies `Toggled` |
| `Accordion.AccordionGroup.OnRowClick` | crates/ui/src/accordion.rs:366-377 | on an enabled accordion the item toggles, and the group callback, if any, receives the new set; a disabled accordion changes nothing |
| `Accordion.AccordionGroup.OnGroupClick` | crates/ui/src/accordion.rs:145-155 | the callback receives the open set iff it exists and the accordion is enabled |
| `Accordion.AnimationId` | crates/ui/src/accordion.rs:298-302 | the id's low bit is the entering flag |
| `Accordion.AnimationIdDecodes` | crates/ui/src/accordion.rs:405-415 | below 2^63 the id decodes back to index and phase |
| `Accordion.AnimationIdInjective` | crates/ui/src/accordion.rs:405-415 | so distinct rows and phases get distinct ids |
| `SidebarMenu.NewItem` | crates/ui/src/sidebar/menu.rs:228-242 | a new item has its text and nothing else set |
| `SidebarMenu.WithChildren` | crates/ui/src/sidebar/menu.rs:289-292 | replaces the children and nothing else |
| `SidebarMenu.SubmenuIffChildren` | crates/ui/src/sidebar/menu.rs:312-314 | an item is a submenu exactly when it has children |
| `SidebarMenu.Child` | crates/ui/src/sidebar/menu.rs:157-160 | appends one item |
| `SidebarMenu.Children` | crates/ui/src/sidebar/menu.rs:163-169 | replaces the whole list |
| `SidebarMenu.ChildAll` | crates/ui/src/sidebar/menu.rs:157-160 | appending each item adds one item per element |
| `SidebarMenu.ChildrenReplacesChildAppends` | crates/ui/src/sidebar/menu.rs:157-169 | `children` discards earlier items; `child` appends after them |
| `SidebarMenu.ChildOneByOne` | crates/ui/src/sidebar/menu.rs:157-169 | `child` one by one equals `children` with the list |
| `SidebarMenu.Descendants` | crates/ui/src/sidebar/menu.rs:131-134 | the flattened tree holds every top-level item |
| `SidebarMenu.HasSuffixIffSomeDescendant` | crates/ui/src/sidebar/menu.rs:131-134 | the recursive search finds a suffix iff some item at some depth has one |
| `SidebarMenu.RenderedItems` | crates/ui/src/sidebar/menu.rs:184-200 | each item is rendered with the menu's collapsed flag |
| `SidebarMenu.Flags` | crates/ui/src/sidebar/menu.rs:346-358 | hover iff neither active nor disabled; open iff an expanded submenu whose state is open; a popover iff a collapsed, enabled submenu, overlay-closable and listing the children iff a suffix exists below; row click iff enabled and not a collapsed submenu |
| `SidebarMenu.InlineAndPopoverExclusive` | crates/ui/src/sidebar/menu.rs:346-358 | a row is never both expanded inline and shown as a popover, nor both clickable and a popover trigger |
| `SidebarMenu.ItemOpenState.constructor` | crates/ui/src/sidebar/menu.rs:346-350 | the open state starts as `default_open` |
| `SidebarMenu.ItemOpenState.OnCaretClick` | crates/ui/src/sidebar/menu.rs:464-474 | the caret flips the open state |
| `SidebarMenu.ItemOpenState.OnRowClick` | crates/ui/src/sidebar/menu.rs:481-495 | the handler runs iff the row is clickable; `click_to_open` then opens the submenu and never closes it |

## Left out

- The fuzzy engines are function parameters: the nucleo pattern and the skim scoring algorithm are not modelled. Their results are taken as given, including the order of the matched indices.
- Nucleo's indices may come back unsorted or repeated. The range lemmas (`Matcher.ByteRangesShape`, `PaletteView.MatchedTitleRenders`) require strictly increasing indices inside the text. For other indices, only the loop's result (`Matcher.IndicesToRangesUsize`) is modelled.
- `Wrappers.WrappingInc`: `set_query` wraps the stored id with `fetch_add(1)`, but its `+ 1` on the returned value overflows when the stored id was `u64::MAX`, which panics in a debug build. The model wraps the returned id too, as a release build does.
- Scores are unbounded integers: `i64` overflow in `score + 1000` and the other boosts is not modelled.
- `PaletteState.MatchAll`: its ensures gives only the length bound. What it keeps is stated in `PaletteState.MatchAllSpec`.
- `PaletteState.NextIndex`, `PaletteState.PrevIndex`: the ensures give only the range. The wrap-around behaviour is stated by `NextPrevInverse`, `NextTimesNoWrap` and `NextTimesCycle`.
- `PaletteState.CommandPaletteState.UpdateMatches`: the ensures state the selection reset, plus validity. Validity includes that the shown rows are `Displayed` for the stored iteration order.
- The iteration order of the async `HashMap` is not determined. The model takes any enumeration of its keys, kept as a ghost order.
- The provider task's cancellation on drop, the executor and the reveal clock are not modelled. The current time is a parameter, and the provider call is split into a start and a finish.
- The async threshold is `query.len() < 2`, which counts UTF-8 bytes rather than characters. The model follows the code (`ByteLen`).
- Only the nucleo matcher adds the category bonus. The skim matcher has no category step, which `Matcher.FuzzyIgnoresCategory` states.
- Layout, pixel geometry, themes, scrolling, focus handling, icons and key bindings are not modelled. So are `f32` animation curves and the motion offsets. `Pixels` is a real number.
- Subscriptions are reduced to the id of the entity listened to. Element ids and key prefixes are reduced to their numbers.
- `Popover.Run`: the sequence lemmas cover `set_open` calls only; timer events between calls are not part of a run.
- `Popover.StaleTimerIsIgnored`, `ContextMenu.StaleTimerIsIgnored`: both require fewer than 2^64 − 1 steps, since after 2^64 increments a `u64` id returns to its old value.
- `build_collapsed_submenu` and the `PopupMenu` it builds are not part of this model. Only the choice between the list of children and the popup menu is.
- `Accordion.AccordionGroup.OnRowClick` assumes GPUI's click order: the row's own handler runs before the group's.
- The accordion's render overrides each item's own `disabled` flag with the accordion's. The model keeps this as written: `Accordion.RenderItem` ignores the item's flag.
- `Accordion.AccordionGroup.OnGroupClick`: the callback receives a `Vec` collected from a `HashSet`, in no specified order. The model reports the set, so the order of that list is not captured.
- Animation presence (the `AnimationExt` wrappers) is reduced to the duration and the closing flag.
