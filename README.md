# A verified model of the virtualScroll recycling engine

`VirtualScroll.create` renders a long list of fixed-height items while keeping only a
few of them in the page. The items near the viewport form the materialised *window*,
`firstIndexDisplayed .. lastIndexDisplayed`. Their elements sit in a fixed-length ring
of slots, `elementsArray`, with a cursor, `arrayPointer`. The library reacts to three events:

- **A scroll** either keeps the window, shifts it at one edge, or rebuilds it. A shift
  asks the element factory for the indices just past that edge and recycles the slots
  of the indices that left at the other edge.
- **A data update** may take a new list and a new off-screen margin. It recomputes the
  scroll bound and rebuilds the window.
- **A resize** recomputes the number of visible items and the margin, clears the
  slots, allocates a new buffer and rebuilds the window.

The project has six modules.

- `Wrappers`: the `Option`, `Outcome` and `Result` types.
- `Geometry`: the visible item count, the scroll bound, the scroll clamp and the
  first visible index. The quotients are counted out by recursion and tied to `*`
  and `/` by lemmas.
- `Recycler`: the ring of slots as a value. It covers:
  - the cursor steps;
  - the forward and backward slot writes;
  - clearing;
  - how each write changes the container's children, which are the append, replace
    and remove calls the library makes;
  - where a run of writes puts each element.
- `Tracker`: the window as a value. It covers:
  - the scroll handler's choice between keeping, shifting and rebuilding, and the
    amount of a shift;
  - which indices the factory is asked for;
  - what a shift and a rebuild do to the slots and the window bounds.
- `Engine`: the closure state of `create` as a class `VirtualScroll`. The slot buffer is
  an `array` and the counts and bounds are fields. The closure's functions are its
  methods, and their loops carry invariants. Every method states its new state in
  terms of the `Recycler` and `Tracker` functions. The ghost field `detached` logs every
  element taken out of the container, in order. The ghost field `dropped` keeps the
  slots of every buffer that was replaced without clearing.
- `Alignment`: the arrangement the shifts rely on, namely that the element of index
  `firstIndexDisplayed + k` sits `k` slots after the cursor. The module contains a run
  of scroll events after which the library as written loses a visible item (see
  "Findings"). It also proves that a rebuild which puts the cursor back keeps the
  arrangement after every sequence of scroll events.

`Engine` follows the code as written, including its quirks:

- a rebuild asks the factory for negative indices;
- a rebuild that stops at the list end leaves the cursor where the writes stopped;
- a margin given to `onDataUpdate`, even the current one, drops the old buffer without removing its
  elements, and the following clear only sees the new, empty buffer.

## Model

| member | source | states |
|---|---|---|
| Geometry.CeilDivBounds | virtualScroll.js:25 | `CeilDiv(a, b)` is `Math.ceil(a / b)`: the least multiplier of `b` that reaches `a` |
| Geometry.ContentHeightIsProduct | virtualScroll.js:99 | the container height is the item height times the list length |
| Geometry.DisplayedElements | virtualScroll.js:25 | at least one item is always displayed |
| Geometry.DisplayedElementsBounds | virtualScroll.js:120 | all but one of the displayed items fill the viewport, and one item fewer would not |
| Geometry.DisplayedAtLeastFloor | virtualScroll.js:25 | the visible count is at least one plus the floor of viewport over item height |
| Geometry.MaxScrollTop | virtualScroll.js:101-102 | the scroll bound is never negative; it is the content height less the viewport and one item, or 0 |
| Geometry.ClampScroll | virtualScroll.js:132-134 | the clamped offset lies in `[0, maxScrollTop]`; an offset already in range is kept, and one below or above becomes the nearer end |
| Geometry.FirstVisibleBounds | virtualScroll.js:136 | the named item starts at or above the viewport's top edge and ends below it, for negative offsets too |
| Geometry.FirstVisibleIsFloor | virtualScroll.js:136 | the first visible index is `Math.floor(scrollTop / elementHeight)` |
| Geometry.VisibleRangeCoversViewport | virtualScroll.js:136-137 | the items `firstVisible .. lastVisible` cover every pixel of the viewport |
| Geometry.ScrollToPositionRoundTrip | virtualScroll.js:239-241 | scrolling to item `position` and reading the first visible index back gives `position`, while the offset is within bounds |
| Recycler.NextPointer | virtualScroll.js:209 | the forward step stays in range and is one slot on around the ring |
| Recycler.NextPointerIsRemainder | virtualScroll.js:209 | the forward step is `(arrayPointer + 1) % length` |
| Recycler.PrevPointer | virtualScroll.js:213-214 | the backward step stays in range and is one slot back around the ring, from 0 to the last slot |
| Recycler.PointerStepsInverse | virtualScroll.js:209-214 | a forward step and a backward step undo each other, in either order |
| Recycler.WriteAfter | virtualScroll.js:195-210 | a forward write keeps the buffer length and the cursor in range |
| Recycler.WriteBefore | virtualScroll.js:212-229 | a backward write keeps the buffer length and the cursor in range |
| Recycler.WriteAllAfter | virtualScroll.js:161-164 | a run of forward writes keeps the buffer length and the cursor in range |
| Recycler.WriteAllBefore | virtualScroll.js:166-169 | a run of backward writes keeps the buffer length and the cursor in range |
| Recycler.StoreAttaches | virtualScroll.js:196-208 | giving a slot a value changes the container's children, counted as a multiset, as the library's call does for a new element not yet in the container: the new element replaces the old occupant, is appended to an empty slot, or the old occupant is removed, whatever other children there are |
| Recycler.WriteAfterAttaches | virtualScroll.js:195-210 | a forward write changes the container as `addDataElementAfter` does, at the slot under the cursor |
| Recycler.WriteBeforeAttaches | virtualScroll.js:212-229 | a backward write changes the container as `addDataElementBefore` does, at the slot before the cursor |
| Recycler.ClearSlot | virtualScroll.js:233-235 | clearing one slot empties it and leaves the cursor alone |
| Recycler.ClearedUpTo | virtualScroll.js:232-236 | clearing slot by slot keeps the buffer length and the cursor |
| Recycler.ClearedUpToPrefix | virtualScroll.js:232-236 | after the first `i` slots are cleared, they are empty, the rest are unchanged, and their occupants were detached in slot order |
| Recycler.ClearedEverySlot | virtualScroll.js:231-237 | clearing every slot in turn empties all slots and detaches exactly the occupied slots' elements, in slot order |
| Recycler.RemovedOncePerSlot | virtualScroll.js:231-237 | an element is removed once for each slot holding it; an empty slot causes no removal |
| Recycler.ClearAllDetachesOncePerSlot | virtualScroll.js:231-237 | the part of the detach log that clearing appends has one entry per occupied slot, and holds each element as many times as there are slots holding it |
| Recycler.WriteAllAfterPlacement | virtualScroll.js:161-164 | after up to a buffer's worth of forward writes, the `k`-th element is `k` slots after the old cursor, the cursor has moved on by the count, and every other slot is unchanged |
| Recycler.WriteAllBeforePlacement | virtualScroll.js:166-169 | after up to a buffer's worth of backward writes, the `k`-th element is `k + 1` slots before the old cursor, the cursor has moved back by the count, and every other slot is unchanged |
| Recycler.WriteAllAfterIntoEmpty | virtualScroll.js:183-191 | forward writes into empty slots detach nothing |
| Tracker.Decide | virtualScroll.js:149-157 | the window is kept exactly when it covers the visible range; a shift is by a non-zero amount of less than a buffer's worth, backward exactly when the first visible index is before the window; a rebuild happens when the amount reaches a buffer's worth |
| Tracker.MoveCoversVisible | virtualScroll.js:146-181 | whatever the plan, the window keeps its size and covers the visible range afterwards, with half the margin ahead of the visible range, so a repeat of the same event is a no-op |
| Tracker.Ascending | virtualScroll.js:161 | the indices counted upward from a start, one per step |
| Tracker.Descending | virtualScroll.js:166 | the indices counted downward from a start, one per step |
| Tracker.ShiftIndices | virtualScroll.js:159-170 | a shift asks the factory for exactly `abs(toUpdate)` indices, ascending from `lastIndexDisplayed + 1` or descending from `firstIndexDisplayed - 1` |
| Tracker.RebuildIndices | virtualScroll.js:185-189 | a rebuild asks for consecutive indices from the start, at most a buffer's worth, never one at or past the list end, and stops early only at the list end |
| Tracker.ProducedConsecutive | virtualScroll.js:185-189 | the rebuild's `k`-th created element is the factory's result for `from + k` |
| Tracker.ShiftRing | virtualScroll.js:159-170 | a shift keeps the buffer length and the cursor in range |
| Tracker.RebuildRing | virtualScroll.js:183-191 | a rebuild keeps the buffer length and the cursor in range |
| Tracker.RebuildWindow | virtualScroll.js:177-181 | a rebuilt window starts at `from` and spans a buffer's worth of indices |
| Tracker.MoveWindow | virtualScroll.js:146-174 | every move keeps the buffer length and the cursor in range |
| Tracker.MoveWindowCovers | virtualScroll.js:131-174 | after a scroll event the window has its full size and covers the visible range, and a second event at the same offset changes nothing |
| Tracker.RebuildDetachesOldOccupants | virtualScroll.js:183-191 | a rebuild detaches each old occupant exactly once, in slot order, and nothing else |
| Tracker.RebuildPlacement | virtualScroll.js:183-191 | after a rebuild the `k`-th created element is `k` slots after the cursor, the later slots are empty, and the cursor has moved on by the number created |
| Engine.ProducedAt | virtualScroll.js:162 | the `k`-th element a loop creates is `createElement(dataList[pos], pos, dataList)` for the `k`-th index |
| Engine.VirtualScroll.constructor | virtualScroll.js:18-40 | creation with a valid margin sets up the counts, the scroll bound and the scroll offset, then builds the first window from empty slots |
| Engine.Create | virtualScroll.js:18-40 | a negative margin is rejected before the counts and the slot buffer exist; otherwise the list is created valid, with the margin, or 0 when none is given, the viewport height, the scroll bound, the scroll offset pulled to the bound or to 0, and its first window built from empty slots |
| Engine.VirtualScroll.AddDataElementAfter | virtualScroll.js:195-210 | the slot under the cursor takes the element, its old occupant is detached if the slot was occupied, the cursor moves on one slot and stays in range, and no other slot changes |
| Engine.VirtualScroll.AddDataElementBefore | virtualScroll.js:212-229 | the cursor steps back one slot, that slot takes the element, its old occupant is detached if the slot was occupied, and no other slot changes |
| Engine.VirtualScroll.ClearElements | virtualScroll.js:231-237 | every slot ends empty, each occupied slot's element is detached once in slot order, and the cursor is unchanged |
| Engine.VirtualScroll.RefreshAllData | virtualScroll.js:176-193 | the window starts half the margin before the first visible item and spans a buffer's worth; the slots are cleared and then refilled forward from the consecutive indices |
| Engine.VirtualScroll.FillForward | virtualScroll.js:185-191 | the rebuild loop writes forward the factory's results for the rebuild indices, in order |
| Engine.VirtualScroll.PlaceAfter | virtualScroll.js:189-190 | one forward loop step extends the writes so far by the factory's result for the index |
| Engine.VirtualScroll.PlaceBefore | virtualScroll.js:167-168 | one backward loop step extends the writes so far by the factory's result for the index |
| Engine.VirtualScroll.DisplayDataFrom | virtualScroll.js:146-174 | the window and slots move as `MoveWindow` says: unchanged, shifted or rebuilt |
| Engine.VirtualScroll.Shift | virtualScroll.js:159-173 | both bounds move by `toUpdate`, and the slots take the factory's results for the indices past the edge |
| Engine.VirtualScroll.ExtendAfter | virtualScroll.js:160-164 | the upward loop writes forward the factory's results for `count` indices after the window |
| Engine.VirtualScroll.ExtendBefore | virtualScroll.js:165-170 | the downward loop writes backward the factory's results for `count` indices before the window, nearest first |
| Engine.VirtualScroll.OnScrollUpdate | virtualScroll.js:131-144 | the offset is clamped into `[0, maxScrollTop]`, the window moves as `MoveWindow` says, and afterwards it covers the visible range |
| Engine.VirtualScroll.OnDataUpdate | virtualScroll.js:89-108 | a negative margin fails with nothing changed. Otherwise the list and margin are taken, the scroll bound is recomputed, and the window is rebuilt over the old slots, or over a new buffer whenever a margin is given, even the current one, with the old slots kept as dropped |
| Engine.VirtualScroll.Rebuffer | virtualScroll.js:92-95 | a given margin gives a new, empty buffer of the new size with the cursor at 0; the old slots are dropped without detaching their elements |
| Engine.VirtualScroll.Reload | virtualScroll.js:98-107 | the list is replaced, the scroll bound recomputed and the window rebuilt |
| Engine.VirtualScroll.UpdateScrollBounds | virtualScroll.js:101-105 | the scroll bound is recomputed, and the offset is pulled back to it when the viewport is scrolled at or past it |
| Engine.VirtualScroll.OnWindowResize | virtualScroll.js:110-129 | an unchanged height changes nothing. Otherwise the bound, visible count and margin are recomputed, the old slots are cleared, and the window is rebuilt over a new buffer |
| Engine.VirtualScroll.PrepareResize | virtualScroll.js:113-127 | the counts are recomputed for the new height, and the old slots are cleared into a new, empty buffer |
| Engine.VirtualScroll.SetViewport | virtualScroll.js:113-122 | the visible count follows the new height; the margin is the creation-time margin, or twice the visible count when none was given |
| Engine.VirtualScroll.ResetBuffer | virtualScroll.js:124-127 | every occupied slot's element is detached, then a new, empty buffer with the cursor at 0 replaces the old one |
| Alignment.RebuildRingRealigned | virtualScroll.js:185-191 | a rebuild that ends with the cursor back where it started |
| Alignment.RebuildWindowRealigned | virtualScroll.js:177-191 | the rebuilt window with the realigned rebuild keeps the buffer length |
| Alignment.MoveWindowRealigned | virtualScroll.js:146-174 | a scroll move with the realigned rebuild keeps the buffer length and the cursor in range |
| Alignment.RealignedRebuildAligned | virtualScroll.js:176-193 | the realigned rebuild puts each window index `k` slots after the cursor, as long as the factory gives nothing past the list end |
| Alignment.FullRebuildIsRealigned | virtualScroll.js:185-191 | when the list does not end inside the window, the rebuild as written and the realigned one agree |
| Alignment.ProducedAscending | virtualScroll.js:161-162 | the upward loop's `k`-th element is the factory's result for the start plus `k` |
| Alignment.ProducedDescending | virtualScroll.js:166-167 | the downward loop's `k`-th element is the factory's result for the start minus `k` |
| Alignment.ShiftForwardAligned | virtualScroll.js:160-164 | a forward shift by less than a buffer's worth keeps every window index in its slot |
| Alignment.ShiftBackwardAligned | virtualScroll.js:165-170 | a backward shift by less than a buffer's worth keeps every window index in its slot |
| Alignment.ShiftKeepsAligned | virtualScroll.js:159-173 | every shift the scroll handler can choose keeps every window index in its slot |
| Alignment.MoveRealignedKeepsAligned | virtualScroll.js:146-174 | every scroll event with the realigned rebuild keeps every window index in its slot |
| Alignment.Run | virtualScroll.js:131-144 | a run of scroll events keeps the buffer length and the cursor in range |
| Alignment.RunRealigned | virtualScroll.js:131-144 | a run of scroll events with the realigned rebuild keeps the buffer length and the cursor in range |
| Alignment.RunRealignedAligned | virtualScroll.js:131-193 | with the realigned rebuild, every sequence of scroll events keeps every window index in its slot |
| Alignment.AlignedHoldsWindow | virtualScroll.js:195-229 | when the slots are aligned, every window index the factory has an element for has that element in the container |
| Alignment.TruncatedRebuildLeavesGap | virtualScroll.js:185-191 | as written, ten items and the scroll offsets 0, 70, 50, 30 and 50 leave item 6 visible, inside the window, and in no slot |

## Left out

- The DOM container. It is not a field. The model tracks the log of detached elements
  and the slots of dropped buffers. How each write changes the children is proved on
  values (`Recycler.StoreAttaches`), not as a state of the class. The order of the
  children is not modelled.
- Styling and layout. The wrapper `div`, its `position`, `overflow` and `height`
  styles, and each element's `position` and `top` are not modelled. The `pos *
  elementHeight` offsets passed to the writes are not modelled either. `create`
  appends the wrapper `div` to the viewport before it rejects a negative margin, so
  a rejected call leaves that empty `div` behind; `Engine.Create` does not model it.
- Engine.VirtualScroll.UpdateScrollBounds: the container's `clientHeight` is taken to be
  the height the library gives it, item height times list length. The model does not
  read it back from layout.
- Reading `clientHeight` and `scrollTop` from the viewport: each read becomes a method
  argument.
- Event listener registration and removal, the controller object and `destroy`. These
  are host wiring.
- `scrollToPos` writes the viewport's `scrollTop`. Only the round trip through the
  scroll handler's arithmetic is modelled (`Geometry.ScrollToPositionRoundTrip`).
- The element factory is a pure function of the item, its index and the list, and
  element handles are integers. A factory that throws, or has side effects, is not
  modelled.
- Recycler.StoreAttaches: it assumes each factory result is a new element that is not
  yet in the container. `ElementId` only labels that element and is not its identity,
  so a pure factory that gives the same label for an index twice stands for two
  distinct elements. A factory that hands back an element already attached is not
  modelled: the DOM's `appendChild` and `replaceChild` then move the node instead of
  adding a copy, and `replaceChild` throws `NotFoundError` when the old node is no
  longer a child. The container's children as counted by the model
  (`Occupants(slots) + Occupants(dropped)`) can therefore count one label twice, for
  example after `onDataUpdate` with a margin re-creates the elements of the dropped
  buffer.
- Heights and offsets are whole pixels. Fractional values, and `Math.floor` and
  `Math.ceil` of non-integer quotients, are not modelled.
- Engine.VirtualScroll.SetViewport: `outsideElements >> 1` and `displayedElements << 1`
  are modelled as unbounded halving and doubling. JavaScript's 32-bit truncation of
  these shifts is not modelled.
- Engine.Create: a margin that is not an integer is not modelled. Margins are `Option<int>`;
  an absent margin and a margin of 0 both give 0, as `|| 0` does.
- Alignment.RealignedRebuildAligned: it requires that the factory give no element past
  the list end. The factory's documentation promises this for `undefined` data.

## Findings

| source | as written | input that shows it | evidently intended | confidence | as-written member | corrected member |
|---|---|---|---|---|---|---|
| virtualScroll.js:185-191 | the rebuild loop stops at the list end and leaves `arrayPointer` where the writes stopped, so the cursor no longer marks the slot of `firstIndexDisplayed`; the later shifts write one slot off and overwrite items still inside the window, which show as gaps once scrolled into view | ten items of height 10, a 20-pixel viewport and a margin of 2 (five slots); built at offset 0, then scrolled to 70, 50, 30 and 50: item 6 is visible and inside the window, but no slot holds it | after a rebuild the cursor is back at the slot where the rebuild started, and every window index stays in its slot after any sequence of scroll events | not executed | Alignment.TruncatedRebuildLeavesGap | Alignment.RunRealignedAligned |

The class in `Engine` keeps the behaviour as written. The corrected rebuild,
`Alignment.RebuildRingRealigned`, is what `Alignment.MoveWindowRealigned` and
`Alignment.RunRealigned` use.
