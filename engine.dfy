/**
  The virtual scroll list itself: the state that `create` keeps in its closure, as the
  fields of one object, and the closure's functions as its methods. Reading the
  viewport's `clientHeight` and `scrollTop` becomes a method argument, and the element
  factory is a function value. The container element is not a field: the ghost field
  `detached` logs every element taken out of it, and `dropped` keeps the slots of
  every buffer given up without clearing; module Recycler proves how each slot write
  changes the container's children (the elements in the slots plus those left behind).
 */
module Engine {
  import opened Wrappers
  import opened Geometry
  import opened Recycler
  import opened Tracker

  datatype Error = NegativeHiddenBufferedElements

  /** `dataList[i]`: `undefined` outside the list, negative indices included. */
  function Lookup<R>(data: seq<R>, i: int): Option<R> {
    if 0 <= i < |data| then Some(data[i]) else None
  }

  /** The factory called as `createElement(dataList[i], i, dataList)`, as a function of `i`. */
  function Producer<R>(createElement: (Option<R>, int, seq<R>) -> Option<ElementId>, data: seq<R>): int -> Option<ElementId> {
    i => createElement(Lookup(data, i), i, data)
  }

  /** The `k`-th element produced for `indices` is the factory's result for the `k`-th index. */
  lemma ProducedAt<R>(createElement: (Option<R>, int, seq<R>) -> Option<ElementId>, data: seq<R>, indices: seq<int>, k: nat)
    requires k < |indices|
    ensures |Produce(Producer(createElement, data), indices)| == |indices|
    ensures Produce(Producer(createElement, data), indices)[k] ==
            createElement(Lookup(data, indices[k]), indices[k], data)
  {
  }

  class VirtualScroll<Record> {
    const elementHeight: Positive
    const createElement: (Option<Record>, int, seq<Record>) -> Option<ElementId>
    /** The margin given at creation (0 when absent); a resize falls back to it. */
    const hiddenBufferedElements: nat

    var dataList: seq<Record>
    var lastListElmHeight: nat
    var displayedElements: nat
    var outsideElements: nat
    var neededElements: nat
    var elementsArray: array<Option<ElementId>>
    var arrayPointer: nat
    var scrollTop: int
    var maxScrollTop: int
    var firstIndexDisplayed: int
    var lastIndexDisplayed: int
    /**
      The slots of every buffer that was dropped without being cleared, in order: their
      elements stay attached to the container.
     */
    ghost var dropped: seq<Option<ElementId>>
    /** Every element detached from the container, in order. */
    ghost var detached: seq<ElementId>

    ghost function RingState(): Ring
      reads this`elementsArray, this`arrayPointer, this`detached, elementsArray
    {
      Ring(elementsArray[..], arrayPointer, detached)
    }

    /** The materialised window and the slots holding it. */
    ghost function WindowState(): Window
      reads this`firstIndexDisplayed, this`lastIndexDisplayed, this`elementsArray, this`arrayPointer, this`detached, elementsArray
    {
      Window(firstIndexDisplayed, lastIndexDisplayed, RingState())
    }

    ghost function Factory(): int -> Option<ElementId>
      reads this`dataList
    {
      Producer(createElement, dataList)
    }

    /** The slot buffer is never empty and the cursor points into it. */
    ghost predicate RingValid()
      reads this`elementsArray, this`arrayPointer, this`detached, elementsArray
    {
      Recycler.Valid(RingState())
    }

    /** The counts agree with each other and the scroll position is not negative. */
    ghost predicate Sized()
      reads this`displayedElements, this`outsideElements, this`neededElements, this`scrollTop, this`maxScrollTop
    {
      displayedElements >= 1 &&
      neededElements == displayedElements + outsideElements &&
      0 <= scrollTop && 0 <= maxScrollTop
    }

    /** Besides, the slot buffer has one slot per needed element. */
    ghost predicate Configured()
      reads this`elementsArray, this`arrayPointer, this`detached, elementsArray,
        this`displayedElements, this`outsideElements, this`neededElements, this`scrollTop, this`maxScrollTop
    {
      RingValid() && Sized() && elementsArray.Length == neededElements
    }

    /** Besides, the window spans exactly one buffer's worth of indices. */
    ghost predicate Valid()
      reads this`elementsArray, this`arrayPointer, this`detached, elementsArray,
        this`displayedElements, this`outsideElements, this`neededElements, this`scrollTop, this`maxScrollTop, this`firstIndexDisplayed, this`lastIndexDisplayed
    {
      Configured() && lastIndexDisplayed - firstIndexDisplayed + 1 == neededElements
    }

    /** Where `refreshAllData` starts the window: half the margin before the first visible item. */
    ghost function Start(): int
      reads this`scrollTop, this`outsideElements
    {
      RebuildStart(FirstVisible(scrollTop, elementHeight), outsideElements)
    }

    constructor (viewport: nat, data: seq<Record>, createElement: (Option<Record>, int, seq<Record>) -> Option<ElementId>,
                 elementHeight: Positive, hiddenBufferedElements: nat, domScrollTop: int)
      ensures Valid() && fresh(elementsArray)
      ensures this.elementHeight == elementHeight && this.createElement == createElement
      ensures this.hiddenBufferedElements == hiddenBufferedElements
      ensures dataList == data && lastListElmHeight == viewport
      ensures displayedElements == DisplayedElements(viewport, elementHeight)
      ensures outsideElements == hiddenBufferedElements
      ensures maxScrollTop == MaxScrollTop(ContentHeight(elementHeight, |data|), viewport, elementHeight)
      ensures scrollTop == if domScrollTop >= maxScrollTop then maxScrollTop else 0
      ensures dropped == []
      ensures WindowState() == RebuildWindow(Ring(EmptyCells(neededElements), 0, []), Start(), neededElements, |dataList|, Factory())
    {
      this.elementHeight := elementHeight;
      this.createElement := createElement;
      this.hiddenBufferedElements := hiddenBufferedElements;
      dataList := data;
      lastListElmHeight := viewport;
      var displayed := DisplayedElements(viewport, elementHeight);
      displayedElements := displayed;
      outsideElements := hiddenBufferedElements;
      neededElements := displayed + hiddenBufferedElements;
      elementsArray := new Option<ElementId>[displayed + hiddenBufferedElements](_ => None);
      arrayPointer := 0;
      scrollTop := 0;
      // The source leaves these undefined until the data update below sets them.
      maxScrollTop := 0;
      firstIndexDisplayed := 0;
      lastIndexDisplayed := displayed + hiddenBufferedElements - 1;
      dropped := [];
      detached := [];
      new;
      assert elementsArray[..] == EmptyCells(neededElements);
      NothingOccupied(elementsArray[..]);
      var outcome := OnDataUpdate(None, None, viewport, domScrollTop);
    }

    /**
      `addDataElementAfter`: the slot at the cursor takes `elm` (its old occupant is
      replaced in, or removed from, the container), then the cursor moves on by one.
     */
    method AddDataElementAfter(elm: Option<ElementId>)
      requires RingValid()
      modifies elementsArray, this`arrayPointer, this`detached
      ensures RingValid()
      ensures RingState() == WriteAfter(old(RingState()), elm)
    {
      ghost var r := RingState();
      var previous := elementsArray[arrayPointer];
      if elm.Some? {
        if previous.Some? {
          // `replaceChild(elm, previous)` detaches the previous element.
          detached := detached + [previous.value];
        }
      } else if previous.Some? {
        // `previous.remove()`
        detached := detached + [previous.value];
      }
      elementsArray[arrayPointer] := elm;
      arrayPointer := NextPointer(arrayPointer, elementsArray.Length);
      assert elementsArray[..] == r.cells[r.cursor := elm];
    }

    /**
      `addDataElementBefore`: the cursor steps back by one (from 0 to the last slot), then
      the slot there takes `elm`; the cursor stays on it.
     */
    method AddDataElementBefore(elm: Option<ElementId>)
      requires RingValid()
      modifies elementsArray, this`arrayPointer, this`detached
      ensures RingValid()
      ensures RingState() == WriteBefore(old(RingState()), elm)
    {
      ghost var r := RingState();
      arrayPointer := PrevPointer(arrayPointer, elementsArray.Length);
      var previous := elementsArray[arrayPointer];
      if elm.Some? {
        if previous.Some? {
          // `replaceChild(elm, previous)` detaches the previous element.
          detached := detached + [previous.value];
        }
      } else if previous.Some? {
        // `previous.remove()`
        detached := detached + [previous.value];
      }
      elementsArray[arrayPointer] := elm;
      assert elementsArray[..] == r.cells[arrayPointer := elm];
    }

    /** `clearElements`: every occupied slot's element is removed, in slot order, and the slot emptied. */
    method ClearElements()
      requires RingValid()
      modifies elementsArray, this`detached
      ensures RingValid()
      ensures RingState() == ClearAll(old(RingState()))
    {
      ghost var r := RingState();
      for i := 0 to elementsArray.Length
        invariant RingState() == ClearedUpTo(r, i)
      {
        ghost var cells := elementsArray[..];
        if elementsArray[i].Some? {
          // `elementsArray[i].remove()`
          detached := detached + [elementsArray[i].value];
          elementsArray[i] := None;
          assert elementsArray[..] == cells[i := None];
        }
      }
      ClearedEverySlot(r);
      NothingOccupied(elementsArray[..]);
    }

    /**
      `refreshAllData`: the window is set to start half the margin before the first
      visible item, every slot is cleared, and the factory is called for consecutive
      indices from the window's start, stopping after a buffer's worth or at the list end.
     */
    method RefreshAllData()
      requires Configured()
      modifies elementsArray, this`arrayPointer, this`detached,
        this`firstIndexDisplayed, this`lastIndexDisplayed
      ensures Valid()
      ensures WindowState() == RebuildWindow(old(RingState()), Start(), neededElements, |dataList|, Factory())
    {
      var from := FirstVisible(scrollTop, elementHeight) - outsideElements / 2;
      firstIndexDisplayed, lastIndexDisplayed := from, from + neededElements - 1;
      ClearElements();
      FillForward(from, Produce(Factory(), RebuildIndices(from, neededElements, |dataList|)));
    }

    /**
      The loop of `refreshAllData`: the factory is called for consecutive indices from
      `from`, each element written forward, until a buffer's worth or the list end.
     */
    method FillForward(from: int, ghost elms: seq<Option<ElementId>>)
      requires RingValid()
      requires elms == Produce(Factory(), RebuildIndices(from, neededElements, |dataList|))
      modifies elementsArray, this`arrayPointer, this`detached
      ensures RingValid()
      ensures RingState() == WriteAllAfter(old(RingState()), elms)
    {
      ghost var start := RingState();
      ghost var indices := RebuildIndices(from, neededElements, |dataList|);
      assert elms == Produce(Producer(createElement, dataList), indices);
      var i := 0;
      var index := from;
      while i < neededElements && index < |dataList|
        invariant 0 <= i <= |elms| && index == from + i
        invariant RingValid()
        invariant RingState() == WriteAllAfter(start, elms[..i])
      {
        ProducedAt(createElement, dataList, indices, i);
        PlaceAfter(index, start, elms, i);
        i := i + 1;
        index := index + 1;
      }
      assert elms[..i] == elms;
    }

    /**
      One step of a forward loop: the factory is called for `index`, which yields the
      `i`-th element of `elms`, and the element is written forward.
     */
    method PlaceAfter(index: int, ghost start: Ring, ghost elms: seq<Option<ElementId>>, ghost i: nat)
      requires RingValid() && Recycler.Valid(start) && i < |elms|
      requires elms[i] == Factory()(index)
      requires RingState() == WriteAllAfter(start, elms[..i])
      modifies elementsArray, this`arrayPointer, this`detached
      ensures RingValid()
      ensures RingState() == WriteAllAfter(start, elms[..i + 1])
    {
      var elm := createElement(Lookup(dataList, index), index, dataList);
      AddDataElementAfter(elm);
      WriteAllAfterStep(start, elms, i);
    }

    /**
      One step of the backward loop: the factory is called for `index`, which yields the
      `i`-th element of `elms`, and the element is written backward.
     */
    method PlaceBefore(index: int, ghost start: Ring, ghost elms: seq<Option<ElementId>>, ghost i: nat)
      requires RingValid() && Recycler.Valid(start) && i < |elms|
      requires elms[i] == Factory()(index)
      requires RingState() == WriteAllBefore(start, elms[..i])
      modifies elementsArray, this`arrayPointer, this`detached
      ensures RingValid()
      ensures RingState() == WriteAllBefore(start, elms[..i + 1])
    {
      var elm := createElement(Lookup(dataList, index), index, dataList);
      AddDataElementBefore(elm);
      WriteAllBeforeStep(start, elms, i);
    }

    /**
      `displayDataFrom`: given the first visible index, leave the window alone while it
      covers the visible range, rebuild when the shift would span a buffer's worth of
      slots, and otherwise create the indices just past one edge, one slot each.
     */
    method DisplayDataFrom(indexVisibleFrom: int)
      requires Configured()
      modifies elementsArray, this`arrayPointer, this`detached,
        this`firstIndexDisplayed, this`lastIndexDisplayed
      ensures Configured()
      ensures WindowState() == MoveWindow(old(WindowState()), indexVisibleFrom, displayedElements, outsideElements,
                                          neededElements, Start(), |dataList|, Factory())
    {
      ghost var decision := Decide(indexVisibleFrom, displayedElements, firstIndexDisplayed, lastIndexDisplayed,
                                   outsideElements, neededElements);
      var toUpdate := 0;
      var indexVisibleTo := indexVisibleFrom + displayedElements - 1;
      if indexVisibleFrom < firstIndexDisplayed {
        toUpdate := toUpdate - (firstIndexDisplayed - indexVisibleFrom + outsideElements / 2);
      } else if indexVisibleTo > lastIndexDisplayed {
        toUpdate := toUpdate + (indexVisibleTo - lastIndexDisplayed + outsideElements / 2);
      } else {
        assert decision == Keep;
        return;
      }

      if toUpdate >= neededElements || -toUpdate >= neededElements {
        assert decision == Rebuild;
        RefreshAllData();
        return;
      }

      assert decision == Plan.Shift(toUpdate);
      Shift(toUpdate);
    }

    /**
      The shift branch of `displayDataFrom`: the `toUpdate` indices past the last one
      (or the `-toUpdate` before the first one) are created, and the window moves by `toUpdate`.
     */
    method Shift(toUpdate: int)
      requires RingValid()
      modifies elementsArray, this`arrayPointer, this`detached,
        this`firstIndexDisplayed, this`lastIndexDisplayed
      ensures RingValid()
      ensures WindowState() == Window(old(firstIndexDisplayed) + toUpdate, old(lastIndexDisplayed) + toUpdate,
        ShiftRing(old(RingState()), old(firstIndexDisplayed), old(lastIndexDisplayed), toUpdate, Factory()))
    {
      if toUpdate > 0 {
        ExtendAfter(toUpdate, Produce(Factory(), ShiftIndices(firstIndexDisplayed, lastIndexDisplayed, toUpdate)));
      } else {
        ExtendBefore(-toUpdate, Produce(Factory(), ShiftIndices(firstIndexDisplayed, lastIndexDisplayed, toUpdate)));
      }
      firstIndexDisplayed, lastIndexDisplayed := firstIndexDisplayed + toUpdate, lastIndexDisplayed + toUpdate;
    }

    /**
      The ascending loop of `displayDataFrom`: the factory is called for the `count`
      indices after the window's last one, each element written forward.
     */
    method ExtendAfter(count: nat, ghost elms: seq<Option<ElementId>>)
      requires RingValid()
      requires elms == Produce(Factory(), Ascending(lastIndexDisplayed + 1, count))
      modifies elementsArray, this`arrayPointer, this`detached
      ensures RingValid()
      ensures RingState() == WriteAllAfter(old(RingState()), elms)
    {
      ghost var start := RingState();
      ghost var indices := Ascending(lastIndexDisplayed + 1, count);
      assert elms == Produce(Producer(createElement, dataList), indices);
      var i := 0;
      var pos := lastIndexDisplayed + 1;
      while i < count
        invariant 0 <= i <= count && pos == lastIndexDisplayed + 1 + i
        invariant RingValid()
        invariant RingState() == WriteAllAfter(start, elms[..i])
      {
        ProducedAt(createElement, dataList, indices, i);
        PlaceAfter(pos, start, elms, i);
        i := i + 1;
        pos := pos + 1;
      }
      assert elms[..i] == elms;
    }

    /**
      The descending loop of `displayDataFrom`: the factory is called for the `count`
      indices before the window's first one, nearest first, each element written backward.
     */
    method ExtendBefore(count: nat, ghost elms: seq<Option<ElementId>>)
      requires RingValid()
      requires elms == Produce(Factory(), Descending(firstIndexDisplayed - 1, count))
      modifies elementsArray, this`arrayPointer, this`detached
      ensures RingValid()
      ensures RingState() == WriteAllBefore(old(RingState()), elms)
    {
      ghost var start := RingState();
      ghost var indices := Descending(firstIndexDisplayed - 1, count);
      assert elms == Produce(Producer(createElement, dataList), indices);
      var i := 0;
      var pos := firstIndexDisplayed - 1;
      while i < count
        invariant 0 <= i <= count && pos == firstIndexDisplayed - 1 - i
        invariant RingValid()
        invariant RingState() == WriteAllBefore(start, elms[..i])
      {
        ProducedAt(createElement, dataList, indices, i);
        PlaceBefore(pos, start, elms, i);
        i := i + 1;
        pos := pos - 1;
      }
      assert elms[..i] == elms;
    }

    /**
      `onScrollUpdate`: the viewport's scroll offset is clamped into `[0, maxScrollTop]`,
      and the window is moved unless it already covers the visible range. Afterwards it
      always covers it, so a repeated event at the same offset changes nothing.
     */
    method OnScrollUpdate(domScrollTop: int)
      requires Valid()
      modifies elementsArray, this`arrayPointer, this`detached,
        this`firstIndexDisplayed, this`lastIndexDisplayed, this`scrollTop
      ensures Valid()
      ensures scrollTop == ClampScroll(domScrollTop, maxScrollTop)
      ensures 0 <= scrollTop <= maxScrollTop
      ensures WindowState() == MoveWindow(old(WindowState()), FirstVisible(scrollTop, elementHeight), displayedElements,
                                          outsideElements, neededElements, Start(), |dataList|, Factory())
      ensures Covered(FirstVisible(scrollTop, elementHeight), displayedElements, firstIndexDisplayed, lastIndexDisplayed)
    {
      scrollTop := domScrollTop;
      if scrollTop < 0 {
        scrollTop := 0;
      } else if scrollTop >= maxScrollTop {
        scrollTop := maxScrollTop;
      }
      var firstVisible := FirstVisible(scrollTop, elementHeight);
      var lastVisible := firstVisible + displayedElements - 1;
      if firstVisible < firstIndexDisplayed || lastVisible > lastIndexDisplayed {
        DisplayDataFrom(firstVisible);
      }
      MoveWindowCovers(old(WindowState()), firstVisible, displayedElements, outsideElements, neededElements,
        |dataList|, Factory());
    }

    /**
      `onDataUpdate`: a negative margin is rejected before anything changes. Any given
      margin, even the current one, reallocates the slot buffer (the old buffer's elements stay attached); a new list
      replaces the old one; the scroll bound is recomputed and the window rebuilt.
     */
    method OnDataUpdate(data: Option<seq<Record>>, hiddenBuffered: Option<int>, viewport: nat, domScrollTop: int)
      returns (outcome: Outcome<Error>)
      requires Valid()
      modifies this, elementsArray
      ensures Valid()
      ensures outcome.Fail? <==> hiddenBuffered.Some? && hiddenBuffered.value < 0
      ensures outcome.Fail? ==> outcome.error == NegativeHiddenBufferedElements && unchanged(this) && unchanged(elementsArray)
      ensures outcome.Pass? ==>
        dataList == (if data.Some? then data.value else old(dataList)) &&
        lastListElmHeight == old(lastListElmHeight) && displayedElements == old(displayedElements) &&
        outsideElements == (if hiddenBuffered.Some? then hiddenBuffered.value else old(outsideElements)) &&
        maxScrollTop == MaxScrollTop(ContentHeight(elementHeight, |dataList|), viewport, elementHeight) &&
        scrollTop == (if domScrollTop >= maxScrollTop then maxScrollTop else old(scrollTop))
      ensures outcome.Pass? && hiddenBuffered.None? ==>
        elementsArray == old(elementsArray) && dropped == old(dropped) &&
        WindowState() == RebuildWindow(old(RingState()), Start(), neededElements, |dataList|, Factory())
      ensures outcome.Pass? && hiddenBuffered.Some? ==>
        fresh(elementsArray) && dropped == old(dropped) + old(elementsArray[..]) &&
        WindowState() == RebuildWindow(Ring(EmptyCells(neededElements), 0, old(detached)), Start(), neededElements, |dataList|, Factory())
    {
      if hiddenBuffered.Some? {
        if hiddenBuffered.value < 0 {
          return Fail(NegativeHiddenBufferedElements);
        }
        Rebuffer(hiddenBuffered.value);
      }
      Reload(if data.Some? then data.value else dataList, viewport, domScrollTop);
      outcome := Pass;
    }

    /**
      The margin branch of `onDataUpdate`: the new margin and buffer size, and a new,
      empty buffer with the cursor at its start. The old buffer is dropped without
      removing its elements, so they stay in the container.
     */
    method Rebuffer(margin: nat)
      requires Configured()
      modifies this`outsideElements, this`neededElements, this`dropped, this`elementsArray, this`arrayPointer
      ensures Configured() && fresh(elementsArray)
      ensures outsideElements == margin
      ensures dropped == old(dropped) + old(elementsArray[..])
      ensures RingState() == Ring(EmptyCells(neededElements), 0, detached)
    {
      outsideElements := margin;
      neededElements := displayedElements + margin;
      dropped := dropped + elementsArray[..];
      var buffer := new Option<ElementId>[displayedElements + margin](_ => None);
      assert buffer[..] == EmptyCells(neededElements);
      elementsArray, arrayPointer := buffer, 0;
    }

    /** The rest of `onDataUpdate`: the list becomes `data`, the scroll bound is recomputed and the window rebuilt. */
    method Reload(data: seq<Record>, viewport: nat, domScrollTop: int)
      requires Configured()
      modifies elementsArray, this`dataList, this`maxScrollTop, this`scrollTop, this`arrayPointer, this`detached,
        this`firstIndexDisplayed, this`lastIndexDisplayed
      ensures Valid() && dataList == data
      ensures maxScrollTop == MaxScrollTop(ContentHeight(elementHeight, |data|), viewport, elementHeight)
      ensures scrollTop == (if domScrollTop >= maxScrollTop then maxScrollTop else old(scrollTop))
      ensures WindowState() == RebuildWindow(old(RingState()), Start(), neededElements, |dataList|, Factory())
    {
      dataList := data;
      UpdateScrollBounds(viewport, domScrollTop);
      RefreshAllData();
    }

    /**
      The scroll bound for the current list and the viewport height, and the scroll
      offset pulled back to it when the viewport is scrolled at or past it.
     */
    method UpdateScrollBounds(viewport: nat, domScrollTop: int)
      requires 0 <= scrollTop
      modifies this`maxScrollTop, this`scrollTop
      ensures maxScrollTop == MaxScrollTop(ContentHeight(elementHeight, |dataList|), viewport, elementHeight)
      ensures scrollTop == if domScrollTop >= maxScrollTop then maxScrollTop else old(scrollTop)
      ensures 0 <= scrollTop
    {
      var bound := ContentHeight(elementHeight, |dataList|) - viewport - elementHeight;
      bound := if bound > 0 then bound else 0;
      maxScrollTop := bound;
      if domScrollTop >= bound {
        scrollTop := bound;
      }
    }

    /**
      `onWindowResize`: nothing when the viewport height is unchanged; otherwise the scroll
      bound, the visible count and the margin (the creation-time margin, or twice the
      visible count when none was given) are recomputed, the slots cleared, a fresh buffer
      allocated and the window rebuilt.
     */
    method OnWindowResize(viewport: nat, domScrollTop: int)
      requires Valid()
      modifies this, elementsArray
      ensures Valid()
      ensures viewport == old(lastListElmHeight) ==> unchanged(this) && unchanged(elementsArray)
      ensures viewport != old(lastListElmHeight) ==>
        lastListElmHeight == viewport && dataList == old(dataList) &&
        maxScrollTop == MaxScrollTop(ContentHeight(elementHeight, |dataList|), viewport, elementHeight) &&
        scrollTop == (if domScrollTop >= maxScrollTop then maxScrollTop else old(scrollTop)) &&
        displayedElements == DisplayedElements(viewport, elementHeight) &&
        outsideElements == (if hiddenBufferedElements != 0 then hiddenBufferedElements else 2 * displayedElements) &&
        fresh(elementsArray) && dropped == old(dropped) &&
        WindowState() == RebuildWindow(Ring(EmptyCells(neededElements), 0, old(detached) + Occupied(old(elementsArray[..]))), Start(), neededElements, |dataList|, Factory())
    {
      if lastListElmHeight == viewport {
        return;
      }
      PrepareResize(viewport, domScrollTop);
      RefreshAllData();
    }

    /** Everything `onWindowResize` does before the rebuild. */
    method PrepareResize(viewport: nat, domScrollTop: int)
      requires Valid()
      modifies this, elementsArray
      ensures Configured() && fresh(elementsArray)
      ensures lastListElmHeight == viewport && dataList == old(dataList) && dropped == old(dropped)
      ensures maxScrollTop == MaxScrollTop(ContentHeight(elementHeight, |dataList|), viewport, elementHeight)
      ensures scrollTop == (if domScrollTop >= maxScrollTop then maxScrollTop else old(scrollTop))
      ensures displayedElements == DisplayedElements(viewport, elementHeight)
      ensures outsideElements == (if hiddenBufferedElements != 0 then hiddenBufferedElements else 2 * displayedElements)
      ensures RingState() == Ring(EmptyCells(neededElements), 0, old(detached) + Occupied(old(elementsArray[..])))
    {
      SetViewport(viewport, domScrollTop);
      ResetBuffer();
    }

    /** The counts `onWindowResize` recomputes for a new viewport height. */
    method SetViewport(viewport: nat, domScrollTop: int)
      requires Sized()
      modifies this`lastListElmHeight, this`maxScrollTop, this`scrollTop,
        this`displayedElements, this`outsideElements, this`neededElements
      ensures Sized() && lastListElmHeight == viewport
      ensures maxScrollTop == MaxScrollTop(ContentHeight(elementHeight, |dataList|), viewport, elementHeight)
      ensures scrollTop == (if domScrollTop >= maxScrollTop then maxScrollTop else old(scrollTop))
      ensures displayedElements == DisplayedElements(viewport, elementHeight)
      ensures outsideElements == (if hiddenBufferedElements != 0 then hiddenBufferedElements else 2 * displayedElements)
    {
      lastListElmHeight := viewport;
      UpdateScrollBounds(viewport, domScrollTop);
      displayedElements := DisplayedElements(viewport, elementHeight);
      outsideElements := if hiddenBufferedElements != 0 then hiddenBufferedElements else 2 * displayedElements;
      neededElements := displayedElements + outsideElements;
    }

    /** `clearElements()`, then a new, empty buffer of `neededElements` slots with the cursor at its start. */
    method ResetBuffer()
      requires RingValid() && neededElements >= 1
      modifies elementsArray, this`elementsArray, this`arrayPointer, this`detached
      ensures fresh(elementsArray) && elementsArray.Length == neededElements && RingValid()
      ensures RingState() == Ring(EmptyCells(neededElements), 0, old(detached) + Occupied(old(elementsArray[..])))
    {
      ClearElements();
      var buffer := new Option<ElementId>[neededElements](_ => None);
      assert buffer[..] == EmptyCells(neededElements);
      elementsArray, arrayPointer := buffer, 0;
    }
  }

  /**
    `create`: a negative margin is rejected before the counts and the slot buffer exist;
    otherwise the list is set up and its first window built.
   */
  method Create<Record>(viewport: nat, dataList: seq<Record>,
                        createElement: (Option<Record>, int, seq<Record>) -> Option<ElementId>,
                        elementHeight: Positive, hiddenBufferedElements: Option<int>, domScrollTop: int)
    returns (r: Result<VirtualScroll<Record>, Error>)
    ensures r.Failure? <==> hiddenBufferedElements.Some? && hiddenBufferedElements.value < 0
    ensures r.Failure? ==> r.error == NegativeHiddenBufferedElements
    ensures r.Success? ==>
      fresh(r.value) && fresh(r.value.elementsArray) && r.value.Valid() &&
      r.value.dataList == dataList && r.value.elementHeight == elementHeight &&
      r.value.createElement == createElement &&
      r.value.hiddenBufferedElements == r.value.outsideElements &&
      r.value.lastListElmHeight == viewport &&
      r.value.maxScrollTop == MaxScrollTop(ContentHeight(elementHeight, |dataList|), viewport, elementHeight) &&
      r.value.scrollTop == (if domScrollTop >= r.value.maxScrollTop then r.value.maxScrollTop else 0) &&
      r.value.outsideElements == (if hiddenBufferedElements.Some? then hiddenBufferedElements.value else 0) &&
      r.value.displayedElements == DisplayedElements(viewport, elementHeight) &&
      r.value.dropped == [] &&
      r.value.WindowState() == RebuildWindow(Ring(EmptyCells(r.value.neededElements), 0, []), r.value.Start(), r.value.neededElements, |dataList|, r.value.Factory())
  {
    if hiddenBufferedElements.Some? && hiddenBufferedElements.value < 0 {
      return Failure(NegativeHiddenBufferedElements);
    }
    var margin := if hiddenBufferedElements.Some? then hiddenBufferedElements.value else 0;
    var list := new VirtualScroll(viewport, dataList, createElement, elementHeight, margin, domScrollTop);
    return Success(list);
  }
}
