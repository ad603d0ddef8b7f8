/**
  Slot alignment. The recycler relies on one arrangement of the slots: the element of
  index `firstIndexDisplayed + k` sits `k` slots after the cursor. A forward shift then
  overwrites exactly the indices leaving the top of the window, and a backward shift
  those leaving the bottom.

  `refreshAllData` breaks the arrangement when its loop stops early at the list end: the
  cursor is left where the writes stopped instead of a full turn on, that is, back where
  it started. Module Engine keeps that behaviour. This module shows a sequence of scroll
  events after which a visible index is in no slot, and proves that a rebuild which
  returns the cursor to its start keeps every index of the window in its slot after
  any sequence of scroll events.
 */
module Alignment {
  import opened Wrappers
  import opened Recycler
  import opened Tracker

  /**
    The element factory's documented contract past the list end: `dataList[i]` is
    `undefined` there, and the factory returns no element for such data.
   */
  ghost predicate NoElementPastEnd(f: int -> Option<ElementId>, length: nat) {
    forall i :: i >= length ==> f(i) == None
  }

  /** Each index of the window, in order, sits the corresponding number of slots after the cursor. */
  predicate Aligned(w: Window, f: int -> Option<ElementId>)
    requires Valid(w.ring)
  {
    var n := |w.ring.cells|;
    w.last - w.first + 1 == n &&
    forall k :: 0 <= k < n ==> w.ring.cells[Offset(w.ring.cursor, k, n)] == f(w.first + k)
  }

  /** A rebuild that returns the cursor to where it started once the writes stop. */
  function RebuildRingRealigned(r: Ring, from: int, needed: nat, length: nat, f: int -> Option<ElementId>): (r': Ring)
    requires Valid(r)
    ensures Valid(r') && |r'.cells| == |r.cells| && r'.cursor == r.cursor
  {
    RebuildRing(r, from, needed, length, f).(cursor := r.cursor)
  }

  function RebuildWindowRealigned(r: Ring, start: int, needed: nat, length: nat, f: int -> Option<ElementId>): (w: Window)
    requires Valid(r)
    ensures Valid(w.ring) && |w.ring.cells| == |r.cells|
  {
    Window(start, start + needed - 1, RebuildRingRealigned(r, start, needed, length, f))
  }

  /** `MoveWindow` with the realigned rebuild. */
  function MoveWindowRealigned(w: Window, v: int, d: int, outside: nat, needed: nat,
                               start: int, length: nat, f: int -> Option<ElementId>): (w': Window)
    requires Valid(w.ring)
    ensures Valid(w'.ring) && |w'.ring.cells| == |w.ring.cells|
  {
    match Decide(v, d, w.first, w.last, outside, needed)
    case Keep => w
    case Shift(t) => Window(w.first + t, w.last + t, ShiftRing(w.ring, w.first, w.last, t, f))
    case Rebuild => RebuildWindowRealigned(w.ring, start, needed, length, f)
  }

  /**
    A realigned rebuild of a buffer's worth of slots is aligned: the created elements
    follow the cursor, and the slots past the list end stay empty, as the factory
    would leave them.
   */
  lemma RealignedRebuildAligned(r: Ring, start: int, length: nat, f: int -> Option<ElementId>)
    requires Valid(r) && NoElementPastEnd(f, length)
    ensures Aligned(RebuildWindowRealigned(r, start, |r.cells|, length, f), f)
  {
    var n := |r.cells|;
    RebuildPlacement(r, start, length, f);
    var count := RebuildCount(start, n, length);
    var w := RebuildWindowRealigned(r, start, n, length, f);
    assert w.ring.cells == RebuildRing(r, start, n, length, f).cells;
  }

  /**
    When the list does not end inside the window, the rebuild as written and the
    realigned one agree: the writes go a full turn and bring the cursor back.
   */
  lemma FullRebuildIsRealigned(r: Ring, from: int, length: nat, f: int -> Option<ElementId>)
    requires Valid(r) && RebuildCount(from, |r.cells|, length) == |r.cells|
    ensures RebuildRing(r, from, |r.cells|, length, f) == RebuildRingRealigned(r, from, |r.cells|, length, f)
  {
    RebuildPlacement(r, from, length, f);
  }

  /** The elements a shift creates, index by index. */
  lemma ProducedAscending(f: int -> Option<ElementId>, from: int, count: nat)
    ensures var elms := Produce(f, Ascending(from, count));
            |elms| == count && forall k :: 0 <= k < count ==> elms[k] == f(from + k)
  {
  }

  lemma ProducedDescending(f: int -> Option<ElementId>, from: int, count: nat)
    ensures var elms := Produce(f, Descending(from, count));
            |elms| == count && forall k :: 0 <= k < count ==> elms[k] == f(from - k)
  {
  }

  /** A forward shift by less than a buffer's worth keeps the slots aligned. */
  lemma ShiftForwardAligned(w: Window, t: int, f: int -> Option<ElementId>)
    requires Valid(w.ring) && Aligned(w, f) && 0 < t < |w.ring.cells|
    ensures Aligned(Window(w.first + t, w.last + t, ShiftRing(w.ring, w.first, w.last, t, f)), f)
  {
    ProducedAscending(f, w.last + 1, t);
    WriteForwardAligned(w, Produce(f, Ascending(w.last + 1, t)), f);
  }

  /** Forward writes of the elements of the `|elms|` indices past the window keep it aligned. */
  lemma WriteForwardAligned(w: Window, elms: seq<Option<ElementId>>, f: int -> Option<ElementId>)
    requires Valid(w.ring) && Aligned(w, f) && 0 < |elms| < |w.ring.cells|
    requires forall k :: 0 <= k < |elms| ==> elms[k] == f(w.last + 1 + k)
    ensures Aligned(Window(w.first + |elms|, w.last + |elms|, WriteAllAfter(w.ring, elms)), f)
  {
    WriteAllAfterPlacement(w.ring, elms);
    ForwardWindowAligned(w, WriteAllAfter(w.ring, elms), elms, f);
  }

  /**
    The window moved on by `|elms|` over slots `r'` in which the forward writes of
    `elms` have been placed is aligned.
   */
  lemma ForwardWindowAligned(w: Window, r': Ring, elms: seq<Option<ElementId>>, f: int -> Option<ElementId>)
    requires Valid(w.ring) && Valid(r') && |r'.cells| == |w.ring.cells|
    requires Aligned(w, f) && 0 < |elms| < |w.ring.cells|
    requires forall k :: 0 <= k < |elms| ==> elms[k] == f(w.last + 1 + k)
    requires r'.cursor == Offset(w.ring.cursor, |elms|, |w.ring.cells|)
    requires forall k :: 0 <= k < |w.ring.cells| ==>
               r'.cells[Offset(w.ring.cursor, k, |w.ring.cells|)] ==
                 if k < |elms| then elms[k] else w.ring.cells[Offset(w.ring.cursor, k, |w.ring.cells|)]
    ensures Aligned(Window(w.first + |elms|, w.last + |elms|, r'), f)
  {
    ForwardCells(w.ring.cells, r'.cells, w.ring.cursor, r'.cursor, elms, w.first, w.last, |elms|, f);
  }

  /**
    The slots of `ShiftForwardAligned`: the `t` new elements fill the slots of the
    indices that left the top of the window, so the window moved by `t` is aligned
    at the cursor `t` slots on.
   */
  lemma ForwardCells(cells: seq<Option<ElementId>>, cells': seq<Option<ElementId>>, c: nat, c': nat,
                     elms: seq<Option<ElementId>>, first: int, last: int, t: nat, f: int -> Option<ElementId>)
    requires |cells'| == |cells| && c < |cells| && 0 < t < |cells| && |elms| == t
    requires last == first + |cells| - 1 && c' == Offset(c, t, |cells|)
    requires forall k :: 0 <= k < |cells| ==> cells[Offset(c, k, |cells|)] == f(first + k)
    requires forall k :: 0 <= k < t ==> elms[k] == f(last + 1 + k)
    requires forall k :: 0 <= k < |cells| ==>
               cells'[Offset(c, k, |cells|)] == if k < |elms| then elms[k] else cells[Offset(c, k, |cells|)]
    ensures forall j :: 0 <= j < |cells| ==> cells'[Offset(c', j, |cells|)] == f(first + t + j)
  {
    var n := |cells|;
    forall j | 0 <= j < n
      ensures cells'[Offset(c', j, n)] == f(first + t + j)
    {
      if t + j < n {
        OffsetCompose(c, t, j, t + j, n);
      } else {
        OffsetCompose(c, t, j, t + j - n, n);
      }
    }
  }

  /** A backward shift by less than a buffer's worth keeps the slots aligned. */
  lemma ShiftBackwardAligned(w: Window, m: int, f: int -> Option<ElementId>)
    requires Valid(w.ring) && Aligned(w, f) && 0 < m < |w.ring.cells|
    ensures Aligned(Window(w.first - m, w.last - m, ShiftRing(w.ring, w.first, w.last, -m, f)), f)
  {
    ProducedDescending(f, w.first - 1, m);
    WriteBackwardAligned(w, Produce(f, Descending(w.first - 1, m)), f);
  }

  /** Backward writes of the elements of the `|elms|` indices before the window keep it aligned. */
  lemma WriteBackwardAligned(w: Window, elms: seq<Option<ElementId>>, f: int -> Option<ElementId>)
    requires Valid(w.ring) && Aligned(w, f) && 0 < |elms| < |w.ring.cells|
    requires forall k :: 0 <= k < |elms| ==> elms[k] == f(w.first - 1 - k)
    ensures Aligned(Window(w.first - |elms|, w.last - |elms|, WriteAllBefore(w.ring, elms)), f)
  {
    WriteAllBeforePlacement(w.ring, elms);
    BackwardWindowAligned(w, WriteAllBefore(w.ring, elms), elms, f);
  }

  /**
    The window moved back by `|elms|` over slots `r'` in which the backward writes of
    `elms` have been placed is aligned.
   */
  lemma BackwardWindowAligned(w: Window, r': Ring, elms: seq<Option<ElementId>>, f: int -> Option<ElementId>)
    requires Valid(w.ring) && Valid(r') && |r'.cells| == |w.ring.cells|
    requires Aligned(w, f) && 0 < |elms| < |w.ring.cells|
    requires forall k :: 0 <= k < |elms| ==> elms[k] == f(w.first - 1 - k)
    requires r'.cursor == Offset(w.ring.cursor, -|elms|, |w.ring.cells|)
    requires forall k :: 0 <= k + |w.ring.cells| && k < 0 ==>
               r'.cells[Offset(w.ring.cursor, k, |w.ring.cells|)] ==
                 if k + |elms| >= 0 then elms[-k - 1] else w.ring.cells[Offset(w.ring.cursor, k, |w.ring.cells|)]
    ensures Aligned(Window(w.first - |elms|, w.last - |elms|, r'), f)
  {
    BackwardCells(w.ring.cells, r'.cells, w.ring.cursor, r'.cursor, elms, w.first, |elms|, f);
  }

  /**
    The slots of `ShiftBackwardAligned`: the `m` new elements fill the slots of the
    indices that left the bottom of the window, so the window moved back by `m` is
    aligned at the cursor `m` slots back.
   */
  lemma BackwardCells(cells: seq<Option<ElementId>>, cells': seq<Option<ElementId>>, c: nat, c': nat,
                      elms: seq<Option<ElementId>>, first: int, m: int, f: int -> Option<ElementId>)
    requires |cells'| == |cells| && c < |cells| && 0 < m < |cells| && |elms| == m
    requires c' == Offset(c, -m, |cells|)
    requires forall k :: 0 <= k < |cells| ==> cells[Offset(c, k, |cells|)] == f(first + k)
    requires forall k :: 0 <= k < m ==> elms[k] == f(first - 1 - k)
    requires forall k :: 0 <= k + |cells| && k < 0 ==>
               cells'[Offset(c, k, |cells|)] == if k + |elms| >= 0 then elms[-k - 1] else cells[Offset(c, k, |cells|)]
    ensures forall j :: 0 <= j < |cells| ==> cells'[Offset(c', j, |cells|)] == f(first - m + j)
  {
    var n := |cells|;
    forall j | 0 <= j < n
      ensures cells'[Offset(c', j, n)] == f(first - m + j)
    {
      if j < m {
        OffsetCompose(c, -m, j, j - m, n);
        assert elms[m - j - 1] == f(first - 1 - (m - j - 1));
      } else {
        OffsetCompose(c, -m, j, j - m - n, n);
        OffsetCompose(c, j - m - n, 0, j - m, n);
      }
    }
  }

  /** Any shift `Decide` can choose keeps the slots aligned. */
  lemma ShiftKeepsAligned(w: Window, t: int, f: int -> Option<ElementId>)
    requires Valid(w.ring) && Aligned(w, f) && t != 0 && t < |w.ring.cells| && 0 < t + |w.ring.cells|
    ensures Aligned(Window(w.first + t, w.last + t, ShiftRing(w.ring, w.first, w.last, t, f)), f)
  {
    if t > 0 {
      ShiftForwardAligned(w, t, f);
    } else {
      ShiftBackwardAligned(w, -t, f);
    }
  }

  /** Every scroll event keeps a realigned window aligned. */
  lemma MoveRealignedKeepsAligned(w: Window, v: int, d: int, outside: nat, length: nat, start: int,
                                  f: int -> Option<ElementId>)
    requires Valid(w.ring) && Aligned(w, f) && NoElementPastEnd(f, length)
    ensures Aligned(MoveWindowRealigned(w, v, d, outside, |w.ring.cells|, start, length, f), f)
  {
    var n := |w.ring.cells|;
    var p := Decide(v, d, w.first, w.last, outside, n);
    var w' := MoveWindowRealigned(w, v, d, outside, n, start, length, f);
    if p.Shift? {
      var t := p.toUpdate;
      ShiftKeepsAligned(w, t, f);
      AlignedSame(Window(w.first + t, w.last + t, ShiftRing(w.ring, w.first, w.last, t, f)), w', f);
    } else if p.Rebuild? {
      RealignedRebuildAligned(w.ring, start, length, f);
      AlignedSame(RebuildWindowRealigned(w.ring, start, n, length, f), w', f);
    } else {
      AlignedSame(w, w', f);
    }
  }

  /** Alignment of a window carries over to the same window under another name. */
  lemma AlignedSame(w: Window, w': Window, f: int -> Option<ElementId>)
    requires Valid(w.ring) && Aligned(w, f) && w' == w
    ensures Valid(w'.ring) && Aligned(w', f)
  {
  }

  /**
    The windows after scroll events whose first visible indices are `vs`, each rebuild
    starting half the margin before the visible range, as `onScrollUpdate` leaves them.
   */
  function Run(w: Window, vs: seq<int>, d: int, outside: nat, length: nat, f: int -> Option<ElementId>): (w': Window)
    requires Valid(w.ring)
    ensures Valid(w'.ring) && |w'.ring.cells| == |w.ring.cells|
    decreases |vs|
  {
    if vs == [] then w
    else Run(MoveWindow(w, vs[0], d, outside, |w.ring.cells|, RebuildStart(vs[0], outside), length, f),
             vs[1..], d, outside, length, f)
  }

  /** `Run` with the realigned rebuild. */
  function RunRealigned(w: Window, vs: seq<int>, d: int, outside: nat, length: nat, f: int -> Option<ElementId>): (w': Window)
    requires Valid(w.ring)
    ensures Valid(w'.ring) && |w'.ring.cells| == |w.ring.cells|
    decreases |vs|
  {
    if vs == [] then w
    else RunRealigned(MoveWindowRealigned(w, vs[0], d, outside, |w.ring.cells|, RebuildStart(vs[0], outside), length, f),
                      vs[1..], d, outside, length, f)
  }

  /** With the realigned rebuild, the slots stay aligned however the list is scrolled. */
  lemma {:induction false} RunRealignedAligned(w: Window, vs: seq<int>, d: int, outside: nat, length: nat,
                                               f: int -> Option<ElementId>)
    requires Valid(w.ring) && Aligned(w, f) && NoElementPastEnd(f, length)
    ensures Aligned(RunRealigned(w, vs, d, outside, length, f), f)
    decreases |vs|
  {
    if vs != [] {
      var n := |w.ring.cells|;
      var w1 := MoveWindowRealigned(w, vs[0], d, outside, n, RebuildStart(vs[0], outside), length, f);
      MoveRealignedKeepsAligned(w, vs[0], d, outside, length, RebuildStart(vs[0], outside), f);
      RunRealignedAligned(w1, vs[1..], d, outside, length, f);
    }
  }

  /** In an aligned window, every index the factory gives an element for has it attached. */
  lemma AlignedHoldsWindow(w: Window, f: int -> Option<ElementId>, i: int)
    requires Valid(w.ring) && Aligned(w, f) && w.first <= i <= w.last && f(i).Some?
    ensures f(i).value in Occupants(w.ring.cells)
  {
    var n := |w.ring.cells|;
    var slot := Offset(w.ring.cursor, i - w.first, n);
    assert slot in SlotsHolding(w.ring.cells, f(i).value);
    RemovedOncePerSlot(w.ring.cells, f(i).value);
  }

  /** A factory that has an element for each of the indices 0 to 9 and none elsewhere. */
  function TenItems(i: int): Option<ElementId> {
    if 0 <= i < 10 then Some(i) else None
  }

  /**
    The library as written, with ten items of height 10, a 20-pixel viewport (three
    displayed items) and a margin of 2, so five slots. Built at scroll offset 0, then
    scrolled to 70, 50, 30 and 50 (first visible items 7, 5, 3 and 5). The rebuild at 70
    stops after four writes, and from then on the shifts write one slot off. At the end
    item 6 is visible and inside the window, but no slot holds it.
   */
  lemma TruncatedRebuildLeavesGap()
    ensures var w0 := RebuildWindow(Ring(EmptyCells(5), 0, []), RebuildStart(0, 2), 5, 10, TenItems);
            var w := Run(w0, [7, 5, 3, 5], 3, 2, 10, TenItems);
            Covered(5, 3, w.first, w.last) && w.first <= 6 <= w.last && TenItems(6) == Some(6) &&
            Some(6) !in w.ring.cells
  {
    var f := TenItems;
    var w0 := RebuildWindow(Ring(EmptyCells(5), 0, []), RebuildStart(0, 2), 5, 10, f);
    GapBuilt();
    var w1 := MoveWindow(w0, 7, 3, 2, 5, RebuildStart(7, 2), 10, f);
    GapRebuiltAtEnd(w0.ring.detached);
    var w2 := MoveWindow(w1, 5, 3, 2, 5, RebuildStart(5, 2), 10, f);
    GapFirstBack(w1.ring.detached);
    var w3 := MoveWindow(w2, 3, 3, 2, 5, RebuildStart(3, 2), 10, f);
    GapSecondBack(w2.ring.detached);
    var w4 := MoveWindow(w3, 5, 3, 2, 5, RebuildStart(5, 2), 10, f);
    GapForward(w3.ring.detached);
    assert Run(w0, [7, 5, 3, 5], 3, 2, 10, f) == Run(w1, [5, 3, 5], 3, 2, 10, f) by {
      assert [7, 5, 3, 5][1..] == [5, 3, 5];
    }
    assert Run(w1, [5, 3, 5], 3, 2, 10, f) == Run(w2, [3, 5], 3, 2, 10, f) by {
      assert [5, 3, 5][1..] == [3, 5];
    }
    assert Run(w2, [3, 5], 3, 2, 10, f) == Run(w3, [5], 3, 2, 10, f) by {
      assert [3, 5][1..] == [5];
    }
    assert Run(w3, [5], 3, 2, 10, f) == w4 by {
      assert [5][1..] == [];
    }
  }

  /** The slots after the build at offset 0: indices -1 to 3, the first one past nothing. */
  lemma GapBuilt()
    ensures var w := RebuildWindow(Ring(EmptyCells(5), 0, []), RebuildStart(0, 2), 5, 10, TenItems);
            w == Window(-1, 3, Ring([None, Some(0), Some(1), Some(2), Some(3)], 0, w.ring.detached))
  {
    var r := Ring(EmptyCells(5), 0, []);
    var w := RebuildWindow(r, -1, 5, 10, TenItems);
    RebuildPlacement(r, -1, 10, TenItems);
    forall k | 0 <= k < 5
      ensures w.ring.cells[k] == [None, Some(0), Some(1), Some(2), Some(3)][k]
    {
      assert Offset(0, k, 5) == k;
    }
  }

  /** The rebuild at first visible item 7 writes items 6 to 9 and stops one slot short. */
  lemma GapRebuiltAtEnd(det: seq<ElementId>)
    ensures var w := Window(-1, 3, Ring([None, Some(0), Some(1), Some(2), Some(3)], 0, det));
            var w' := MoveWindow(w, 7, 3, 2, 5, RebuildStart(7, 2), 10, TenItems);
            w' == Window(6, 10, Ring([Some(6), Some(7), Some(8), Some(9), None], 4, w'.ring.detached))
  {
    var r := Ring([None, Some(0), Some(1), Some(2), Some(3)], 0, det);
    assert Decide(7, 3, -1, 3, 2, 5) == Rebuild;
    var r' := RebuildRing(r, 6, 5, 10, TenItems);
    RebuildPlacement(r, 6, 10, TenItems);
    forall k | 0 <= k < 5
      ensures r'.cells[k] == [Some(6), Some(7), Some(8), Some(9), None][k]
    {
      assert Offset(0, k, 5) == k;
    }
  }

  /** Back to first visible item 5: items 5 and 4 go into the two slots before the cursor. */
  lemma GapFirstBack(det: seq<ElementId>)
    ensures var w := Window(6, 10, Ring([Some(6), Some(7), Some(8), Some(9), None], 4, det));
            var w' := MoveWindow(w, 5, 3, 2, 5, RebuildStart(5, 2), 10, TenItems);
            w' == Window(4, 8, Ring([Some(6), Some(7), Some(4), Some(5), None], 2, w'.ring.detached))
  {
    var r := Ring([Some(6), Some(7), Some(8), Some(9), None], 4, det);
    assert Decide(5, 3, 6, 10, 2, 5) == Plan.Shift(-2);
    var elms := Produce(TenItems, ShiftIndices(6, 10, -2));
    ProducedDescending(TenItems, 5, 2);
    assert elms[0] == [Some(5), Some(4)][0] && elms[1] == [Some(5), Some(4)][1];
    assert elms == [Some(5), Some(4)];
    var r1 := WriteBefore(r, Some(5));
    assert r1.cells == [Some(6), Some(7), Some(8), Some(5), None] && r1.cursor == 3;
    var r2 := WriteBefore(r1, Some(4));
    assert r2.cells == [Some(6), Some(7), Some(4), Some(5), None] && r2.cursor == 2;
    assert WriteAllBefore(r, elms) == r2 by {
      assert elms[..1] == [Some(5)];
      assert WriteAllBefore(r, [Some(5)]) == r1 by {
        assert [Some(5)][..0] == [];
      }
    }
    assert ShiftRing(r, 6, 10, -2, TenItems) == r2;
  }

  /** Back to first visible item 3: items 3 and 2 go into the next two slots back. */
  lemma GapSecondBack(det: seq<ElementId>)
    ensures var w := Window(4, 8, Ring([Some(6), Some(7), Some(4), Some(5), None], 2, det));
            var w' := MoveWindow(w, 3, 3, 2, 5, RebuildStart(3, 2), 10, TenItems);
            w' == Window(2, 6, Ring([Some(2), Some(3), Some(4), Some(5), None], 0, w'.ring.detached))
  {
    var r := Ring([Some(6), Some(7), Some(4), Some(5), None], 2, det);
    assert Decide(3, 3, 4, 8, 2, 5) == Plan.Shift(-2);
    var elms := Produce(TenItems, ShiftIndices(4, 8, -2));
    ProducedDescending(TenItems, 3, 2);
    assert elms[0] == [Some(3), Some(2)][0] && elms[1] == [Some(3), Some(2)][1];
    assert elms == [Some(3), Some(2)];
    var r1 := WriteBefore(r, Some(3));
    assert r1.cells == [Some(6), Some(3), Some(4), Some(5), None] && r1.cursor == 1;
    var r2 := WriteBefore(r1, Some(2));
    assert r2.cells == [Some(2), Some(3), Some(4), Some(5), None] && r2.cursor == 0;
    assert WriteAllBefore(r, elms) == r2 by {
      assert elms[..1] == [Some(3)];
      assert WriteAllBefore(r, [Some(3)]) == r1 by {
        assert [Some(3)][..0] == [];
      }
    }
    assert ShiftRing(r, 4, 8, -2, TenItems) == r2;
  }

  /** Forward to first visible item 5: items 7 and 8 overwrite items 2 and 3, and item 6 is gone. */
  lemma GapForward(det: seq<ElementId>)
    ensures var w := Window(2, 6, Ring([Some(2), Some(3), Some(4), Some(5), None], 0, det));
            var w' := MoveWindow(w, 5, 3, 2, 5, RebuildStart(5, 2), 10, TenItems);
            w' == Window(4, 8, Ring([Some(7), Some(8), Some(4), Some(5), None], 2, w'.ring.detached))
  {
    var r := Ring([Some(2), Some(3), Some(4), Some(5), None], 0, det);
    assert Decide(5, 3, 2, 6, 2, 5) == Plan.Shift(2);
    var elms := Produce(TenItems, ShiftIndices(2, 6, 2));
    ProducedAscending(TenItems, 7, 2);
    assert elms[0] == [Some(7), Some(8)][0] && elms[1] == [Some(7), Some(8)][1];
    assert elms == [Some(7), Some(8)];
    var r1 := WriteAfter(r, Some(7));
    assert r1.cells == [Some(7), Some(3), Some(4), Some(5), None] && r1.cursor == 1;
    var r2 := WriteAfter(r1, Some(8));
    assert r2.cells == [Some(7), Some(8), Some(4), Some(5), None] && r2.cursor == 2;
    assert WriteAllAfter(r, elms) == r2 by {
      assert elms[..1] == [Some(7)];
      assert WriteAllAfter(r, [Some(7)]) == r1 by {
        assert [Some(7)][..0] == [];
      }
    }
    assert ShiftRing(r, 2, 6, 2, TenItems) == r2;
  }
}
