/**
  The window tracker as values: which indices are materialised (`firstIndexDisplayed`
  to `lastIndexDisplayed`), what a new first visible index asks of it (nothing, a shift
  at one edge, or a rebuild), which indices the element factory is asked for, and what
  each of those does to the ring of slots.
 */
module Tracker {
  import opened Wrappers
  import opened Recycler

  /** What a scroll to a new first visible index does to the window. */
  datatype Plan = Keep | Shift(toUpdate: int) | Rebuild

  /** The visible range `[v, v + d - 1]` lies inside the window `[first, last]`. */
  predicate Covered(v: int, d: int, first: int, last: int) {
    first <= v && v + d - 1 <= last
  }

  /**
    The signed number of indices to add at one edge: enough to bring the window back
    over the visible range and then half of the off-screen margin beyond it
    (`outsideElements >> 1`, for a non-negative margin).
   */
  function ToUpdate(v: int, d: int, first: int, last: int, outside: nat): int {
    if v < first then -(first - v + outside / 2)
    else if v + d - 1 > last then v + d - 1 - last + outside / 2
    else 0
  }

  /**
    The scroll handler's choice: nothing while the visible range is covered, a rebuild
    when the shift would touch at least a buffer's worth of slots, a shift otherwise.
   */
  function Decide(v: int, d: int, first: int, last: int, outside: nat, needed: nat): (p: Plan)
    ensures p.Keep? <==> Covered(v, d, first, last)
    ensures p.Shift? ==> p.toUpdate != 0 && p.toUpdate < needed && 0 < p.toUpdate + needed
    ensures p.Shift? ==> (p.toUpdate < 0 <==> v < first)
    ensures p.Rebuild? ==> var t := ToUpdate(v, d, first, last, outside); t >= needed || -t >= needed
  {
    if v < first || v + d - 1 > last then
      var t := ToUpdate(v, d, first, last, outside);
      if t >= needed || -t >= needed then Rebuild else Shift(t)
    else
      Keep
  }

  /** The first index of a rebuilt window: half the margin before the first visible item. */
  function RebuildStart(firstVisible: int, outside: nat): int {
    firstVisible - outside / 2
  }

  /** The window bounds after a plan is carried out. */
  function WindowAfter(p: Plan, v: int, first: int, last: int, outside: nat, needed: nat): (int, int) {
    match p
    case Keep => (first, last)
    case Shift(t) => (first + t, last + t)
    case Rebuild => (RebuildStart(v, outside), RebuildStart(v, outside) + needed - 1)
  }

  /**
    Whatever the plan, afterwards the window has its full size and covers the visible
    range; after a move, half of the margin lies ahead of the visible range in the
    direction of travel. So a second scroll event at the same offset is a no-op.
   */
  lemma MoveCoversVisible(v: int, d: int, first: int, last: int, outside: nat, needed: nat)
    requires d >= 1 && needed == d + outside && last - first + 1 == needed
    ensures var p := Decide(v, d, first, last, outside, needed);
            var w := WindowAfter(p, v, first, last, outside, needed);
            Covered(v, d, w.0, w.1) && w.1 - w.0 + 1 == needed &&
            Decide(v, d, w.0, w.1, outside, needed) == Keep &&
            (p.Shift? && p.toUpdate > 0 ==> w.1 == v + d - 1 + outside / 2) &&
            (p.Shift? && p.toUpdate < 0 ==> w.0 == v - outside / 2) &&
            (p.Rebuild? ==> w.0 == v - outside / 2)
  {
  }

  /** `count` consecutive indices upward from `from`. */
  function Ascending(from: int, count: nat): (s: seq<int>)
    ensures |s| == count && forall k :: 0 <= k < count ==> s[k] == from + k
  {
    if count == 0 then [] else Ascending(from, count - 1) + [from + count - 1]
  }

  /** `count` consecutive indices downward from `from`. */
  function Descending(from: int, count: nat): (s: seq<int>)
    ensures |s| == count && forall k :: 0 <= k < count ==> s[k] == from - k
  {
    if count == 0 then [] else Descending(from, count - 1) + [from - (count - 1)]
  }

  /**
    The indices a shift asks the factory for: the `t` indices just past the last one
    going up, or the `-t` indices just before the first one going down.
   */
  function ShiftIndices(first: int, last: int, t: int): (s: seq<int>)
    ensures t >= 0 ==> |s| == t
    ensures t < 0 ==> |s| == -t
    ensures t > 0 ==> forall k :: 0 <= k < |s| ==> s[k] == last + 1 + k
    ensures t < 0 ==> forall k :: 0 <= k < |s| ==> s[k] == first - 1 - k
  {
    if t > 0 then Ascending(last + 1, t) else Descending(first - 1, -t)
  }

  /** How many indices a rebuild from `from` creates before it stops at the buffer size or the list end. */
  function RebuildCount(from: int, needed: nat, length: nat): nat {
    if from >= length then 0 else if needed <= length - from then needed else length - from
  }

  /**
    The indices a rebuild asks the factory for: consecutive from `from` (which may be
    negative), at most `needed` of them, none at or past the list end, and it stops
    early only at the list end.
   */
  function RebuildIndices(from: int, needed: nat, length: nat): (s: seq<int>)
    ensures |s| <= needed
    ensures forall k :: 0 <= k < |s| ==> s[k] == from + k && s[k] < length
    ensures |s| == needed || from + |s| >= length
  {
    Ascending(from, RebuildCount(from, needed, length))
  }

  /** The factory's result for each index, in order. */
  function Produce(f: int -> Option<ElementId>, indices: seq<int>): seq<Option<ElementId>> {
    seq(|indices|, k requires 0 <= k < |indices| => f(indices[k]))
  }

  /** A shift by `t`: forward writes for `t > 0`, backward writes otherwise. */
  function ShiftRing(r: Ring, first: int, last: int, t: int, f: int -> Option<ElementId>): (r': Ring)
    requires Valid(r)
    ensures Valid(r') && |r'.cells| == |r.cells|
  {
    var elms := Produce(f, ShiftIndices(first, last, t));
    if t > 0 then WriteAllAfter(r, elms) else WriteAllBefore(r, elms)
  }

  /** A rebuild as the library performs it: clear every slot, then write forward from the cursor. */
  function RebuildRing(r: Ring, from: int, needed: nat, length: nat, f: int -> Option<ElementId>): (r': Ring)
    requires Valid(r)
    ensures Valid(r') && |r'.cells| == |r.cells|
  {
    WriteAllAfter(ClearAll(r), Produce(f, RebuildIndices(from, needed, length)))
  }

  /** The materialised window `[first, last]` together with the slots holding it. */
  datatype Window = Window(first: int, last: int, ring: Ring)

  /**
    The window after a rebuild from `start` over the slots `r`: a buffer's worth of
    indices from `start`, the slots as `RebuildRing` leaves them.
   */
  function RebuildWindow(r: Ring, start: int, needed: nat, length: nat, f: int -> Option<ElementId>): (w: Window)
    requires Valid(r)
    ensures Valid(w.ring) && |w.ring.cells| == |r.cells|
    ensures w.first == start && w.last - w.first + 1 == needed
  {
    Window(start, start + needed - 1, RebuildRing(r, start, needed, length, f))
  }

  /**
    The window after a scroll whose first visible index is `v`: kept, shifted by
    `ShiftRing`, or rebuilt from `start`, as `Decide` says.
   */
  function MoveWindow(w: Window, v: int, d: int, outside: nat, needed: nat,
                      start: int, length: nat, f: int -> Option<ElementId>): (w': Window)
    requires Valid(w.ring)
    ensures Valid(w'.ring) && |w'.ring.cells| == |w.ring.cells|
  {
    match Decide(v, d, w.first, w.last, outside, needed)
    case Keep => w
    case Shift(t) => Window(w.first + t, w.last + t, ShiftRing(w.ring, w.first, w.last, t, f))
    case Rebuild => RebuildWindow(w.ring, start, needed, length, f)
  }

  /**
    After a move from a full-size window, with a rebuild starting half the margin
    before the visible range, the window keeps its size and covers the visible range,
    so a second move to the same index changes nothing.
   */
  lemma MoveWindowCovers(w: Window, v: int, d: int, outside: nat, needed: nat, length: nat, f: int -> Option<ElementId>)
    requires Valid(w.ring) && d >= 1 && needed == d + outside && w.last - w.first + 1 == needed
    ensures var w' := MoveWindow(w, v, d, outside, needed, RebuildStart(v, outside), length, f);
            Covered(v, d, w'.first, w'.last) && w'.last - w'.first + 1 == needed &&
            MoveWindow(w', v, d, outside, needed, RebuildStart(v, outside), length, f) == w'
  {
    MoveCoversVisible(v, d, w.first, w.last, outside, needed);
  }

  /**
    A rebuild of a buffer's worth of slots detaches each old occupant once, in slot
    order, and nothing else: the new elements all go into emptied slots.
   */
  lemma RebuildDetachesOldOccupants(r: Ring, from: int, length: nat, f: int -> Option<ElementId>)
    requires Valid(r)
    ensures RebuildRing(r, from, |r.cells|, length, f).detached == r.detached + Occupied(r.cells)
  {
    var cleared := ClearAll(r);
    var elms := Produce(f, RebuildIndices(from, |r.cells|, length));
    WriteAllAfterIntoEmpty(cleared, elms);
  }

  /**
    After a rebuild of a buffer's worth of slots the `k`-th created element sits `k`
    slots after the cursor, every later slot is empty, and the cursor ends where the
    writes stopped.
   */
  lemma RebuildPlacement(r: Ring, from: int, length: nat, f: int -> Option<ElementId>)
    requires Valid(r)
    ensures var n := |r.cells|;
            var r' := RebuildRing(r, from, n, length, f);
            var count := RebuildCount(from, n, length);
            r'.cursor == Offset(r.cursor, count, n) &&
            forall k :: 0 <= k < n ==>
              r'.cells[Offset(r.cursor, k, n)] == if k < count then f(from + k) else None
  {
    var n := |r.cells|;
    var cleared := ClearAll(r);
    var elms := Produce(f, RebuildIndices(from, n, length));
    ProducedConsecutive(f, from, n, length);
    WriteAllAfterPlacement(cleared, elms);
    FilledFromEmpty(cleared.cells, RebuildRing(r, from, n, length, f).cells, r.cursor, elms, f, from);
  }

  /** A rebuild asks the factory for `RebuildCount` consecutive indices from `from`. */
  lemma ProducedConsecutive(f: int -> Option<ElementId>, from: int, needed: nat, length: nat)
    ensures var elms := Produce(f, RebuildIndices(from, needed, length));
            |elms| == RebuildCount(from, needed, length) &&
            forall k :: 0 <= k < |elms| ==> elms[k] == f(from + k)
  {
  }

  /**
    The slot contents of `RebuildPlacement`: forward writes of `f(from)`, `f(from + 1)`, …
    into empty slots leave those values after the cursor and nothing in the rest.
   */
  lemma FilledFromEmpty(cells: seq<Option<ElementId>>, cells': seq<Option<ElementId>>, c: nat,
                        elms: seq<Option<ElementId>>, f: int -> Option<ElementId>, from: int)
    requires c < |cells| && |cells'| == |cells| && |elms| <= |cells|
    requires forall i :: 0 <= i < |cells| ==> cells[i] == None
    requires forall k :: 0 <= k < |elms| ==> elms[k] == f(from + k)
    requires forall k :: 0 <= k < |cells| ==>
               cells'[Offset(c, k, |cells|)] == if k < |elms| then elms[k] else cells[Offset(c, k, |cells|)]
    ensures forall k :: 0 <= k < |cells| ==>
              cells'[Offset(c, k, |cells|)] == if k < |elms| then f(from + k) else None
  {
  }
}
