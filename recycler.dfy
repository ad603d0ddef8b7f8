/**
  The slot recycler as values: a fixed-length ring of slots, each empty or holding one
  rendered element, a cursor into it, and the log of every element the recycler has
  detached, in order; and how the children of the container the elements are attached
  to follow the slots. The class in module Engine keeps these in an array and fields
  and is specified by the functions here.
 */
module Recycler {
  import opened Wrappers

  /** A label for a rendered element, as returned by the element factory; two calls
      that return the same label stand for two distinct new elements. */
  type ElementId = int

  /** The container's `appendChild`. */
  function Append(children: multiset<ElementId>, e: ElementId): multiset<ElementId> {
    children + multiset{e}
  }

  /** The container's `replaceChild(e, previous)`. */
  function Replace(children: multiset<ElementId>, previous: ElementId, e: ElementId): multiset<ElementId> {
    children - multiset{previous} + multiset{e}
  }

  /** An element's `remove()` from the container. */
  function Remove(children: multiset<ElementId>, e: ElementId): multiset<ElementId> {
    children - multiset{e}
  }

  datatype Ring = Ring(
    cells: seq<Option<ElementId>>,
    cursor: nat,
    detached: seq<ElementId>)

  /** The buffer is never empty and the cursor always points into it. */
  predicate Valid(r: Ring) {
    0 < |r.cells| && r.cursor < |r.cells|
  }

  /** The element a slot holds, as a sequence of zero or one elements. */
  function Held(slot: Option<ElementId>): seq<ElementId> {
    if slot.Some? then [slot.value] else []
  }

  /** The element a slot holds, counted once, or nothing. */
  function HeldOnce(slot: Option<ElementId>): multiset<ElementId> {
    if slot.Some? then multiset{slot.value} else multiset{}
  }

  /** The elements held by the slots, in slot order; one entry per occupied slot. */
  function Occupied(cells: seq<Option<ElementId>>): seq<ElementId> {
    if |cells| == 0 then [] else Occupied(cells[..|cells| - 1]) + Held(cells[|cells| - 1])
  }

  /** The elements held by the slots, counted with multiplicity. */
  function Occupants(cells: seq<Option<ElementId>>): multiset<ElementId> {
    if |cells| == 0 then multiset{} else Occupants(cells[..|cells| - 1]) + HeldOnce(cells[|cells| - 1])
  }

  /** The slots' contents in slot order and counted with multiplicity agree. */
  lemma {:induction false} OccupantsInOrder(cells: seq<Option<ElementId>>)
    ensures multiset(Occupied(cells)) == Occupants(cells)
  {
    if cells != [] {
      OccupantsInOrder(cells[..|cells| - 1]);
    }
  }

  function EmptyCells(n: nat): seq<Option<ElementId>> {
    seq(n, _ => None)
  }

  /**
    Position `k` steps from `c` around a ring of `n` slots (`k` may be negative), written
    without `%` so that the solver reasons about it linearly.
   */
  function Offset(c: nat, k: int, n: nat): (p: nat)
    requires c < n && 0 <= k + n && k <= n
    ensures p < n
    ensures p == c + k || p == c + k - n || p == c + k + n
  {
    if c + k >= n then c + k - n else if c + k < 0 then c + k + n else c + k
  }

  /** The cursor after a forward write: one step on, from `n - 1` back to 0. */
  function NextPointer(p: nat, n: nat): (q: nat)
    requires p < n
    ensures q < n && q == Offset(p, 1, n)
  {
    if p + 1 == n then 0 else p + 1
  }

  /** The forward step is the library's `(p + 1) % n`. */
  lemma NextPointerIsRemainder(p: nat, n: nat)
    requires p < n
    ensures NextPointer(p, n) == (p + 1) % n
  {
  }

  /** The cursor before a backward write: one step back, from 0 to `n - 1`. */
  function PrevPointer(p: nat, n: nat): (q: nat)
    requires p < n
    ensures q < n && q == Offset(p, -1, n)
  {
    if p == 0 then n - 1 else p - 1
  }

  /** A step forward and a step back return the cursor to where it was, in either order. */
  lemma PointerStepsInverse(p: nat, n: nat)
    requires p < n
    ensures PrevPointer(NextPointer(p, n), n) == p
    ensures NextPointer(PrevPointer(p, n), n) == p
  {
  }

  /** Two steps around the ring add up, whichever way round they wrap. */
  lemma OffsetCompose(c: nat, a: int, b: int, d: int, n: nat)
    requires c < n && 0 <= a + n && a <= n && 0 <= b + n && b <= n && 0 <= d + n && d <= n
    requires d == a + b || d == a + b - n || d == a + b + n
    ensures Offset(Offset(c, a, n), b, n) == Offset(c, d, n)
  {
  }

  /** Two offsets less than a full turn apart name different slots. */
  lemma OffsetInjective(c: nat, a: int, b: int, n: nat)
    requires c < n && 0 <= a + n && a <= n && 0 <= b + n && b <= n
    requires a - b < n && b - a < n
    ensures Offset(c, a, n) == Offset(c, b, n) <==> a == b
  {
  }

  /**
    What the container sees when a slot that held `previous` is given `elm`: the new
    element replaces the old one, or is appended to an empty slot; without a new
    element, the old one is removed.
   */
  function Attach(children: multiset<ElementId>, previous: Option<ElementId>, elm: Option<ElementId>): multiset<ElementId> {
    if elm.Some? then
      if previous.Some? then Replace(children, previous.value, elm.value) else Append(children, elm.value)
    else if previous.Some? then Remove(children, previous.value)
    else children
  }

  /** Slot `at` is given `elm`; its old occupant, if any, leaves the container. */
  function Store(r: Ring, at: nat, elm: Option<ElementId>): Ring
    requires at < |r.cells|
  {
    Ring(r.cells[at := elm], r.cursor, r.detached + Held(r.cells[at]))
  }

  /** Write at the cursor, then advance it. */
  function WriteAfter(r: Ring, elm: Option<ElementId>): (r': Ring)
    requires Valid(r)
    ensures Valid(r') && |r'.cells| == |r.cells|
  {
    Store(r, r.cursor, elm).(cursor := NextPointer(r.cursor, |r.cells|))
  }

  /** Step the cursor back, then write there. */
  function WriteBefore(r: Ring, elm: Option<ElementId>): (r': Ring)
    requires Valid(r)
    ensures Valid(r') && |r'.cells| == |r.cells|
  {
    var p := PrevPointer(r.cursor, |r.cells|);
    Store(r.(cursor := p), p, elm)
  }

  /** `WriteAfter` for each element of `elms` in turn. */
  function WriteAllAfter(r: Ring, elms: seq<Option<ElementId>>): (r': Ring)
    requires Valid(r)
    ensures Valid(r') && |r'.cells| == |r.cells|
  {
    if |elms| == 0 then r else WriteAfter(WriteAllAfter(r, elms[..|elms| - 1]), elms[|elms| - 1])
  }

  /** `WriteBefore` for each element of `elms` in turn. */
  function WriteAllBefore(r: Ring, elms: seq<Option<ElementId>>): (r': Ring)
    requires Valid(r)
    ensures Valid(r') && |r'.cells| == |r.cells|
  {
    if |elms| == 0 then r else WriteBefore(WriteAllBefore(r, elms[..|elms| - 1]), elms[|elms| - 1])
  }

  /** Writing one more element forward extends the writes so far. */
  lemma WriteAllAfterStep(r: Ring, elms: seq<Option<ElementId>>, i: nat)
    requires Valid(r) && i < |elms|
    ensures WriteAllAfter(r, elms[..i + 1]) == WriteAfter(WriteAllAfter(r, elms[..i]), elms[i])
  {
    assert elms[..i + 1][..i] == elms[..i];
  }

  /** Writing one more element backward extends the writes so far. */
  lemma WriteAllBeforeStep(r: Ring, elms: seq<Option<ElementId>>, i: nat)
    requires Valid(r) && i < |elms|
    ensures WriteAllBefore(r, elms[..i + 1]) == WriteBefore(WriteAllBefore(r, elms[..i]), elms[i])
  {
    assert elms[..i + 1][..i] == elms[..i];
  }

  /** Every occupied slot's element is removed, in slot order, and every slot is emptied. */
  function ClearAll(r: Ring): Ring {
    Ring(EmptyCells(|r.cells|), r.cursor, r.detached + Occupied(r.cells))
  }

  /** Slots that are all empty hold nothing. */
  lemma {:induction false} NothingOccupied(cells: seq<Option<ElementId>>)
    requires forall i :: 0 <= i < |cells| ==> cells[i] == None
    ensures Occupied(cells) == [] && Occupants(cells) == multiset{}
  {
    if cells != [] {
      NothingOccupied(cells[..|cells| - 1]);
    }
  }

  /** The last slot's element is counted after the others. */
  lemma OccupantsSnoc(cells: seq<Option<ElementId>>)
    requires cells != []
    ensures Occupants(cells) == Occupants(cells[..|cells| - 1]) + HeldOnce(cells[|cells| - 1])
  {
  }

  /** One slot further along, the prefix's elements gain that slot's element, if any. */
  lemma OccupiedStep(cells: seq<Option<ElementId>>, i: nat)
    requires i < |cells|
    ensures Occupied(cells[..i + 1]) == Occupied(cells[..i]) + Held(cells[i])
  {
    assert cells[..i + 1][..i] == cells[..i];
  }

  /**
    Giving slot `i` the value `v` takes its old occupant out of the slots' contents and
    puts `v`'s element in.
   */
  lemma {:induction false} OccupantsUpdate(cells: seq<Option<ElementId>>, i: nat, v: Option<ElementId>)
    requires i < |cells|
    ensures Occupants(cells[i := v]) + HeldOnce(cells[i]) == Occupants(cells) + HeldOnce(v)
  {
    var last := |cells| - 1;
    if i == last {
      OccupantsUpdateLast(cells, v);
    } else {
      var pre := cells[..last];
      OccupantsUpdate(pre, i, v);
      OccupantsUpdateInner(cells, i, v, pre, cells[i := v]);
    }
  }

  lemma OccupantsUpdateLast(cells: seq<Option<ElementId>>, v: Option<ElementId>)
    requires cells != []
    ensures var last := |cells| - 1;
      Occupants(cells[last := v]) + HeldOnce(cells[last]) == Occupants(cells) + HeldOnce(v)
  {
    var last := |cells| - 1;
    var updated := cells[last := v];
    OccupantsSnoc(cells);
    OccupantsSnoc(updated);
    assert updated[..last] == cells[..last];
  }

  lemma OccupantsUpdateInner(cells: seq<Option<ElementId>>, i: nat, v: Option<ElementId>,
                             pre: seq<Option<ElementId>>, updated: seq<Option<ElementId>>)
    requires i < |cells| - 1
    requires pre == cells[..|cells| - 1] && updated == cells[i := v]
    requires Occupants(pre[i := v]) + HeldOnce(pre[i]) == Occupants(pre) + HeldOnce(v)
    ensures Occupants(updated) + HeldOnce(cells[i]) == Occupants(cells) + HeldOnce(v)
  {
    var last := |cells| - 1;
    OccupantsSnoc(cells);
    OccupantsSnoc(updated);
    assert updated[..last] == pre[i := v];
    assert updated[last] == cells[last];
    assert pre[i] == cells[i];
    ShuffleUnion(Occupants(pre[i := v]), HeldOnce(cells[i]), Occupants(pre), HeldOnce(v),
      HeldOnce(cells[last]));
  }

  lemma ShuffleUnion<T>(a: multiset<T>, b: multiset<T>, c: multiset<T>, d: multiset<T>, t: multiset<T>)
    requires a + b == c + d
    ensures a + t + b == c + t + d
  {
    forall x ensures (a + t + b)[x] == (c + t + d)[x] {
      assert (a + b)[x] == (c + d)[x];
    }
  }

  /** The container effect of a slot write is: take the old occupant out, put the new element in. */
  lemma AttachSwaps(children: multiset<ElementId>, previous: Option<ElementId>, elm: Option<ElementId>)
    ensures Attach(children, previous, elm) == children - HeldOnce(previous) + HeldOnce(elm)
  {
    var swapped := children - HeldOnce(previous) + HeldOnce(elm);
    forall x ensures Attach(children, previous, elm)[x] == swapped[x] {
    }
  }

  /**
    The container holds the slots' elements plus some `orphaned` ones, counted as a
    multiset. Giving a slot a new value changes those as the container call the library
    makes for it: a replace, an append or a removal. An element is taken to be new and
    not yet attached; a DOM move of an attached node is not modelled.
   */
  lemma StoreAttaches(cells: seq<Option<ElementId>>, at: nat, elm: Option<ElementId>, orphaned: multiset<ElementId>)
    requires at < |cells|
    ensures Occupants(cells[at := elm]) + orphaned == Attach(Occupants(cells) + orphaned, cells[at], elm)
  {
    OccupantsUpdate(cells, at, elm);
    OccupantsUpdate(cells, at, None);
    assert HeldOnce(None) == multiset{};
    AttachSwaps(Occupants(cells) + orphaned, cells[at], elm);
    SwapCounts(Occupants(cells[at := elm]), HeldOnce(cells[at]), Occupants(cells), HeldOnce(elm),
      Occupants(cells[at := None]), orphaned);
  }

  /**
    If `updated` is `current` with `previous` swapped for `next`, and `previous` is
    part of `current`, the swap can be made after adding `extra` instead.
   */
  lemma SwapCounts(updated: multiset<ElementId>, previous: multiset<ElementId>, current: multiset<ElementId>,
                   next: multiset<ElementId>, rest: multiset<ElementId>, extra: multiset<ElementId>)
    requires updated + previous == current + next
    requires rest + previous == current
    ensures updated + extra == current + extra - previous + next
  {
    forall x ensures (updated + extra)[x] == (current + extra - previous + next)[x] {
      assert (updated + previous)[x] == (current + next)[x];
      assert (rest + previous)[x] == current[x];
    }
  }

  /**
    A forward write changes the container as `addDataElementAfter` does: the new
    element replaces the slot's old one, is appended, or the old one is removed.
   */
  lemma WriteAfterAttaches(r: Ring, elm: Option<ElementId>, orphaned: multiset<ElementId>)
    requires Valid(r)
    ensures Occupants(WriteAfter(r, elm).cells) + orphaned == Attach(Occupants(r.cells) + orphaned, r.cells[r.cursor], elm)
  {
    StoreAttaches(r.cells, r.cursor, elm, orphaned);
  }

  /** A backward write changes the container in the same way at the slot before the cursor. */
  lemma WriteBeforeAttaches(r: Ring, elm: Option<ElementId>, orphaned: multiset<ElementId>)
    requires Valid(r)
    ensures var p := PrevPointer(r.cursor, |r.cells|);
            Occupants(WriteBefore(r, elm).cells) + orphaned == Attach(Occupants(r.cells) + orphaned, r.cells[p], elm)
  {
    StoreAttaches(r.cells, PrevPointer(r.cursor, |r.cells|), elm, orphaned);
  }

  /** Clearing slot `i`: its element, if any, is removed from the container and the slot emptied. */
  function ClearSlot(r: Ring, i: nat): (r': Ring)
    requires i < |r.cells|
    ensures r'.cells == r.cells[i := None] && r'.cursor == r.cursor
  {
    match r.cells[i]
    case None => r
    case Some(e) => Ring(r.cells[i := None], r.cursor, r.detached + [e])
  }

  /** Slots `0 .. i-1` cleared one after another, in slot order. */
  function ClearedUpTo(r: Ring, i: nat): (r': Ring)
    requires i <= |r.cells|
    ensures |r'.cells| == |r.cells| && r'.cursor == r.cursor
  {
    if i == 0 then r else ClearSlot(ClearedUpTo(r, i - 1), i - 1)
  }

  /** What slots `0 .. i-1` hold, and what was detached, once they have been cleared. */
  function PrefixCleared(r: Ring, i: nat): Ring
    requires i <= |r.cells|
  {
    Ring(EmptyCells(i) + r.cells[i..], r.cursor, r.detached + Occupied(r.cells[..i]))
  }

  /** Clearing slot by slot ends in the state `PrefixCleared` describes. */
  lemma {:induction false} ClearedUpToPrefix(r: Ring, i: nat)
    requires i <= |r.cells|
    ensures ClearedUpTo(r, i) == PrefixCleared(r, i)
  {
    if i == 0 {
      assert r.cells[..0] == [] && EmptyCells(0) + r.cells[0..] == r.cells;
    } else {
      ClearedUpToPrefix(r, i - 1);
      ClearNextSlot(r, i - 1);
    }
  }

  /** Clearing the next slot takes the cleared prefix one slot further. */
  lemma ClearNextSlot(r: Ring, i: nat)
    requires i < |r.cells|
    ensures PrefixCleared(r, i).cells[i] == r.cells[i]
    ensures ClearSlot(PrefixCleared(r, i), i) == PrefixCleared(r, i + 1)
  {
    ClearNextCells(r, i);
    ClearNextDetached(r, i);
  }

  lemma ClearNextCells(r: Ring, i: nat)
    requires i < |r.cells|
    ensures PrefixCleared(r, i).cells[i] == r.cells[i]
    ensures ClearSlot(PrefixCleared(r, i), i).cells == PrefixCleared(r, i + 1).cells
  {
    assert (EmptyCells(i) + r.cells[i..])[i := None] == EmptyCells(i + 1) + r.cells[i + 1..];
  }

  lemma ClearNextDetached(r: Ring, i: nat)
    requires i < |r.cells|
    ensures ClearSlot(PrefixCleared(r, i), i).detached == PrefixCleared(r, i + 1).detached
  {
    assert PrefixCleared(r, i).cells[i] == r.cells[i];
    var before := Occupied(r.cells[..i]);
    OccupiedStep(r.cells, i);
    assert r.detached + before + Held(r.cells[i]) == r.detached + (before + Held(r.cells[i]));
  }

  /** Clearing every slot in slot order is `ClearAll`. */
  lemma ClearedEverySlot(r: Ring)
    ensures ClearedUpTo(r, |r.cells|) == ClearAll(r)
  {
    ClearedUpToPrefix(r, |r.cells|);
    assert r.cells[..|r.cells|] == r.cells;
    assert EmptyCells(|r.cells|) + r.cells[|r.cells|..] == EmptyCells(|r.cells|);
  }

  /** The slots that hold element `e`. */
  function SlotsHolding(cells: seq<Option<ElementId>>, e: ElementId): set<nat> {
    set i: nat | i < |cells| && cells[i] == Some(e)
  }

  /**
    Clearing removes each element as many times as there are slots holding it: every
    occupied slot's element is detached exactly once and an empty slot causes no removal.
   */
  lemma {:induction false} RemovedOncePerSlot(cells: seq<Option<ElementId>>, e: ElementId)
    ensures Occupants(cells)[e] == |SlotsHolding(cells, e)|
  {
    if cells == [] {
      assert SlotsHolding(cells, e) == {};
    } else {
      var last := |cells| - 1;
      RemovedOncePerSlot(cells[..last], e);
      OccupantsSnoc(cells);
      SlotsHoldingSnoc(cells, e);
    }
  }

  /**
    What `clearElements` appends to the detach log holds each element once per slot that
    held it, so every occupied slot's element is detached exactly once.
   */
  lemma ClearAllDetachesOncePerSlot(r: Ring, e: ElementId)
    ensures |ClearAll(r).detached| == |r.detached| + |Occupied(r.cells)|
    ensures multiset(ClearAll(r).detached[|r.detached|..])[e] == |SlotsHolding(r.cells, e)|
  {
    assert ClearAll(r).detached[|r.detached|..] == Occupied(r.cells);
    OccupantsInOrder(r.cells);
    RemovedOncePerSlot(r.cells, e);
  }

  lemma SlotsHoldingSnoc(cells: seq<Option<ElementId>>, e: ElementId)
    requires cells != []
    ensures var last := |cells| - 1;
      |SlotsHolding(cells, e)| == |SlotsHolding(cells[..last], e)| + if cells[last] == Some(e) then 1 else 0
  {
    var last := |cells| - 1;
    var before := SlotsHolding(cells[..last], e);
    assert last !in before;
    if cells[last] == Some(e) {
      assert SlotsHolding(cells, e) == before + {last};
    } else {
      assert SlotsHolding(cells, e) == before;
    }
  }

  /**
    Forward writes of at most a buffer's worth of elements: the `k`-th lands `k` slots
    after the old cursor, the cursor ends `|elms|` slots on, and every other slot keeps
    what it held.
   */
  lemma {:induction false} WriteAllAfterPlacement(r: Ring, elms: seq<Option<ElementId>>)
    requires Valid(r) && |elms| <= |r.cells|
    ensures var r' := WriteAllAfter(r, elms);
            var n := |r.cells|;
            r'.cursor == Offset(r.cursor, |elms|, n) &&
            forall k :: 0 <= k < n ==>
              r'.cells[Offset(r.cursor, k, n)] == if k < |elms| then elms[k] else r.cells[Offset(r.cursor, k, n)]
  {
    if elms != [] {
      var n := |r.cells|;
      var m := |elms| - 1;
      var s := elms[..m];
      WriteAllAfterPlacement(r, s);
      var r1 := WriteAllAfter(r, s);
      var p := Offset(r.cursor, m, n);
      assert r1.cursor == p;
      OffsetCompose(r.cursor, m, 1, m + 1, n);
      var r' := WriteAllAfter(r, elms);
      assert r'.cells == r1.cells[p := elms[m]];
      forall k | 0 <= k < n
        ensures r'.cells[Offset(r.cursor, k, n)] == if k < |elms| then elms[k] else r.cells[Offset(r.cursor, k, n)]
      {
        OffsetInjective(r.cursor, k, m, n);
        if k < m {
          assert s[k] == elms[k];
        }
      }
    }
  }

  /**
    Backward writes of at most a buffer's worth of elements: the `k`-th lands `k + 1`
    slots before the old cursor, the cursor ends `|elms|` slots back, and every other
    slot keeps what it held.
   */
  lemma {:induction false} WriteAllBeforePlacement(r: Ring, elms: seq<Option<ElementId>>)
    requires Valid(r) && |elms| <= |r.cells|
    ensures var r' := WriteAllBefore(r, elms);
            var n := |r.cells|;
            r'.cursor == Offset(r.cursor, -|elms|, n) &&
            forall k :: 0 <= k + n && k < 0 ==>
              r'.cells[Offset(r.cursor, k, n)] == if k + |elms| >= 0 then elms[-k - 1] else r.cells[Offset(r.cursor, k, n)]
  {
    if elms != [] {
      var n := |r.cells|;
      var m := |elms| - 1;
      var s := elms[..m];
      WriteAllBeforePlacement(r, s);
      var r1 := WriteAllBefore(r, s);
      var p := Offset(r.cursor, -(m + 1), n);
      OffsetCompose(r.cursor, -m, -1, -(m + 1), n);
      assert PrevPointer(r1.cursor, n) == p;
      var r' := WriteAllBefore(r, elms);
      assert r'.cells == r1.cells[p := elms[m]];
      BeforeStepPlacement(r.cells, r1.cells, r'.cells, r.cursor, s, elms);
    }
  }

  /**
    The step of `WriteAllBeforePlacement`, on the slot contents alone: `mid` holds the
    first `|elms| - 1` backward writes, and one more write fills the next slot back.
   */
  lemma BeforeStepPlacement(cells: seq<Option<ElementId>>, mid: seq<Option<ElementId>>, cells': seq<Option<ElementId>>,
                            c: nat, s: seq<Option<ElementId>>, elms: seq<Option<ElementId>>)
    requires |mid| == |cells| && c < |cells| && 0 < |elms| <= |cells| && s == elms[..|elms| - 1]
    requires forall k :: 0 <= k + |cells| && k < 0 ==>
               mid[Offset(c, k, |cells|)] == if k + |s| >= 0 then s[-k - 1] else cells[Offset(c, k, |cells|)]
    requires cells' == mid[Offset(c, -|elms|, |cells|) := elms[|elms| - 1]]
    ensures forall k :: 0 <= k + |cells| && k < 0 ==>
              cells'[Offset(c, k, |cells|)] == if k + |elms| >= 0 then elms[-k - 1] else cells[Offset(c, k, |cells|)]
  {
    var n := |cells|;
    forall k | 0 <= k + n && k < 0
      ensures cells'[Offset(c, k, n)] == if k + |elms| >= 0 then elms[-k - 1] else cells[Offset(c, k, n)]
    {
      OffsetInjective(c, k, -|elms|, n);
      if k + |s| >= 0 {
        assert s[-k - 1] == elms[-k - 1];
      }
    }
  }

  /**
    Forward writes into slots that are empty detach nothing: refilling a cleared buffer
    with at most a buffer's worth of elements removes no element from the container.
   */
  lemma {:induction false} WriteAllAfterIntoEmpty(r: Ring, elms: seq<Option<ElementId>>)
    requires Valid(r) && |elms| <= |r.cells|
    requires forall k :: 0 <= k < |elms| ==> r.cells[Offset(r.cursor, k, |r.cells|)] == None
    ensures WriteAllAfter(r, elms).detached == r.detached
  {
    if elms != [] {
      var n := |r.cells|;
      var m := |elms| - 1;
      var s := elms[..m];
      WriteAllAfterIntoEmpty(r, s);
      WriteAllAfterPlacement(r, s);
      assert WriteAllAfter(r, s).cells[Offset(r.cursor, m, n)] == None;
    }
  }
}
