/**
  The geometry of the list: how a scroll offset, the viewport height and the fixed
  item height become a visible index range and a scroll bound. Heights and offsets are
  whole pixels; `Math.floor` and `Math.ceil` of a quotient become integer division.
 */
module Geometry {

  /** An item height: the library divides by it, so it must be positive. */
  type Positive = x: int | 0 < x witness 1

  /**
    `Math.ceil(a / b)` for a non-negative numerator, counted out one `b` at a time
    (`CeilDivBounds` ties it to multiplication).
   */
  function CeilDiv(a: nat, b: Positive): nat
  {
    if a == 0 then 0 else if a <= b then 1 else CeilDiv(a - b, b) + 1
  }

  /** `CeilDiv` is the least multiplier of `b` that reaches `a`. */
  lemma {:induction false} CeilDivBounds(a: nat, b: Positive)
    ensures (CeilDiv(a, b) - 1) * b < a <= CeilDiv(a, b) * b
  {
    if a > b {
      var m := CeilDiv(a - b, b);
      CeilDivBounds(a - b, b);
      Distribute(m, 1, b);
    }
  }

  /**
    The height of `count` items of height `h`, which is `h * count`, written as a sum
    (`ContentHeightIsProduct`) so that the methods that use it stay linear.
   */
  function ContentHeight(elementHeight: Positive, count: nat): int
  {
    if count == 0 then 0 else ContentHeight(elementHeight, count - 1) + elementHeight
  }

  /** `ContentHeight` is the product of the item height and the count. */
  lemma {:induction false} ContentHeightIsProduct(elementHeight: Positive, count: nat)
    ensures ContentHeight(elementHeight, count) == elementHeight * count
  {
    if count > 0 {
      ContentHeightIsProduct(elementHeight, count - 1);
      assert elementHeight * count == elementHeight * (count - 1) + elementHeight;
    }
  }

  /**
    The number of items that can intersect the viewport: `1 + ceil(viewport / h)`.
    One item more than the viewport holds, because the first one may be cut.
   */
  function DisplayedElements(viewport: nat, elementHeight: Positive): (d: nat)
    ensures d >= 1
  {
    1 + CeilDiv(viewport, elementHeight)
  }

  /** All but the first of the displayed items fill the viewport, and one fewer would not. */
  lemma DisplayedElementsBounds(viewport: nat, elementHeight: Positive)
    ensures var d := DisplayedElements(viewport, elementHeight);
            (d - 2) * elementHeight < viewport <= (d - 1) * elementHeight
  {
    CeilDivBounds(viewport, elementHeight);
  }

  /**
    The largest scroll offset the list accepts: the content height less the viewport
    and one more item, but never below zero.
   */
  function MaxScrollTop(contentHeight: int, viewport: int, elementHeight: int): (m: int)
    ensures m >= 0 && m >= contentHeight - viewport - elementHeight
    ensures m == 0 || m == contentHeight - viewport - elementHeight
  {
    var raw := contentHeight - viewport - elementHeight;
    if raw > 0 then raw else 0
  }

  /** The scroll offset read from the viewport, brought into `[0, maxScrollTop]`. */
  function ClampScroll(raw: int, maxScrollTop: int): (s: int)
    requires maxScrollTop >= 0
    ensures 0 <= s <= maxScrollTop
    ensures 0 <= raw <= maxScrollTop ==> s == raw
    ensures raw < 0 ==> s == 0
    ensures raw > maxScrollTop ==> s == maxScrollTop
  {
    if raw < 0 then 0 else if raw >= maxScrollTop then maxScrollTop else raw
  }

  /**
    The index of the item under the top edge of the viewport: `floor(scrollTop / h)`,
    counted out one item height at a time (`FirstVisibleIsFloor` ties it to `/`).
   */
  function FirstVisible(scrollTop: int, elementHeight: Positive): int
    decreases if scrollTop < 0 then elementHeight - scrollTop else scrollTop
  {
    if scrollTop < 0 then FirstVisible(scrollTop + elementHeight, elementHeight) - 1
    else if scrollTop < elementHeight then 0
    else FirstVisible(scrollTop - elementHeight, elementHeight) + 1
  }

  /** The item `FirstVisible` names starts at or above the viewport's top edge and ends below it. */
  lemma {:induction false} FirstVisibleBounds(scrollTop: int, elementHeight: Positive)
    ensures var i := FirstVisible(scrollTop, elementHeight);
            i * elementHeight <= scrollTop < i * elementHeight + elementHeight
    decreases if scrollTop < 0 then elementHeight - scrollTop else scrollTop
  {
    if scrollTop < 0 {
      var j := FirstVisible(scrollTop + elementHeight, elementHeight);
      FirstVisibleBounds(scrollTop + elementHeight, elementHeight);
      Distribute(j, -1, elementHeight);
    } else if scrollTop >= elementHeight {
      var j := FirstVisible(scrollTop - elementHeight, elementHeight);
      FirstVisibleBounds(scrollTop - elementHeight, elementHeight);
      Distribute(j, 1, elementHeight);
    }
  }

  /** `FirstVisible` is the floor of the quotient, which is what `/` computes on a positive divisor. */
  lemma FirstVisibleIsFloor(scrollTop: int, elementHeight: Positive)
    ensures FirstVisible(scrollTop, elementHeight) == scrollTop / elementHeight
  {
    FirstVisibleBounds(scrollTop, elementHeight);
    var q := scrollTop / elementHeight;
    assert q * elementHeight <= scrollTop < q * elementHeight + elementHeight;
    FloorUnique(FirstVisible(scrollTop, elementHeight), q, scrollTop, elementHeight);
  }

  /** Only one index satisfies the characterisation of `FirstVisible`. */
  lemma FloorUnique(i: int, j: int, s: int, h: Positive)
    requires i * h <= s < i * h + h
    requires j * h <= s < j * h + h
    ensures i == j
  {
    assert (i - j) * h == i * h - j * h;
    assert (j - i) * h == j * h - i * h;
    FactorSign(i - j, h);
    FactorSign(j - i, h);
  }

  /** A multiplier of at least one gives at least `h`. */
  lemma FactorSign(a: int, h: Positive)
    ensures a >= 1 ==> a * h >= h
  {
    if a >= 1 {
      MulMonotone(1, a, h);
    }
  }

  lemma MulMonotone(a: int, b: int, h: Positive)
    requires a <= b
    ensures a * h <= b * h
  {
    assert b * h - a * h == (b - a) * h;
  }

  /**
    Scrolling to item `position` (an offset of `position * h`) and reading the first
    visible index back yields `position`, as long as that offset is within bounds.
   */
  lemma ScrollToPositionRoundTrip(position: int, elementHeight: Positive, maxScrollTop: int)
    requires 0 <= position * elementHeight <= maxScrollTop
    ensures FirstVisible(ClampScroll(position * elementHeight, maxScrollTop), elementHeight) == position
  {
    var s := ClampScroll(position * elementHeight, maxScrollTop);
    assert s == position * elementHeight;
    FirstVisibleBounds(s, elementHeight);
    FloorUnique(FirstVisible(s, elementHeight), position, s, elementHeight);
  }

  /**
    The visible range `[firstVisible, firstVisible + displayed)` covers every pixel of the
    viewport `[scrollTop, scrollTop + viewport)`.
   */
  lemma VisibleRangeCoversViewport(scrollTop: int, viewport: nat, elementHeight: Positive)
    ensures var first := FirstVisible(scrollTop, elementHeight);
            var d := DisplayedElements(viewport, elementHeight);
            first * elementHeight <= scrollTop &&
            scrollTop + viewport < (first + d) * elementHeight
  {
    var first := FirstVisible(scrollTop, elementHeight);
    var c := CeilDiv(viewport, elementHeight);
    FirstVisibleBounds(scrollTop, elementHeight);
    CeilDivBounds(viewport, elementHeight);
    Distribute(first + 1, c, elementHeight);
    Distribute(first, 1, elementHeight);
  }

  /** The sum of two multipliers of `h`. */
  lemma Distribute(a: int, b: int, h: int)
    ensures (a + b) * h == a * h + b * h
  {
  }

  /** The visible range holds at least `1 + floor(viewport / h)` items. */
  lemma DisplayedAtLeastFloor(viewport: nat, elementHeight: Positive)
    ensures DisplayedElements(viewport, elementHeight) >= 1 + viewport / elementHeight
  {
    CeilAtLeastFloor(viewport, elementHeight);
    FirstVisibleIsFloor(viewport, elementHeight);
  }

  /** Rounding a quotient up gives at least what rounding it down gives. */
  lemma {:induction false} CeilAtLeastFloor(a: nat, b: Positive)
    ensures CeilDiv(a, b) >= FirstVisible(a, b)
  {
    if a > b {
      CeilAtLeastFloor(a - b, b);
    } else if a == b {
      assert FirstVisible(a, b) == FirstVisible(0, b) + 1;
    }
  }
}
