/** The fixed-size virtual list (src/lib/react-window.tsx, `FixedSizeList`):
    from the scroll offset it works out which rows to render, with a few
    extra rows above and below the viewport, and places each row at its own
    offset inside a container as tall as all the rows together. Sizes and
    offsets are whole pixels. */
module ReactWindow {

  /** The style of one rendered row. */
  datatype RowStyle = RowStyle(index: nat, top: nat, height: nat)

  /** The rows rendered, as the range `startIndex..endIndex`, both ends
      included; the range is empty when `endIndex < startIndex`. */
  datatype IndexRange = IndexRange(startIndex: int, endIndex: int)

  /** `Math.ceil(a / b)` for a whole `a` and positive `b`. */
  function CeilDiv(a: nat, b: nat): (c: nat)
    requires b > 0
    ensures c * b >= a
    ensures c == 0 || (c - 1) * b < a
  {
    var q := a / b;
    if q * b == a then q else q + 1
  }

  /** The number of rows that may be rendered: the rows the viewport can
      show plus the overscan on both sides. */
  function VisibleCount(height: nat, itemSize: nat, overscanCount: nat): (n: nat)
    requires itemSize > 0
    ensures n * itemSize >= height + 2 * overscanCount * itemSize
  {
    CeilDiv(height, itemSize) + overscanCount * 2
  }

  /** The rendered range: from the first row at the scroll offset, less the
      overscan and never below 0, through as many rows as `VisibleCount`,
      never past the last row. */
  function WindowRange(height: nat, itemCount: nat, itemSize: nat, overscanCount: nat, scrollOffset: nat): (r: IndexRange)
    requires itemSize > 0
    ensures r.startIndex >= 0
    ensures r.endIndex <= itemCount - 1
    ensures r.endIndex - r.startIndex + 1 <= VisibleCount(height, itemSize, overscanCount)
    ensures r.startIndex <= scrollOffset / itemSize
  {
    var start := if scrollOffset / itemSize - overscanCount > 0 then scrollOffset / itemSize - overscanCount else 0;
    var visibleCount := VisibleCount(height, itemSize, overscanCount);
    var end := if itemCount - 1 < start + visibleCount - 1 then itemCount - 1 else start + visibleCount - 1;
    IndexRange(start, end)
  }

  /** The number of rows in a range. */
  function RangeLength(r: IndexRange): nat {
    if r.endIndex >= r.startIndex then r.endIndex - r.startIndex + 1 else 0
  }

  /** Never more rows than `VisibleCount`, and none for an empty list. */
  lemma RenderedRowsAreBounded(height: nat, itemCount: nat, itemSize: nat, overscanCount: nat, scrollOffset: nat)
    requires itemSize > 0
    ensures var r := WindowRange(height, itemCount, itemSize, overscanCount, scrollOffset);
      && RangeLength(r) <= VisibleCount(height, itemSize, overscanCount)
      && (itemCount == 0 ==> RangeLength(r) == 0)
      && 0 <= r.startIndex && r.endIndex < itemCount
  {
  }

  lemma MulStrictlyMonotone(a: int, b: int, s: nat)
    requires s > 0 && a * s < b * s
    ensures a < b
  {
    assert b * s - a * s == (b - a) * s;
  }

  /** Every row that overlaps the viewport `[scrollOffset, scrollOffset +
      height)` is rendered, provided at least one row of overscan is kept
      (the screen that shows the card list keeps four). */
  lemma {:induction false} VisibleRowsAreRendered(height: nat, itemCount: nat, itemSize: nat, overscanCount: nat,
                                                  scrollOffset: nat, i: nat)
    requires itemSize > 0 && overscanCount >= 1
    requires i < itemCount
    requires i * itemSize < scrollOffset + height && (i + 1) * itemSize > scrollOffset
    ensures var r := WindowRange(height, itemCount, itemSize, overscanCount, scrollOffset);
      r.startIndex <= i <= r.endIndex
  {
    var q := scrollOffset / itemSize;
    var c := CeilDiv(height, itemSize);
    assert q * itemSize <= scrollOffset < (q + 1) * itemSize;
    MulStrictlyMonotone(q, i + 1, itemSize);
    assert i * itemSize < (q + 1 + c) * itemSize by {
      assert (q + 1 + c) * itemSize == (q + 1) * itemSize + c * itemSize;
    }
    MulStrictlyMonotone(i, q + 1 + c, itemSize);
  }

  /** Without overscan the last, partly visible row can be missing: a
      viewport of one row's height scrolled by half a row shows rows 0 and
      1, and only row 0 is rendered. */
  lemma ZeroOverscanCanMissPartialRow()
    ensures var r := WindowRange(10, 2, 10, 0, 5);
      && 1 * 10 < 5 + 10 && (1 + 1) * 10 > 5
      && r == IndexRange(0, 0)
  {
  }

  lemma MulMonotone(a: nat, b: nat, s: nat)
    requires a <= b
    ensures a * s <= b * s
  {
    assert b * s == a * s + (b - a) * s;
  }

  /** The style of row `index`: placed at `index * itemSize`, one row tall. */
  function RowStyleAt(index: nat, itemSize: nat): (s: RowStyle)
    ensures s.index == index && s.height == itemSize
    ensures s.top == index * itemSize
  {
    RowStyle(index, index * itemSize, itemSize)
  }

  /** The height of the inner container: all the rows together. */
  function TotalHeight(itemCount: nat, itemSize: nat): nat {
    itemCount * itemSize
  }

  /** Rendered rows lie inside the container and do not overlap: each starts
      where the one before it ends. */
  lemma RowsTileContainer(itemCount: nat, itemSize: nat, i: nat)
    requires i < itemCount
    ensures RowStyleAt(i, itemSize).top + RowStyleAt(i, itemSize).height <= TotalHeight(itemCount, itemSize)
    ensures RowStyleAt(i + 1, itemSize).top == RowStyleAt(i, itemSize).top + RowStyleAt(i, itemSize).height
  {
    MulMonotone(i + 1, itemCount, itemSize);
    assert (i + 1) * itemSize == i * itemSize + itemSize;
  }

  /** The list: its props and the scroll offset it keeps as state. */
  class FixedSizeList {
    const height: nat
    const itemCount: nat
    const itemSize: nat
    const overscanCount: nat
    var scrollOffset: nat

    /** A list starts scrolled to the top. */
    constructor (height: nat, itemCount: nat, itemSize: nat, overscanCount: nat)
      requires itemSize > 0
      ensures this.height == height && this.itemCount == itemCount
      ensures this.itemSize == itemSize && this.overscanCount == overscanCount
      ensures scrollOffset == 0
    {
      this.height := height;
      this.itemCount := itemCount;
      this.itemSize := itemSize;
      this.overscanCount := overscanCount;
      scrollOffset := 0;
    }

    /** The scroll handler stores the container's new scroll position. */
    method HandleScroll(scrollTop: nat)
      modifies this
      ensures scrollOffset == scrollTop
    {
      scrollOffset := scrollTop;
    }

    /** The rendered rows, one per index of the window in increasing order,
        and the container's height. */
    method Render() returns (items: seq<RowStyle>, totalHeight: nat)
      requires itemSize > 0
      ensures totalHeight == TotalHeight(itemCount, itemSize)
      ensures var r := WindowRange(height, itemCount, itemSize, overscanCount, scrollOffset);
        && |items| == RangeLength(r)
        && forall k :: 0 <= k < |items| ==> items[k] == RowStyleAt(r.startIndex + k, itemSize)
    {
      totalHeight := itemCount * itemSize;
      var range := WindowRange(height, itemCount, itemSize, overscanCount, scrollOffset);
      var startIndex: nat := range.startIndex;
      var endIndex := range.endIndex;
      items := [];
      var index: nat := startIndex;
      while index <= endIndex
        invariant startIndex <= index
        invariant endIndex >= startIndex ==> index <= endIndex + 1
        invariant endIndex < startIndex ==> index == startIndex
        invariant |items| == index - startIndex
        invariant forall k :: 0 <= k < |items| ==> items[k] == RowStyleAt(startIndex + k, itemSize)
        decreases endIndex - index
      {
        var style := RowStyle(index, index * itemSize, itemSize);
        items := items + [style];
        index := index + 1;
      }
    }
  }
}
