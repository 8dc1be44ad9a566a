/** The width-budget pass over the header that decides the last column the
    table can show. Columns are walked left to right; the non-frozen columns
    scrolled out of view are skipped; the rendered widths of the others are
    added up, and the first column that would push the total past the budget
    is recorded. Rendering is abstract: `render` gives the on-screen width of
    a header cell drawn with a given border. */
module Layout {
  import opened TableTypes

  /** Which border a header cell is drawn with. */
  datatype Border = LeftEdge | InnerEdge | RightEdge

  /** A header cell: a column's own, or the one-wide indicator that columns
      are hidden to the left. */
  datatype Header = ColumnHeader(column: Column) | OverflowLeft(width: int)

  /** Reserved for the right-hand overflow indicator. */
  const OverflowColWidth: int := 2

  /** What the pass reads from the table. */
  datatype Window = Window(
    columns: seq<Column>,
    freeze: int,
    offset: int,
    maxTotalWidth: int,
    render: (Header, Border) -> nat)

  /** The running state of the pass before a column: the total width so far
      and whether any header has been emitted. */
  datatype Progress = Progress(total: int, shown: bool)

  /** Columns scrolled out of view: the first `offset` non-frozen ones. */
  predicate Skipped(w: Window, i: int)
  {
    w.freeze <= i < w.offset + w.freeze
  }

  /** The width of the left indicator, counted at the first non-frozen
      column when the table is scrolled. */
  function LeftIndicatorWidth(w: Window, i: int): nat
  {
    if w.offset > 0 && i == w.freeze then
      w.render(OverflowLeft(1), if i == 0 then LeftEdge else InnerEdge)
    else 0
  }

  /** The first header emitted gets the left border, the last column the
      right one, every other the inner one. */
  function BorderAt(w: Window, i: int, shown: bool): Border
  {
    if !shown then LeftEdge else if i < |w.columns| - 1 then InnerEdge else RightEdge
  }

  function HeaderWidth(w: Window, i: int, shown: bool): nat
    requires 0 <= i < |w.columns|
  {
    w.render(ColumnHeader(w.columns[i]), BorderAt(w, i, shown))
  }

  /** The budget a column must fit in: room is kept for the right overflow
      indicator except at the last column. */
  function Target(w: Window, i: int): int
  {
    if i == |w.columns| - 1 then w.maxTotalWidth else w.maxTotalWidth - OverflowColWidth
  }

  /** The state of the pass before column i, when no earlier column
      overflowed. */
  function Before(w: Window, i: nat): Progress
    requires i <= |w.columns|
  {
    if i == 0 then Progress(0, false)
    else
      var p := Before(w, i - 1);
      var t := p.total + LeftIndicatorWidth(w, i - 1);
      if Skipped(w, i - 1) then Progress(t, p.shown)
      else if w.maxTotalWidth != 0 then Progress(t + HeaderWidth(w, i - 1, p.shown), true)
      else Progress(t, true)
  }

  /** Column i is tested against the budget and does not fit. */
  predicate Overflows(w: Window, i: nat)
    requires i < |w.columns|
  {
    var p := Before(w, i);
    w.maxTotalWidth != 0 && !Skipped(w, i) &&
    p.total + LeftIndicatorWidth(w, i) + HeaderWidth(w, i, p.shown) > Target(w, i)
  }

  /** The index the pass records: the first column that overflows, or the
      previous value when every column fits. */
  function LastShown(w: Window, previous: int, from: nat): (r: int)
    requires from <= |w.columns|
    ensures r == previous || (from <= r < |w.columns| && Overflows(w, r))
    decreases |w.columns| - from
  {
    if from == |w.columns| then previous
    else if Overflows(w, from) then from
    else LastShown(w, previous, from + 1)
  }

  /** LastShown is the first overflowing column at or after `from`. */
  lemma {:induction false} LastShownIsFirstOverflow(w: Window, previous: int, from: nat)
    requires from <= |w.columns|
    ensures (forall j :: from <= j < |w.columns| ==> !Overflows(w, j)) ==> LastShown(w, previous, from) == previous
    ensures (exists j :: from <= j < |w.columns| && Overflows(w, j)) ==>
      var r := LastShown(w, previous, from);
      from <= r < |w.columns| && Overflows(w, r) && forall j :: from <= j < r ==> !Overflows(w, j)
    decreases |w.columns| - from
  {
    if from < |w.columns| && !Overflows(w, from) {
      LastShownIsFirstOverflow(w, previous, from + 1);
      if exists j :: from <= j < |w.columns| && Overflows(w, j) {
        var j :| from <= j < |w.columns| && Overflows(w, j);
        assert j != from;
      }
    }
  }

  /** Without a width budget the index is left as it was. */
  lemma {:induction false} NoBudgetKeepsLastShown(w: Window, previous: int, from: nat)
    requires from <= |w.columns| && w.maxTotalWidth == 0
    ensures LastShown(w, previous, from) == previous
    decreases |w.columns| - from
  {
    if from < |w.columns| {
      NoBudgetKeepsLastShown(w, previous, from + 1);
    }
  }

  /** Frozen columns are never skipped; the scrolled-away ones always are,
      so the recorded index is never one of them. */
  lemma RecordedColumnIsShown(w: Window, previous: int)
    requires 0 <= w.freeze
    ensures forall i :: 0 <= i < w.freeze ==> !Skipped(w, i)
    ensures var r := LastShown(w, previous, 0);
      r == previous || (0 <= r < |w.columns| && (r < w.freeze || r >= w.freeze + w.offset))
  {
  }

  /** Scrolled-away columns add no width: once the left indicator has been
      counted at the first non-frozen column, the total stays put until the
      first column still in view. */
  lemma {:induction false} SkippedColumnsAddNoWidth(w: Window, i: nat)
    requires w.offset > 0 && 0 <= w.freeze < i <= w.freeze + w.offset && i <= |w.columns|
    ensures Before(w, i).total == Before(w, w.freeze).total + LeftIndicatorWidth(w, w.freeze)
    ensures Before(w, i).shown == Before(w, w.freeze).shown
  {
    if i - 1 > w.freeze {
      SkippedColumnsAddNoWidth(w, i - 1);
    }
  }

  /** The first column in view after the scrolled-away ones is tested with
      the left indicator's width already in the total. */
  lemma FirstScrolledColumnCountsIndicator(w: Window)
    requires w.offset > 0 && 0 <= w.freeze && w.freeze + w.offset < |w.columns|
    ensures var k := w.freeze + w.offset;
      !Skipped(w, k) &&
      Before(w, k).total == Before(w, w.freeze).total + LeftIndicatorWidth(w, w.freeze)
  {
    SkippedColumnsAddNoWidth(w, w.freeze + w.offset);
  }

  /** Every column accepted before the recorded one fits its budget: the
      running total after it is at most its target, hence at most the
      maximum width. */
  lemma AcceptedColumnsFit(w: Window, j: nat)
    requires j < |w.columns| && w.maxTotalWidth != 0 && !Skipped(w, j) && !Overflows(w, j)
    ensures Before(w, j + 1).total <= Target(w, j) <= w.maxTotalWidth
  {
  }

  /** The running total never decreases along the pass. */
  lemma {:induction false} RunningTotalGrows(w: Window, i: nat, k: nat)
    requires i <= k <= |w.columns|
    ensures Before(w, i).total <= Before(w, k).total
    decreases k - i
  {
    if i < k {
      RunningTotalGrows(w, i, k - 1);
    }
  }
}
