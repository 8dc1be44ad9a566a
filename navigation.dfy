/** The arithmetic of the table's cursors: row moves that wrap, column moves
    that clamp, the page a row falls on, and the one-column scroll steps.
    Integers are Go ints; a row cursor of -1 can occur when there are no
    visible rows. */
module Navigation {

  /** Go's integer division, which truncates toward zero. */
  function GoDiv(a: int, b: int): int
    requires b > 0
  {
    if a >= 0 then a / b else -((-a) / b)
  }

  /** The truncated quotient brackets the dividend from below when it is
      non-negative and from above when it is negative. */
  lemma GoDivBrackets(a: int, b: int)
    requires b > 0
    ensures a >= 0 ==> GoDiv(a, b) * b <= a < (GoDiv(a, b) + 1) * b
    ensures a < 0 ==> (GoDiv(a, b) - 1) * b < a <= GoDiv(a, b) * b
  {
    var q := (if a >= 0 then a else -a) / b;
    var r := (if a >= 0 then a else -a) % b;
    assert (if a >= 0 then a else -a) == q * b + r;
    assert (q + 1) * b == q * b + b;
    if a < 0 {
      assert -q * b == -(q * b);
      assert (-q - 1) * b == -(q * b) - b;
    }
  }

  lemma MulAtLeast(k: int, b: int)
    requires k >= 1 && b >= 0
    ensures k * b >= b
  {
    assert k * b == (k - 1) * b + b;
  }

  /** The quotient and remainder are the only ones that bracket a. */
  lemma DivUnique(a: int, b: int, q: int)
    requires b > 0 && q * b <= a < (q + 1) * b
    ensures a / b == q && a % b == a - q * b
  {
    var d := a / b;
    assert a == d * b + a % b;
    if d > q { assert (d - q) * b == d * b - q * b; MulAtLeast(d - q, b); }
    if d < q { assert (q - d) * b == q * b - d * b; MulAtLeast(q - d, b); }
  }

  /** The page the row at rowIndex is shown on; everything is on page 0
      when the table is not paged. */
  function ExpectedPage(pageSize: nat, rowIndex: int): int
  {
    if pageSize == 0 then 0 else GoDiv(rowIndex, pageSize)
  }

  /** Row i is on page p exactly when p is the page whose rows
      [p * pageSize, (p + 1) * pageSize) hold it; unpaged, every row is on
      page 0. */
  lemma ExpectedPageBrackets(pageSize: nat, rowIndex: int)
    ensures pageSize == 0 ==> ExpectedPage(pageSize, rowIndex) == 0
    ensures pageSize > 0 && rowIndex >= 0 ==>
      var p := ExpectedPage(pageSize, rowIndex);
      p >= 0 && p * pageSize <= rowIndex < (p + 1) * pageSize
  {
    if pageSize > 0 && rowIndex >= 0 {
      var q, r := rowIndex / pageSize, rowIndex % pageSize;
      assert ExpectedPage(pageSize, rowIndex) == q;
      assert rowIndex == q * pageSize + r && 0 <= r < pageSize;
      assert (q + 1) * pageSize == q * pageSize + pageSize;
    }
  }

  /** The number of pages for count rows: one when unpaged, at least one. */
  function MaxPages(pageSize: nat, count: nat): (n: nat)
    ensures n >= 1
    ensures pageSize > 0 && count > 0 ==> (n - 1) * pageSize < count <= n * pageSize
  {
    if pageSize == 0 || count == 0 then 1
    else
      var a := count + pageSize - 1;
      var n := a / pageSize;
      assert a == n * pageSize + a % pageSize;
      assert (n - 1) * pageSize == n * pageSize - pageSize;
      assert (n + 1) * pageSize == n * pageSize + pageSize;
      assert n >= 1;
      n
  }

  /** Moving the row cursor up: from the first row it wraps to the last. */
  function RowAbove(cursor: int, count: nat): (r: int)
    ensures 0 <= cursor < count ==> 0 <= r < count
    ensures cursor == 0 ==> r == count - 1
    ensures cursor > 0 ==> r == cursor - 1
  {
    if cursor - 1 < 0 then count - 1 else cursor - 1
  }

  /** Moving the row cursor down: from the last row it wraps to the first. */
  function RowBelow(cursor: int, count: nat): (r: int)
    ensures 0 <= cursor < count ==> 0 <= r < count
    ensures cursor == count - 1 ==> r == 0
    ensures cursor + 1 < count ==> r == cursor + 1
  {
    if cursor + 1 >= count then 0 else cursor + 1
  }

  /** Up and down undo each other on every row. */
  lemma RowAboveBelowInverse(cursor: int, count: nat)
    requires 0 <= cursor < count
    ensures RowBelow(RowAbove(cursor, count), count) == cursor
    ensures RowAbove(RowBelow(cursor, count), count) == cursor
  {
  }

  /** The row reached by pressing down `presses` times. */
  function RowBelowRepeated(cursor: int, count: nat, presses: nat): int
  {
    if presses == 0 then cursor else RowBelow(RowBelowRepeated(cursor, count, presses - 1), count)
  }

  /** Pressing down walks the rows cyclically: after k presses the cursor is
      k rows further on, modulo the number of rows. */
  lemma {:induction false} RowBelowCycles(cursor: int, count: nat, presses: nat)
    requires 0 <= cursor < count
    ensures RowBelowRepeated(cursor, count, presses) == (cursor + presses) % count
  {
    if presses > 0 {
      RowBelowCycles(cursor, count, presses - 1);
      ModSuccessor(cursor + presses - 1, count);
    }
  }

  /** The remainder of x + 1 is the next remainder of x, wrapping to 0. */
  lemma ModSuccessor(x: nat, count: nat)
    requires count > 0
    ensures (x + 1) % count == if x % count + 1 < count then x % count + 1 else 0
  {
    var q, r := x / count, x % count;
    assert x == q * count + r && 0 <= r < count;
    if r + 1 < count {
      DivUnique(x + 1, count, q);
    } else {
      assert (q + 1) * count == q * count + count;
      assert (q + 2) * count == q * count + 2 * count;
      DivUnique(x + 1, count, q + 1);
    }
  }

  /** The column cursor after moving left: it stops at the first column. */
  function ColumnLeft(cursor: int): (r: int)
    ensures r >= 0
    ensures cursor > 0 ==> r == cursor - 1
    ensures cursor <= 0 ==> r == 0
  {
    if cursor - 1 < 0 then 0 else cursor - 1
  }

  /** The column cursor after moving right: it stops at the last column. */
  function ColumnRight(cursor: int, count: nat): (r: int)
    ensures r <= count - 1
    ensures cursor + 1 < count ==> r == cursor + 1
    ensures cursor + 1 >= count ==> r == count - 1
  {
    if cursor + 1 >= count then count - 1 else cursor + 1
  }

  /** One column of scroll to the left, stopping at zero. */
  function ScrollLeft(offset: int): (r: int)
    ensures 0 <= offset ==> 0 <= r <= offset
    ensures offset > 0 ==> r == offset - 1
  {
    if offset > 0 then offset - 1 else offset
  }

  /** One column of scroll to the right, stopping at the largest offset. */
  function ScrollRight(offset: int, maxOffset: int): (r: int)
    ensures offset <= r <= offset + 1
    ensures offset <= maxOffset ==> r <= maxOffset
    ensures offset < maxOffset ==> r == offset + 1
  {
    if offset < maxOffset then offset + 1 else offset
  }

  /** Moving left scrolls only when the new cursor is past the first column
      and at or before the scroll offset. */
  predicate ScrollsOnLeft(newCursor: int, offset: int)
  {
    0 < newCursor <= offset
  }

  /** Moving right scrolls only when the new cursor is at or past the last
      shown column and is not the last column. */
  predicate ScrollsOnRight(newCursor: int, lastShowColumnIndex: int, count: nat)
  {
    newCursor >= lastShowColumnIndex && newCursor != count - 1
  }

  /** The horizontal position after moving left: cursor and scroll offset. */
  function MoveLeft(cursor: int, offset: int): (r: (int, int))
    ensures r.0 == ColumnLeft(cursor)
    ensures 0 <= offset ==> 0 <= r.1 <= offset
    ensures r.1 != offset <==> offset > 0 && ScrollsOnLeft(r.0, offset)
  {
    var c := ColumnLeft(cursor);
    (c, if ScrollsOnLeft(c, offset) then ScrollLeft(offset) else offset)
  }

  /** The horizontal position after moving right: cursor and scroll offset. */
  function MoveRight(cursor: int, offset: int, count: nat, lastShowColumnIndex: int, maxOffset: int): (r: (int, int))
    ensures r.0 == ColumnRight(cursor, count)
    ensures 0 <= offset <= maxOffset ==> 0 <= r.1 <= maxOffset
    ensures r.1 != offset <==> offset < maxOffset && ScrollsOnRight(r.0, lastShowColumnIndex, count)
  {
    var c := ColumnRight(cursor, count);
    (c, if ScrollsOnRight(c, lastShowColumnIndex, count) then ScrollRight(offset, maxOffset) else offset)
  }

  /** Column moves keep the cursor on a column and the offset in range. */
  lemma ColumnMovesStayInRange(cursor: int, offset: int, count: nat, lastShow: int, maxOffset: int)
    requires 0 <= cursor < count && 0 <= offset <= maxOffset
    ensures 0 <= MoveLeft(cursor, offset).0 < count && 0 <= MoveLeft(cursor, offset).1 <= maxOffset
    ensures 0 <= MoveRight(cursor, offset, count, lastShow, maxOffset).0 < count
    ensures 0 <= MoveRight(cursor, offset, count, lastShow, maxOffset).1 <= maxOffset
  {
  }

  /** Pressing right `presses` times from any column. */
  function MoveRightRepeated(cursor: int, count: nat, presses: nat): int
  {
    if presses == 0 then cursor else ColumnRight(MoveRightRepeated(cursor, count, presses - 1), count)
  }

  /** Enough presses of right always reach the last column and stay there. */
  lemma {:induction false} MoveRightReachesLastColumn(cursor: int, count: nat, presses: nat)
    requires 0 <= cursor < count
    ensures MoveRightRepeated(cursor, count, presses) == if cursor + presses < count then cursor + presses else count - 1
  {
    if presses > 0 {
      MoveRightReachesLastColumn(cursor, count, presses - 1);
    }
  }

  /** Where the page-down key puts the cursor: on the first row of the next
      page, or on the last row when there is no next page. */
  function PageDownCursor(cursor: int, pageSize: nat, count: nat): (r: int)
    ensures count > 0 ==> 0 <= r < count
    ensures count > 0 && pageSize > 0 && cursor >= 0 && (ExpectedPage(pageSize, cursor) + 1) * pageSize < count ==>
      r == (ExpectedPage(pageSize, cursor) + 1) * pageSize && ExpectedPage(pageSize, r) == ExpectedPage(pageSize, cursor) + 1
    ensures count > 0 && (pageSize == 0 || !(0 <= (ExpectedPage(pageSize, cursor) + 1) * pageSize < count)) ==>
      r == count - 1
    ensures count > 0 && (pageSize == 0 || ExpectedPage(pageSize, cursor) == MaxPages(pageSize, count) - 1) ==>
      r == count - 1
  {
    if count == 0 then cursor
    else if pageSize == 0 then count - 1
    else
      var p := ExpectedPage(pageSize, cursor);
      var next := (p + 1) * pageSize;
      if 0 <= next < count then
        ExpectedPageBrackets(pageSize, cursor);
        DivUnique(next, pageSize, p + 1);
        next
      else count - 1
  }

  /** Where the page-up key puts the cursor: on the first row of the
      previous page, or on row 0 when there is none. */
  function PageUpCursor(cursor: int, pageSize: nat, count: nat): (r: int)
    ensures count > 0 ==> 0 <= r < count
    ensures count > 0 && pageSize > 0 && 0 <= cursor < count && ExpectedPage(pageSize, cursor) > 0 ==>
      r == (ExpectedPage(pageSize, cursor) - 1) * pageSize && ExpectedPage(pageSize, r) == ExpectedPage(pageSize, cursor) - 1
    ensures count > 0 && (pageSize == 0 || !(0 <= (ExpectedPage(pageSize, cursor) - 1) * pageSize < count)) ==> r == 0
    ensures count > 0 && 0 <= cursor < count && (pageSize == 0 || ExpectedPage(pageSize, cursor) == 0) ==> r == 0
  {
    if count == 0 then cursor
    else if pageSize == 0 then 0
    else
      var p := ExpectedPage(pageSize, cursor);
      var prev := (p - 1) * pageSize;
      assert prev == p * pageSize - pageSize;
      if 0 <= prev < count then DivUnique(prev, pageSize, p - 1); prev else 0
  }

  /** Where the last-page key puts the cursor: on the first row of the last
      page. */
  function PageLastCursor(cursor: int, pageSize: nat, count: nat): (r: int)
    ensures count > 0 ==> 0 <= r < count
    ensures count > 0 ==> ExpectedPage(pageSize, r) == MaxPages(pageSize, count) - 1
  {
    if count == 0 then cursor
    else if pageSize == 0 then 0
    else
      var last := MaxPages(pageSize, count) - 1;
      var r := last * pageSize;
      assert (last + 1) * pageSize == r + pageSize;
      assert r >= 0;
      DivUnique(r, pageSize, last);
      r
  }
}
