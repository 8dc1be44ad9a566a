/** The table's runtime state machine: the row, column, page and scroll
    cursors, the selection toggle, the width-budget pass and the single-entry
    dispatcher that turns one message into a new state plus the user events
    describing what changed. The state is one mutable object; every operation
    updates its fields in place. Its meaning is given by pure functions over
    a snapshot of that object's fields, and each method is proved to compute
    what they compute. */
module Update {
  import opened TableTypes
  import opened Navigation
  import Layout

  /** A copy of the rows in which only row i has its selection flipped. */
  function ToggledRows(rows: seq<Row>, i: int): (r: seq<Row>)
    requires 0 <= i < |rows|
    ensures |r| == |rows|
    ensures r[i].data == rows[i].data && r[i].selected == !rows[i].selected
    ensures forall j :: 0 <= j < |rows| && j != i ==> r[j] == rows[j]
  {
    rows[i := rows[i].(selected := !rows[i].selected)]
  }

  /** Flipping the same row twice gives back the rows. */
  lemma ToggledRowsTwice(rows: seq<Row>, i: int)
    requires 0 <= i < |rows|
    ensures ToggledRows(ToggledRows(rows, i), i) == rows
  {
    var t := ToggledRows(ToggledRows(rows, i), i);
    assert t[i] == rows[i];
    assert forall j :: 0 <= j < |rows| ==> t[j] == rows[j];
  }

  /** Flipping two rows gives the same rows in either order. */
  lemma ToggledRowsCommute(rows: seq<Row>, i: int, j: int)
    requires 0 <= i < |rows| && 0 <= j < |rows|
    ensures ToggledRows(ToggledRows(rows, i), j) == ToggledRows(ToggledRows(rows, j), i)
  {
    var a, b := ToggledRows(ToggledRows(rows, i), j), ToggledRows(ToggledRows(rows, j), i);
    assert forall k :: 0 <= k < |rows| ==> a[k] == b[k];
  }

  /** The key triggers no action at all. */
  predicate Unbound(keyMap: KeyMap, key: string)
  {
    forall a :: !Matches(keyMap, key, a)
  }

  /** The key triggers exactly one action. */
  predicate OnlyBinding(keyMap: KeyMap, key: string, a: Action)
  {
    Matches(keyMap, key, a) && forall b :: b != a ==> !Matches(keyMap, key, b)
  }

  /** None of the events from index n on reports a cursor move. */
  predicate NoCursorEventsFrom(events: seq<UserEvent>, n: nat)
  {
    forall k :: n <= k < |events| ==> !events[k].HighlightedIndexChanged?
  }

  /** The second list extends the first with events none of which reports a
      cursor move. */
  predicate GrowsWithoutCursorEvents(a: seq<UserEvent>, b: seq<UserEvent>)
  {
    |a| <= |b| && b[..|a|] == a && NoCursorEventsFrom(b, |a|)
  }

  /** Events added in two steps, none a cursor move, are events added in
      one step with none a cursor move. */
  lemma EventsGrow(a: seq<UserEvent>, b: seq<UserEvent>, c: seq<UserEvent>)
    requires GrowsWithoutCursorEvents(a, b) && GrowsWithoutCursorEvents(b, c)
    ensures GrowsWithoutCursorEvents(a, c)
  {
    forall k | |a| <= k < |b|
      ensures c[k] == b[k]
    {
      assert c[..|b|][k] == c[k];
    }
    assert c[..|a|] == c[..|b|][..|a|];
  }

  /** What the table is configured with; the dispatcher never changes it. */
  datatype Config = Config(
    columns: seq<Column>,
    /** How the visible rows follow from the rows and the filter query: the
        filter and the sort chain the table was built with. */
    visible: (seq<Row>, string) -> seq<Row>,
    /** Rows per page; 0 means the table is not paged. */
    pageSize: nat,
    freeze: int,
    maxHorizontalColumnIndex: int,
    /** The width budget; 0 means unlimited. */
    maxTotalWidth: int,
    selectableRows: bool,
    focused: bool,
    keyMap: KeyMap)

  /** The table's runtime state, as one value. */
  datatype Snapshot = Snapshot(
    rows: seq<Row>,
    visibleRowCacheUpdated: bool,
    rowCursorIndex: int,
    columnCursorIndex: int,
    currentPage: int,
    horizontalScrollOffsetCol: int,
    lastShowColumnIndex: int,
    filterFocused: bool,
    filterQuery: string,
    userEvents: seq<UserEvent>)

  /** The visible rows: the rows that pass the filter query, in sort order.
      The source keeps them in a cache that every change to the rows or the
      query invalidates, so they are always this function of the state. */
  function Visible(c: Config, s: Snapshot): seq<Row>
  {
    c.visible(s.rows, s.filterQuery)
  }

  /** The filter and the sort give back their own output when only selection
      flags change: the filter looks at cell data and the sort is stable. A
      filter-and-sort that only reads cell data has this property. */
  ghost predicate Settles(visible: (seq<Row>, string) -> seq<Row>)
  {
    forall rows: seq<Row>, query: string, i: int
      :: 0 <= i < |visible(rows, query)| ==>
         visible(ToggledRows(visible(rows, query), i), query) == ToggledRows(visible(rows, query), i)
  }

  /** The cursors are consistent: the row cursor is on a visible row when
      there is one, the page is the one the cursor is on, the column cursor
      is on a column when there is one, and the scroll offset is within its
      bounds. */
  predicate ValidState(c: Config, s: Snapshot)
  {
    (|Visible(c, s)| > 0 ==> 0 <= s.rowCursorIndex < |Visible(c, s)|) &&
    s.currentPage == ExpectedPage(c.pageSize, s.rowCursorIndex) &&
    (|c.columns| > 0 ==> 0 <= s.columnCursorIndex < |c.columns|) &&
    0 <= s.horizontalScrollOffsetCol <= c.maxHorizontalColumnIndex
  }

  /** The row cursor put on row r, with the page following it. */
  function AtRow(c: Config, s: Snapshot, r: int): Snapshot
  {
    s.(rowCursorIndex := r, currentPage := ExpectedPage(c.pageSize, r))
  }

  /** The nearest row to the cursor among count visible rows; the cursor is
      left alone when there are none. */
  function ClampRow(cursor: int, count: nat): (r: int)
    ensures count > 0 ==> 0 <= r < count
    ensures count == 0 || 0 <= cursor < count ==> r == cursor
    ensures count > 0 && cursor < 0 ==> r == 0
    ensures count > 0 && cursor >= count ==> r == count - 1
  {
    if count == 0 then cursor
    else if cursor < 0 then 0
    else if cursor >= count then count - 1
    else cursor
  }

  /** The selection toggle: the rows become the visible rows with the flag
      under the cursor flipped, the cache is invalidated and the new flag is
      reported. Nothing happens when selection is off or the cursor is on no
      visible row (with the cursor invariant: when no row is visible). */
  function Toggled(c: Config, s: Snapshot): Snapshot
  {
    if !c.selectableRows || !(0 <= s.rowCursorIndex < |Visible(c, s)|) then s
    else
      var rows := ToggledRows(Visible(c, s), s.rowCursorIndex);
      s.(rows := rows, visibleRowCacheUpdated := false,
         userEvents := s.userEvents + [RowSelectToggled(s.rowCursorIndex, rows[s.rowCursorIndex].selected)])
  }

  /** The clear key as written: the query is reset and the cache
      invalidated, but the cursor stays where it was, even when it was on no
      row and the cleared filter shows rows again. */
  function ClearedFilterAsWritten(c: Config, s: Snapshot): (t: Snapshot)
    ensures t.filterQuery == "" && !t.visibleRowCacheUpdated && t.rows == s.rows
    ensures t.rowCursorIndex == s.rowCursorIndex && t.currentPage == s.currentPage
  {
    s.(visibleRowCacheUpdated := false, filterQuery := "")
  }

  /** The clear key as the model runs it: as written, and then the cursor
      is clamped onto the rows the cleared filter shows. */
  function ClearedFilter(c: Config, s: Snapshot): (t: Snapshot)
    ensures t.filterQuery == "" && !t.visibleRowCacheUpdated && t.rows == s.rows
    ensures |Visible(c, t)| > 0 ==> 0 <= t.rowCursorIndex < |Visible(c, t)|
    ensures 0 <= s.rowCursorIndex < |Visible(c, t)| ==> t.rowCursorIndex == s.rowCursorIndex
    ensures t.currentPage == ExpectedPage(c.pageSize, t.rowCursorIndex)
  {
    var u := ClearedFilterAsWritten(c, s);
    AtRow(c, u, ClampRow(s.rowCursorIndex, |Visible(c, u)|))
  }

  /** What one bound action does to the state. The blur key does nothing
      from a key press; it only acts while the filter input has focus. */
  function Apply(c: Config, s: Snapshot, a: Action): Snapshot
  {
    match a
    case RowDown => AtRow(c, s, RowBelow(s.rowCursorIndex, |Visible(c, s)|))
    case RowUp => AtRow(c, s, RowAbove(s.rowCursorIndex, |Visible(c, s)|))
    case RowLeft =>
      var m := MoveLeft(s.columnCursorIndex, s.horizontalScrollOffsetCol);
      s.(columnCursorIndex := m.0, horizontalScrollOffsetCol := m.1)
    case RowRight =>
      var m := MoveRight(s.columnCursorIndex, s.horizontalScrollOffsetCol, |c.columns|,
                         s.lastShowColumnIndex, c.maxHorizontalColumnIndex);
      s.(columnCursorIndex := m.0, horizontalScrollOffsetCol := m.1)
    case RowStart => s.(columnCursorIndex := 0, horizontalScrollOffsetCol := 0)
    case RowEnd => s.(columnCursorIndex := |c.columns| - 1, horizontalScrollOffsetCol := c.maxHorizontalColumnIndex)
    case RowTop => AtRow(c, s, 0)
    case RowBottom => AtRow(c, s, |Visible(c, s)| - 1)
    case RowSelectToggle => Toggled(c, s)
    case PageDown => AtRow(c, s, PageDownCursor(s.rowCursorIndex, c.pageSize, |Visible(c, s)|))
    case PageUp => AtRow(c, s, PageUpCursor(s.rowCursorIndex, c.pageSize, |Visible(c, s)|))
    case PageFirst => AtRow(c, s, 0)
    case PageLast => AtRow(c, s, PageLastCursor(s.rowCursorIndex, c.pageSize, |Visible(c, s)|))
    case Filter => s.(filterFocused := true, userEvents := s.userEvents + [FilterInputFocused])
    case FilterBlur => s
    case FilterClear => ClearedFilter(c, s)
    case ScrollRight =>
      s.(horizontalScrollOffsetCol := Navigation.ScrollRight(s.horizontalScrollOffsetCol, c.maxHorizontalColumnIndex))
    case ScrollLeft => s.(horizontalScrollOffsetCol := Navigation.ScrollLeft(s.horizontalScrollOffsetCol))
  }

  /** An action runs when the key is bound to it. */
  function Step(c: Config, s: Snapshot, key: string, a: Action): Snapshot
  {
    if Matches(c.keyMap, key, a) then Apply(c, s, a) else s
  }

  /** Tries the actions in order, running every one the key is bound to. */
  function RunActions(c: Config, s: Snapshot, key: string, acts: seq<Action>): Snapshot
    decreases |acts|
  {
    if acts == [] then s else RunActions(c, Step(c, s, key, acts[0]), key, acts[1..])
  }

  // The order in which a key press tries the bindings, group by group.
  const RowStepOrder: seq<Action> := [RowDown, RowUp]
  const ColumnStepOrder: seq<Action> := [RowLeft, RowRight]
  const ColumnJumpOrder: seq<Action> := [RowStart, RowEnd]
  const RowJumpOrder: seq<Action> := [RowTop, RowBottom]
  const SelectOrder: seq<Action> := [RowSelectToggle]
  const PageStepOrder: seq<Action> := [PageDown, PageUp]
  const PageJumpOrder: seq<Action> := [PageFirst, PageLast]
  const FilterOrder: seq<Action> := [Filter, FilterClear]
  const ScrollOrder: seq<Action> := [Action.ScrollRight, Action.ScrollLeft]
  const BindingOrder: seq<Action> :=
    RowStepOrder + ColumnStepOrder + ColumnJumpOrder + RowJumpOrder + SelectOrder +
    PageStepOrder + PageJumpOrder + FilterOrder + ScrollOrder

  /** A key press: the bindings in order, then a report of the cursor move
      when the row cursor ended somewhere else. */
  function PressKey(c: Config, s: Snapshot, key: string): Snapshot
  {
    var t := RunActions(c, s, key, BindingOrder);
    if t.rowCursorIndex != s.rowCursorIndex then
      t.(userEvents := t.userEvents + [HighlightedIndexChanged(s.rowCursorIndex, t.rowCursorIndex)])
    else t
  }

  /** The filter input's share of a message: the blur key unfocuses it, and
      any message sends the cursor to the first page and invalidates the
      visible rows. The query text is not edited here. */
  function FilterInput(c: Config, s: Snapshot, msg: Msg): Snapshot
  {
    var blurred := msg.KeyPress? && Matches(c.keyMap, msg.key, FilterBlur);
    AtRow(c, s.(filterFocused := s.filterFocused && !blurred, visibleRowCacheUpdated := false), 0)
  }

  /** One dispatch of a message. */
  function Dispatch(c: Config, s: Snapshot, msg: Msg): Snapshot
  {
    var s0 := s.(userEvents := []);
    if !c.focused then s0
    else if s0.filterFocused then
      var t := FilterInput(c, s0, msg);
      if !t.filterFocused then t.(userEvents := t.userEvents + [FilterInputUnfocused]) else t
    else if msg.KeyPress? then PressKey(c, s0, msg.key)
    else s0
  }

  /** Every action keeps the cursors consistent (the clear key because the
      model clamps the cursor; the toggle because the visible rows settle). */
  lemma ApplyKeepsValid(c: Config, s: Snapshot, a: Action)
    requires Settles(c.visible) && ValidState(c, s)
    ensures ValidState(c, Apply(c, s, a))
  {
    if |c.columns| > 0 {
      ColumnMovesStayInRange(s.columnCursorIndex, s.horizontalScrollOffsetCol, |c.columns|,
                             s.lastShowColumnIndex, c.maxHorizontalColumnIndex);
    }
    if a == RowSelectToggle && c.selectableRows && 0 <= s.rowCursorIndex < |Visible(c, s)| {
      assert Visible(c, Toggled(c, s)) == ToggledRows(Visible(c, s), s.rowCursorIndex);
    }
  }

  lemma {:induction false} RunActionsKeepsValid(c: Config, s: Snapshot, key: string, acts: seq<Action>)
    requires Settles(c.visible) && ValidState(c, s)
    ensures ValidState(c, RunActions(c, s, key, acts))
    decreases |acts|
  {
    if acts != [] {
      ApplyKeepsValid(c, s, acts[0]);
      RunActionsKeepsValid(c, Step(c, s, key, acts[0]), key, acts[1..]);
    }
  }

  /** Trying two lists of actions one after the other is trying their
      concatenation. */
  lemma {:induction false} RunActionsAppend(c: Config, s: Snapshot, key: string, a: seq<Action>, b: seq<Action>)
    ensures RunActions(c, s, key, a + b) == RunActions(c, RunActions(c, s, key, a), key, b)
    decreases |a|
  {
    if a == [] {
      assert a + b == b;
    } else {
      assert (a + b)[0] == a[0];
      assert (a + b)[1..] == a[1..] + b;
      RunActionsAppend(c, Step(c, s, key, a[0]), key, a[1..], b);
    }
  }

  /** Running a short list of actions step by step. */
  lemma RunActionsTwo(c: Config, s: Snapshot, key: string, a: Action, b: Action)
    ensures RunActions(c, s, key, [a, b]) == Step(c, Step(c, s, key, a), key, b)
  {
    var s1 := Step(c, s, key, a);
    assert [a, b][0] == a && [a, b][1..] == [b];
    assert RunActions(c, s, key, [a, b]) == RunActions(c, s1, key, [b]);
    assert [b][0] == b && [b][1..] == [];
    assert RunActions(c, s1, key, [b]) == RunActions(c, Step(c, s1, key, b), key, []);
  }

  /** Actions the key is not bound to change nothing. */
  lemma {:induction false} RunActionsUnbound(c: Config, s: Snapshot, key: string, acts: seq<Action>)
    requires forall i :: 0 <= i < |acts| ==> !Matches(c.keyMap, key, acts[i])
    ensures RunActions(c, s, key, acts) == s
    decreases |acts|
  {
    if acts != [] {
      RunActionsUnbound(c, s, key, acts[1..]);
    }
  }

  predicate Distinct(acts: seq<Action>)
  {
    forall i, j :: 0 <= i < j < |acts| ==> acts[i] != acts[j]
  }

  /** When a is the only action of a list without repeats that the key is
      bound to, trying the list runs a alone. */
  lemma {:induction false} RunActionsOnly(c: Config, s: Snapshot, key: string, acts: seq<Action>, a: Action)
    requires Distinct(acts)
    requires forall i :: 0 <= i < |acts| && acts[i] != a ==> !Matches(c.keyMap, key, acts[i])
    ensures RunActions(c, s, key, acts) == if a in acts then Step(c, s, key, a) else s
    decreases |acts|
  {
    if acts != [] {
      if acts[0] == a {
        forall i | 0 <= i < |acts[1..]|
          ensures !Matches(c.keyMap, key, acts[1..][i])
        {
          assert acts[1..][i] == acts[i + 1] != acts[0];
        }
        RunActionsUnbound(c, Step(c, s, key, a), key, acts[1..]);
      } else {
        RunActionsOnly(c, s, key, acts[1..], a);
        assert a in acts <==> a in acts[1..] by {
          assert acts == [acts[0]] + acts[1..];
        }
      }
    }
  }

  /** Where an action stands in the binding order; the blur key, which a
      key press never runs, comes after all of them. */
  function Position(a: Action): nat
  {
    match a
    case RowDown => 0
    case RowUp => 1
    case RowLeft => 2
    case RowRight => 3
    case RowStart => 4
    case RowEnd => 5
    case RowTop => 6
    case RowBottom => 7
    case RowSelectToggle => 8
    case PageDown => 9
    case PageUp => 10
    case PageFirst => 11
    case PageLast => 12
    case Filter => 13
    case FilterClear => 14
    case ScrollRight => 15
    case ScrollLeft => 16
    case FilterBlur => 17
  }

  /** A key press tries every action but the blur key, each exactly once. */
  lemma BindingOrderLists()
    ensures Distinct(BindingOrder)
    ensures FilterBlur !in BindingOrder
    ensures forall a :: a != FilterBlur ==> a in BindingOrder
  {
    var order := [RowDown, RowUp, RowLeft, RowRight, RowStart, RowEnd, RowTop, RowBottom, RowSelectToggle,
                  PageDown, PageUp, PageFirst, PageLast, Filter, FilterClear, Action.ScrollRight, Action.ScrollLeft];
    assert BindingOrder == order;
    assert forall i :: 0 <= i < |order| ==> Position(order[i]) == i;
    forall a | a != FilterBlur
      ensures a in BindingOrder
    {
      assert order[Position(a)] == a;
    }
  }

  /** Each action adds at most one event, never a cursor move. */
  lemma ApplyEvents(c: Config, s: Snapshot, a: Action)
    ensures GrowsWithoutCursorEvents(s.userEvents, Apply(c, s, a).userEvents)
  {
    var t := Apply(c, s, a);
    if t.userEvents != s.userEvents {
      assert t.userEvents[..|s.userEvents|] == s.userEvents;
    }
  }

  lemma {:induction false} RunActionsEvents(c: Config, s: Snapshot, key: string, acts: seq<Action>)
    ensures GrowsWithoutCursorEvents(s.userEvents, RunActions(c, s, key, acts).userEvents)
    decreases |acts|
  {
    if acts == [] {
      assert s.userEvents[..|s.userEvents|] == s.userEvents;
    } else {
      var s1 := Step(c, s, key, acts[0]);
      if Matches(c.keyMap, key, acts[0]) {
        ApplyEvents(c, s, acts[0]);
      } else {
        assert s.userEvents[..|s.userEvents|] == s.userEvents;
      }
      RunActionsEvents(c, s1, key, acts[1..]);
      EventsGrow(s.userEvents, s1.userEvents, RunActions(c, s, key, acts).userEvents);
    }
  }

  /** Actions that leave the row cursor and the page alone. */
  predicate KeepsRow(a: Action)
  {
    a.RowLeft? || a.RowRight? || a.RowStart? || a.RowEnd? || a.RowSelectToggle? ||
    a.Filter? || a.FilterBlur? || a.ScrollRight? || a.ScrollLeft?
  }

  /** From row 0 on page 0, actions that keep the row, and the clear key
      (which clamps row 0 to itself), stay on row 0, page 0. */
  lemma {:induction false} RunActionsStayOnFirstRow(c: Config, s: Snapshot, key: string, acts: seq<Action>)
    requires s.rowCursorIndex == 0 && s.currentPage == 0
    requires forall i :: 0 <= i < |acts| ==> KeepsRow(acts[i]) || acts[i] == FilterClear
    ensures RunActions(c, s, key, acts).rowCursorIndex == 0
    ensures RunActions(c, s, key, acts).currentPage == 0
    decreases |acts|
  {
    if acts != [] {
      RunActionsStayOnFirstRow(c, Step(c, s, key, acts[0]), key, acts[1..]);
    }
  }

  /** A key press keeps the cursors consistent. */
  lemma PressKeyKeepsValid(c: Config, s: Snapshot, key: string)
    requires Settles(c.visible) && ValidState(c, s)
    ensures ValidState(c, PressKey(c, s, key))
  {
    RunActionsKeepsValid(c, s, key, BindingOrder);
  }

  /** A key press reports a cursor move, as its last new event, exactly when
      the row cursor ended on another row; no other new event is a cursor
      move, and the earlier events are kept. */
  lemma PressKeyReportsCursorMove(c: Config, s: Snapshot, key: string)
    ensures var t := PressKey(c, s, key);
      |s.userEvents| <= |t.userEvents| && t.userEvents[..|s.userEvents|] == s.userEvents &&
      (t.rowCursorIndex != s.rowCursorIndex <==>
        |t.userEvents| > |s.userEvents| &&
        t.userEvents[|t.userEvents| - 1] == HighlightedIndexChanged(s.rowCursorIndex, t.rowCursorIndex)) &&
      (t.rowCursorIndex == s.rowCursorIndex ==> NoCursorEventsFrom(t.userEvents, |s.userEvents|)) &&
      (t.rowCursorIndex != s.rowCursorIndex ==> NoCursorEventsFrom(t.userEvents[..|t.userEvents| - 1], |s.userEvents|))
  {
    var r := RunActions(c, s, key, BindingOrder);
    RunActionsEvents(c, s, key, BindingOrder);
    var t := PressKey(c, s, key);
    if r.rowCursorIndex != s.rowCursorIndex {
      assert t.userEvents[..|t.userEvents| - 1] == r.userEvents;
      assert t.userEvents[..|s.userEvents|] == r.userEvents[..|s.userEvents|];
    } else if |t.userEvents| > |s.userEvents| {
      assert !t.userEvents[|t.userEvents| - 1].HighlightedIndexChanged?;
    }
  }

  /** A key bound to nothing changes nothing. */
  lemma PressKeyUnbound(c: Config, s: Snapshot, key: string)
    requires Unbound(c.keyMap, key)
    ensures PressKey(c, s, key) == s
  {
    RunActionsUnbound(c, s, key, BindingOrder);
  }

  /** A key bound to one action does that action alone, then reports the
      cursor move if there was one. For the blur key that is nothing. */
  lemma PressKeyOnlyBinding(c: Config, s: Snapshot, key: string, a: Action)
    requires OnlyBinding(c.keyMap, key, a)
    ensures var t := if a == FilterBlur then s else Apply(c, s, a);
      PressKey(c, s, key) ==
        if t.rowCursorIndex != s.rowCursorIndex then
          t.(userEvents := t.userEvents + [HighlightedIndexChanged(s.rowCursorIndex, t.rowCursorIndex)])
        else t
  {
    BindingOrderLists();
    RunActionsOnly(c, s, key, BindingOrder, a);
  }

  /** The first-page binding comes after every other row move, so a key
      bound to it (and not to the last page) always ends on row 0, page 0,
      whatever else it is bound to. */
  lemma PressKeyFirstPageWins(c: Config, s: Snapshot, key: string)
    requires Matches(c.keyMap, key, PageFirst) && !Matches(c.keyMap, key, PageLast)
    ensures PressKey(c, s, key).rowCursorIndex == 0 && PressKey(c, s, key).currentPage == 0
  {
    var before := RowStepOrder + ColumnStepOrder + ColumnJumpOrder + RowJumpOrder + SelectOrder + PageStepOrder;
    var after := FilterOrder + ScrollOrder;
    assert BindingOrder == before + PageJumpOrder + after;
    RunActionsAppend(c, s, key, before + PageJumpOrder, after);
    RunActionsAppend(c, s, key, before, PageJumpOrder);
    var m := RunActions(c, s, key, before);
    RunActionsTwo(c, m, key, PageFirst, PageLast);
    RunActionsStayOnFirstRow(c, RunActions(c, m, key, PageJumpOrder), key, after);
  }

  /** With the default bindings "g" jumps to the top row and to the first
      page, and lands on row 0, page 0. */
  lemma DefaultTopKeyLandsOnFirstRow(c: Config, s: Snapshot)
    requires c.keyMap == DefaultKeyMap
    ensures PressKey(c, s, "g").rowCursorIndex == 0 && PressKey(c, s, "g").currentPage == 0
  {
    DefaultKeyMapOverlaps();
    assert !Matches(DefaultKeyMap, "g", PageLast);
    PressKeyFirstPageWins(c, s, "g");
  }

  /** One dispatch keeps the cursors consistent. */
  lemma DispatchKeepsValid(c: Config, s: Snapshot, msg: Msg)
    requires Settles(c.visible) && ValidState(c, s)
    ensures ValidState(c, Dispatch(c, s, msg))
  {
    if msg.KeyPress? {
      PressKeyKeepsValid(c, s.(userEvents := []), msg.key);
    }
  }

  /** How a dispatch routes a message: events always start empty; an
      unfocused table changes nothing else; while the filter input has focus
      only the filter path runs, which keeps the rows, the column position
      and the query, and reports losing focus exactly when the blur key was
      pressed; otherwise a key press runs the bindings and anything else is
      ignored. */
  lemma DispatchRoutes(c: Config, s: Snapshot, msg: Msg)
    ensures !c.focused ==> Dispatch(c, s, msg) == s.(userEvents := [])
    ensures c.focused && s.filterFocused ==>
      var t := Dispatch(c, s, msg);
      var blurred := msg.KeyPress? && Matches(c.keyMap, msg.key, FilterBlur);
      t.filterFocused == !blurred && t.rowCursorIndex == 0 && t.currentPage == 0 && !t.visibleRowCacheUpdated &&
      t.rows == s.rows && t.columnCursorIndex == s.columnCursorIndex &&
      t.horizontalScrollOffsetCol == s.horizontalScrollOffsetCol &&
      t.lastShowColumnIndex == s.lastShowColumnIndex && t.filterQuery == s.filterQuery &&
      t.userEvents == (if blurred then [FilterInputUnfocused] else [])
    ensures c.focused && !s.filterFocused && msg.OtherMsg? ==> Dispatch(c, s, msg) == s.(userEvents := [])
    ensures c.focused && !s.filterFocused && msg.KeyPress? ==>
      Dispatch(c, s, msg) == PressKey(c, s.(userEvents := []), msg.key)
  {
  }

  /** A focused, unfiltered table reports a cursor move exactly when a key
      press moved the row cursor, as the last event of the dispatch. */
  lemma DispatchReportsCursorMove(c: Config, s: Snapshot, key: string)
    requires c.focused && !s.filterFocused
    ensures var t := Dispatch(c, s, KeyPress(key));
      t.rowCursorIndex != s.rowCursorIndex <==>
        |t.userEvents| > 0 && t.userEvents[|t.userEvents| - 1] == HighlightedIndexChanged(s.rowCursorIndex, t.rowCursorIndex)
  {
    PressKeyReportsCursorMove(c, s.(userEvents := []), key);
  }

  /** The toggle writes back only the visible rows: when a filter hides
      some rows, the rows after a toggle are fewer than before and are not a
      permutation of them, so the hidden rows are gone for good. */
  lemma ToggleKeepsOnlyVisibleRows(c: Config, s: Snapshot)
    requires c.selectableRows && 0 <= s.rowCursorIndex < |Visible(c, s)| < |s.rows|
    ensures |Toggled(c, s).rows| < |s.rows|
    ensures multiset(Toggled(c, s).rows) != multiset(s.rows)
  {
    var t := Toggled(c, s).rows;
    assert |multiset(t)| == |t|;
    assert |multiset(s.rows)| == |s.rows|;
  }

  /** A filter that shows every row for the empty query and hides every
      row for any other; it settles, as any filter on cell data does. */
  function HideOnQuery(rows: seq<Row>, query: string): (r: seq<Row>)
    ensures query == "" ==> r == rows
    ensures query != "" ==> r == []
  {
    if query == "" then rows else []
  }

  lemma HideOnQuerySettles()
    ensures Settles(HideOnQuery)
  {
  }

  /** The clear key as written leaves the cursor on no row: when the filter
      hides every row, the bottom key puts the cursor at -1, and clearing the
      filter shows rows again with the cursor still at -1, where a toggle
      would index row -1. */
  lemma ClearAfterBottomAsWrittenLeavesNoRow(c: Config, s: Snapshot)
    requires Visible(c, s) == [] && c.visible(s.rows, "") != []
    ensures var t := ClearedFilterAsWritten(c, Apply(c, s, RowBottom));
      t.rowCursorIndex == -1 && |Visible(c, t)| > 0 && !ValidState(c, t)
    ensures var t := ClearedFilter(c, Apply(c, s, RowBottom));
      t.rowCursorIndex == 0 && t.currentPage == 0 && (ValidState(c, s) ==> ValidState(c, t))
  {
    var b := Apply(c, s, RowBottom);
    assert b.rowCursorIndex == -1;
    assert Visible(c, ClearedFilterAsWritten(c, b)) == c.visible(s.rows, "");
  }

  /** One such input: one row, a query that hides it, a valid state. */
  lemma ClearAfterBottomExample(key: string)
    ensures var c := Config([], HideOnQuery, 0, 0, 0, 0, true, true, DefaultKeyMap);
      var s := Snapshot([NewRow(map[])], true, 0, 0, 0, 0, 0, false, "x", []);
      ValidState(c, s) && Settles(c.visible) &&
      !ValidState(c, ClearedFilterAsWritten(c, Apply(c, s, RowBottom))) &&
      ValidState(c, ClearedFilter(c, Apply(c, s, RowBottom)))
  {
    var c := Config([], HideOnQuery, 0, 0, 0, 0, true, true, DefaultKeyMap);
    var s := Snapshot([NewRow(map[])], true, 0, 0, 0, 0, 0, false, "x", []);
    HideOnQuerySettles();
    ClearAfterBottomAsWrittenLeavesNoRow(c, s);
  }

  /** Two presses of a key bound only to the toggle, on a visible row, give
      the selection back: the rows are the visible rows as they were, and the
      two events report the flag flipped and then flipped back. */
  lemma ToggleTwiceRestores(c: Config, s: Snapshot, key: string)
    requires Settles(c.visible) && OnlyBinding(c.keyMap, key, RowSelectToggle)
    requires c.selectableRows && 0 <= s.rowCursorIndex < |Visible(c, s)|
    ensures var i, v := s.rowCursorIndex, Visible(c, s);
      var t := PressKey(c, PressKey(c, s, key), key);
      t.rows == v && Visible(c, t) == v && t.rowCursorIndex == i &&
      t.userEvents == s.userEvents + [RowSelectToggled(i, !v[i].selected), RowSelectToggled(i, v[i].selected)]
  {
    var i, v := s.rowCursorIndex, Visible(c, s);
    PressKeyOnlyBinding(c, s, key, RowSelectToggle);
    var s1 := Toggled(c, s);
    assert Visible(c, s1) == ToggledRows(v, i);
    PressKeyOnlyBinding(c, s1, key, RowSelectToggle);
    ToggledRowsTwice(v, i);
  }

  /** Toggling a row, moving down and toggling the next row leaves both
      flipped: the flips accumulate, in either order. */
  lemma TogglesCommute(c: Config, s: Snapshot, select: string, down: string)
    requires Settles(c.visible)
    requires OnlyBinding(c.keyMap, select, RowSelectToggle) && OnlyBinding(c.keyMap, down, RowDown)
    requires c.selectableRows && 0 <= s.rowCursorIndex < |Visible(c, s)|
    ensures var i, v := s.rowCursorIndex, Visible(c, s);
      var j := RowBelow(i, |v|);
      var t := PressKey(c, PressKey(c, PressKey(c, s, select), down), select);
      t.rows == ToggledRows(ToggledRows(v, i), j) == ToggledRows(ToggledRows(v, j), i) &&
      Visible(c, t) == t.rows &&
      (|v| > 1 ==> t.rows[i].selected == !v[i].selected && t.rows[j].selected == !v[j].selected)
  {
    var i, v := s.rowCursorIndex, Visible(c, s);
    var j := RowBelow(i, |v|);
    PressKeyOnlyBinding(c, s, select, RowSelectToggle);
    var s1 := Toggled(c, s);
    assert Visible(c, s1) == ToggledRows(v, i);
    PressKeyOnlyBinding(c, s1, down, RowDown);
    var s2 := PressKey(c, s1, down);
    assert s2.rows == s1.rows && s2.filterQuery == s1.filterQuery && s2.rowCursorIndex == j;
    PressKeyOnlyBinding(c, s2, select, RowSelectToggle);
    assert Visible(c, Toggled(c, s2)) == ToggledRows(ToggledRows(v, i), j);
    ToggledRowsCommute(v, i, j);
  }

  class TableState {
    // Configuration: set when the table is built and never changed by the
    // dispatcher.
    const columns: seq<Column>
    /** The filter and the sort chain: how the visible rows follow from the
        rows and the query. */
    const visible: (seq<Row>, string) -> seq<Row>
    /** Rows per page; 0 means the table is not paged. */
    const pageSize: nat
    const horizontalScrollFreezeColumnsCount: int
    const maxHorizontalColumnIndex: int
    /** The width budget; 0 means unlimited. */
    const maxTotalWidth: int
    const selectableRows: bool
    const focused: bool
    const keyMap: KeyMap

    // Runtime state, updated in place.
    var rows: seq<Row>
    /** False once something has changed that the visible rows depend on. */
    var visibleRowCacheUpdated: bool
    var rowCursorIndex: int
    var columnCursorIndex: int
    var currentPage: int
    var horizontalScrollOffsetCol: int
    var lastShowColumnIndex: int
    var filterFocused: bool
    var filterQuery: string
    /** The events of the current dispatch, cleared at its start. */
    var userEvents: seq<UserEvent>

    function Conf(): Config
    {
      Config(columns, visible, pageSize, horizontalScrollFreezeColumnsCount, maxHorizontalColumnIndex,
             maxTotalWidth, selectableRows, focused, keyMap)
    }

    function Snap(): Snapshot
      reads this
    {
      Snapshot(rows, visibleRowCacheUpdated, rowCursorIndex, columnCursorIndex, currentPage,
               horizontalScrollOffsetCol, lastShowColumnIndex, filterFocused, filterQuery, userEvents)
    }

    /** The rows that pass the filter, in sort order. */
    function VisibleRows(): seq<Row>
      reads this
    {
      Visible(Conf(), Snap())
    }

    ghost predicate Valid()
      reads this
    {
      Settles(visible) && ValidState(Conf(), Snap())
    }

    /** A runtime table with the given configuration and filter query: the
        cursors on the first row and column, unscrolled, the filter input
        unfocused and no events. The filter and sort must settle. */
    constructor (columns: seq<Column>, rows: seq<Row>, visible: (seq<Row>, string) -> seq<Row>, pageSize: nat,
                 freeze: int, maxHorizontalColumnIndex: int, maxTotalWidth: int, selectableRows: bool,
                 focused: bool, keyMap: KeyMap, filterQuery: string)
      requires Settles(visible)
      requires maxHorizontalColumnIndex >= 0
      ensures Valid()
      ensures Conf() == Config(columns, visible, pageSize, freeze, maxHorizontalColumnIndex, maxTotalWidth,
                               selectableRows, focused, keyMap)
      ensures Snap() == Snapshot(rows, true, 0, 0, 0, 0, 0, false, filterQuery, [])
    {
      this.columns := columns;
      this.visible := visible;
      this.pageSize := pageSize;
      horizontalScrollFreezeColumnsCount := freeze;
      this.maxHorizontalColumnIndex := maxHorizontalColumnIndex;
      this.maxTotalWidth := maxTotalWidth;
      this.selectableRows := selectableRows;
      this.focused := focused;
      this.keyMap := keyMap;
      this.rows := rows;
      visibleRowCacheUpdated := true;
      rowCursorIndex := 0;
      columnCursorIndex := 0;
      currentPage := ExpectedPage(pageSize, 0);
      horizontalScrollOffsetCol := 0;
      lastShowColumnIndex := 0;
      filterFocused := false;
      this.filterQuery := filterQuery;
      userEvents := [];
    }

    method AppendUserEvent(e: UserEvent)
      modifies this`userEvents
      ensures userEvents == old(userEvents) + [e]
    {
      userEvents := userEvents + [e];
    }

    method ClearUserEvents()
      modifies this`userEvents
      ensures userEvents == []
    {
      userEvents := [];
    }

    /** Up one row, wrapping from the first visible row to the last. */
    method MoveHighlightUp()
      requires Valid()
      modifies this`rowCursorIndex, this`currentPage
      ensures Valid()
      ensures rowCursorIndex == RowAbove(old(rowCursorIndex), |VisibleRows()|)
      ensures currentPage == ExpectedPage(pageSize, rowCursorIndex)
    {
      rowCursorIndex := rowCursorIndex - 1;
      if rowCursorIndex < 0 {
        rowCursorIndex := |VisibleRows()| - 1;
      }
      currentPage := ExpectedPage(pageSize, rowCursorIndex);
    }

    /** Down one row, wrapping from the last visible row to the first. */
    method MoveHighlightDown()
      requires Valid()
      modifies this`rowCursorIndex, this`currentPage
      ensures Valid()
      ensures rowCursorIndex == RowBelow(old(rowCursorIndex), |VisibleRows()|)
      ensures currentPage == ExpectedPage(pageSize, rowCursorIndex)
    {
      rowCursorIndex := rowCursorIndex + 1;
      if rowCursorIndex >= |VisibleRows()| {
        rowCursorIndex := 0;
      }
      currentPage := ExpectedPage(pageSize, rowCursorIndex);
    }

    method MoveHighlightTop()
      requires Valid()
      modifies this`rowCursorIndex, this`currentPage
      ensures Valid()
      ensures rowCursorIndex == 0 && currentPage == ExpectedPage(pageSize, 0)
    {
      rowCursorIndex := 0;
      currentPage := ExpectedPage(pageSize, rowCursorIndex);
    }

    /** To the last visible row; with none visible the cursor becomes -1. */
    method MoveHighlightBottom()
      requires Valid()
      modifies this`rowCursorIndex, this`currentPage
      ensures Valid()
      ensures rowCursorIndex == |VisibleRows()| - 1
      ensures currentPage == ExpectedPage(pageSize, rowCursorIndex)
    {
      rowCursorIndex := |VisibleRows()| - 1;
      currentPage := ExpectedPage(pageSize, rowCursorIndex);
    }

    method ScrollLeft()
      requires Valid()
      modifies this`horizontalScrollOffsetCol
      ensures Valid()
      ensures horizontalScrollOffsetCol == Navigation.ScrollLeft(old(horizontalScrollOffsetCol))
    {
      if horizontalScrollOffsetCol > 0 {
        horizontalScrollOffsetCol := horizontalScrollOffsetCol - 1;
      }
    }

    method ScrollRight()
      requires Valid()
      modifies this`horizontalScrollOffsetCol
      ensures Valid()
      ensures horizontalScrollOffsetCol == Navigation.ScrollRight(old(horizontalScrollOffsetCol), maxHorizontalColumnIndex)
    {
      if horizontalScrollOffsetCol < maxHorizontalColumnIndex {
        horizontalScrollOffsetCol := horizontalScrollOffsetCol + 1;
      }
    }

    /** Left one column, stopping at the first; scrolls left when the new
        column is at or before the scroll offset but not the first. */
    method MoveHighlightLeft()
      requires Valid()
      modifies this`columnCursorIndex, this`horizontalScrollOffsetCol
      ensures Valid()
      ensures (columnCursorIndex, horizontalScrollOffsetCol) ==
        MoveLeft(old(columnCursorIndex), old(horizontalScrollOffsetCol))
    {
      columnCursorIndex := columnCursorIndex - 1;
      if columnCursorIndex < 0 {
        columnCursorIndex := 0;
      }
      if columnCursorIndex > 0 && columnCursorIndex <= horizontalScrollOffsetCol {
        ScrollLeft();
      }
    }

    /** Right one column, stopping at the last; scrolls right when the new
        column is at or past the last shown one and is not the last. */
    method MoveHighlightRight()
      requires Valid()
      modifies this`columnCursorIndex, this`horizontalScrollOffsetCol
      ensures Valid()
      ensures (columnCursorIndex, horizontalScrollOffsetCol) ==
        MoveRight(old(columnCursorIndex), old(horizontalScrollOffsetCol), |columns|,
                  lastShowColumnIndex, maxHorizontalColumnIndex)
    {
      columnCursorIndex := columnCursorIndex + 1;
      if columnCursorIndex >= |columns| {
        columnCursorIndex := |columns| - 1;
      }
      if columnCursorIndex >= lastShowColumnIndex && columnCursorIndex != |columns| - 1 {
        ScrollRight();
      }
    }

    method MoveHighlightedRowStart()
      requires Valid()
      modifies this`columnCursorIndex, this`horizontalScrollOffsetCol
      ensures Valid()
      ensures columnCursorIndex == 0 && horizontalScrollOffsetCol == 0
    {
      columnCursorIndex := 0;
      horizontalScrollOffsetCol := 0;
    }

    /** To the last column, scrolled as far right as the table allows. With
        no columns the column cursor becomes -1. */
    method MoveHighlightedRowEnd()
      requires Valid()
      modifies this`columnCursorIndex, this`horizontalScrollOffsetCol
      ensures Valid()
      ensures columnCursorIndex == |columns| - 1
      ensures horizontalScrollOffsetCol == maxHorizontalColumnIndex
    {
      columnCursorIndex := |columns| - 1;
      horizontalScrollOffsetCol := maxHorizontalColumnIndex;
    }

    method PageDown()
      requires Valid()
      modifies this`rowCursorIndex, this`currentPage
      ensures Valid()
      ensures rowCursorIndex == PageDownCursor(old(rowCursorIndex), pageSize, |VisibleRows()|)
    {
      rowCursorIndex := PageDownCursor(rowCursorIndex, pageSize, |VisibleRows()|);
      currentPage := ExpectedPage(pageSize, rowCursorIndex);
    }

    method PageUp()
      requires Valid()
      modifies this`rowCursorIndex, this`currentPage
      ensures Valid()
      ensures rowCursorIndex == PageUpCursor(old(rowCursorIndex), pageSize, |VisibleRows()|)
    {
      rowCursorIndex := PageUpCursor(rowCursorIndex, pageSize, |VisibleRows()|);
      currentPage := ExpectedPage(pageSize, rowCursorIndex);
    }

    method PageFirst()
      requires Valid()
      modifies this`rowCursorIndex, this`currentPage
      ensures Valid()
      ensures rowCursorIndex == 0 && currentPage == 0
    {
      rowCursorIndex := 0;
      currentPage := ExpectedPage(pageSize, rowCursorIndex);
    }

    method PageLast()
      requires Valid()
      modifies this`rowCursorIndex, this`currentPage
      ensures Valid()
      ensures rowCursorIndex == PageLastCursor(old(rowCursorIndex), pageSize, |VisibleRows()|)
      ensures |VisibleRows()| > 0 ==> currentPage == MaxPages(pageSize, |VisibleRows()|) - 1
    {
      rowCursorIndex := PageLastCursor(rowCursorIndex, pageSize, |VisibleRows()|);
      currentPage := ExpectedPage(pageSize, rowCursorIndex);
    }

    /** What the width-budget pass reads from the table. */
    function Window(render: (Layout.Header, Layout.Border) -> nat): Layout.Window
      reads this
    {
      Layout.Window(columns, horizontalScrollFreezeColumnsCount, horizontalScrollOffsetCol, maxTotalWidth, render)
    }

    /** Walks the columns, skipping the scrolled-away ones, adding up header
        widths, and records the first column that does not fit. */
    method CalcLastShowColumnIndex(render: (Layout.Header, Layout.Border) -> nat)
      modifies this`lastShowColumnIndex
      ensures lastShowColumnIndex == Layout.LastShown(Window(render), old(lastShowColumnIndex), 0)
    {
      ghost var w := Window(render);
      var totalRenderedWidth := 0;
      var shown := false;
      for columnIndex := 0 to |columns|
        invariant Layout.Before(w, columnIndex) == Layout.Progress(totalRenderedWidth, shown)
        invariant Layout.LastShown(w, old(lastShowColumnIndex), 0) ==
          Layout.LastShown(w, old(lastShowColumnIndex), columnIndex)
        invariant lastShowColumnIndex == old(lastShowColumnIndex)
      {
        if horizontalScrollOffsetCol > 0 && columnIndex == horizontalScrollFreezeColumnsCount {
          var border := if columnIndex == 0 then Layout.LeftEdge else Layout.InnerEdge;
          totalRenderedWidth := totalRenderedWidth + render(Layout.OverflowLeft(1), border);
        }
        if horizontalScrollFreezeColumnsCount <= columnIndex < horizontalScrollOffsetCol + horizontalScrollFreezeColumnsCount {
          continue;
        }
        var border :=
          if !shown then Layout.LeftEdge
          else if columnIndex < |columns| - 1 then Layout.InnerEdge
          else Layout.RightEdge;
        var renderedWidth := render(Layout.ColumnHeader(columns[columnIndex]), border);
        if maxTotalWidth != 0 {
          var targetWidth := maxTotalWidth - Layout.OverflowColWidth;
          if columnIndex == |columns| - 1 {
            targetWidth := maxTotalWidth;
          }
          if totalRenderedWidth + renderedWidth > targetWidth {
            assert Layout.Overflows(w, columnIndex);
            lastShowColumnIndex := columnIndex;
            break;
          }
          totalRenderedWidth := totalRenderedWidth + renderedWidth;
        }
        shown := true;
      }
    }

    /** Flips the selection of the row under the cursor. The source rows are
        replaced by a copy of the visible rows with that one flag flipped,
        the visible-row cache is invalidated, and an event reports the row
        and its new state. Nothing happens when selection is off or no row
        is visible. */
    method ToggleSelect()
      requires Valid()
      modifies this`rows, this`visibleRowCacheUpdated, this`userEvents
      ensures Valid()
      ensures Snap() == Toggled(Conf(), old(Snap()))
    {
      ghost var s0 := Snap();
      var visibleRows := VisibleRows();
      if !selectableRows || |visibleRows| == 0 {
        return;
      }
      var copy := new Row[|visibleRows|](i requires 0 <= i < |visibleRows| => visibleRows[i]);
      var currentSelectedState := copy[rowCursorIndex].selected;
      copy[rowCursorIndex] := copy[rowCursorIndex].(selected := !currentSelectedState);
      rows := copy[..];
      visibleRowCacheUpdated := false;
      AppendUserEvent(RowSelectToggled(rowCursorIndex, !currentSelectedState));
      assert Snap() == Toggled(Conf(), s0);
      ApplyKeepsValid(Conf(), s0, RowSelectToggle);
    }

    /** The clear key: the query is reset, the visible rows are invalidated,
        and the cursor is clamped onto the rows the cleared filter shows. */
    method ClearFilter()
      requires Valid()
      modifies this`visibleRowCacheUpdated, this`filterQuery, this`rowCursorIndex, this`currentPage
      ensures Valid()
      ensures Snap() == ClearedFilter(Conf(), old(Snap()))
    {
      visibleRowCacheUpdated := false;
      filterQuery := "";
      rowCursorIndex := ClampRow(rowCursorIndex, |VisibleRows()|);
      currentPage := ExpectedPage(pageSize, rowCursorIndex);
    }

    /** The filter input's share of a message. */
    method UpdateFilterTextInput(msg: Msg)
      requires Valid()
      modifies this`filterFocused, this`rowCursorIndex, this`currentPage, this`visibleRowCacheUpdated
      ensures Valid()
      ensures Snap() == FilterInput(Conf(), old(Snap()), msg)
    {
      if msg.KeyPress? && Matches(keyMap, msg.key, FilterBlur) {
        filterFocused := false;
      }
      PageFirst();
      visibleRowCacheUpdated := false;
    }

    /** The row-step bindings: down, then up. */
    method RunRowStepBindings(key: string)
      requires Valid()
      modifies this`rowCursorIndex, this`currentPage
      ensures Valid()
      ensures Snap() == RunActions(Conf(), old(Snap()), key, RowStepOrder)
    {
      RunActionsTwo(Conf(), Snap(), key, RowDown, RowUp);
      if Matches(keyMap, key, RowDown) { MoveHighlightDown(); }
      if Matches(keyMap, key, RowUp) { MoveHighlightUp(); }
    }

    /** The column-step bindings: left, then right. */
    method RunColumnStepBindings(key: string)
      requires Valid()
      modifies this`columnCursorIndex, this`horizontalScrollOffsetCol
      ensures Valid()
      ensures Snap() == RunActions(Conf(), old(Snap()), key, ColumnStepOrder)
    {
      RunActionsTwo(Conf(), Snap(), key, RowLeft, RowRight);
      if Matches(keyMap, key, RowLeft) { MoveHighlightLeft(); }
      if Matches(keyMap, key, RowRight) { MoveHighlightRight(); }
    }

    /** The column-jump bindings: row start, then row end. */
    method RunColumnJumpBindings(key: string)
      requires Valid()
      modifies this`columnCursorIndex, this`horizontalScrollOffsetCol
      ensures Valid()
      ensures Snap() == RunActions(Conf(), old(Snap()), key, ColumnJumpOrder)
    {
      RunActionsTwo(Conf(), Snap(), key, RowStart, RowEnd);
      if Matches(keyMap, key, RowStart) { MoveHighlightedRowStart(); }
      if Matches(keyMap, key, RowEnd) { MoveHighlightedRowEnd(); }
    }

    /** The row-jump bindings: top, then bottom. */
    method RunRowJumpBindings(key: string)
      requires Valid()
      modifies this`rowCursorIndex, this`currentPage
      ensures Valid()
      ensures Snap() == RunActions(Conf(), old(Snap()), key, RowJumpOrder)
    {
      RunActionsTwo(Conf(), Snap(), key, RowTop, RowBottom);
      if Matches(keyMap, key, RowTop) { MoveHighlightTop(); }
      if Matches(keyMap, key, RowBottom) { MoveHighlightBottom(); }
    }

    /** The selection binding. */
    method RunSelectBinding(key: string)
      requires Valid()
      modifies this`rows, this`visibleRowCacheUpdated, this`userEvents
      ensures Valid()
      ensures Snap() == RunActions(Conf(), old(Snap()), key, SelectOrder)
    {
      assert SelectOrder[1..] == [];
      if Matches(keyMap, key, RowSelectToggle) {
        ToggleSelect();
      }
    }

    /** The page-step bindings: down, then up. */
    method RunPageStepBindings(key: string)
      requires Valid()
      modifies this`rowCursorIndex, this`currentPage
      ensures Valid()
      ensures Snap() == RunActions(Conf(), old(Snap()), key, PageStepOrder)
    {
      RunActionsTwo(Conf(), Snap(), key, Action.PageDown, Action.PageUp);
      if Matches(keyMap, key, Action.PageDown) { PageDown(); }
      if Matches(keyMap, key, Action.PageUp) { PageUp(); }
    }

    /** The page-jump bindings: first, then last. */
    method RunPageJumpBindings(key: string)
      requires Valid()
      modifies this`rowCursorIndex, this`currentPage
      ensures Valid()
      ensures Snap() == RunActions(Conf(), old(Snap()), key, PageJumpOrder)
    {
      RunActionsTwo(Conf(), Snap(), key, Action.PageFirst, Action.PageLast);
      if Matches(keyMap, key, Action.PageFirst) { PageFirst(); }
      if Matches(keyMap, key, Action.PageLast) { PageLast(); }
    }

    /** The filter bindings: focus the filter input (reported), then clear
        the query (invalidating the visible rows and clamping the cursor). */
    method RunFilterBindings(key: string)
      requires Valid()
      modifies this`filterFocused, this`userEvents, this`visibleRowCacheUpdated, this`filterQuery
      modifies this`rowCursorIndex, this`currentPage
      ensures Valid()
      ensures Snap() == RunActions(Conf(), old(Snap()), key, FilterOrder)
    {
      RunActionsTwo(Conf(), Snap(), key, Filter, FilterClear);
      if Matches(keyMap, key, Filter) {
        filterFocused := true;
        AppendUserEvent(FilterInputFocused);
      }
      if Matches(keyMap, key, FilterClear) {
        ClearFilter();
      }
    }

    /** The scroll bindings: right, then left. */
    method RunScrollBindings(key: string)
      requires Valid()
      modifies this`horizontalScrollOffsetCol
      ensures Valid()
      ensures Snap() == RunActions(Conf(), old(Snap()), key, ScrollOrder)
    {
      RunActionsTwo(Conf(), Snap(), key, Action.ScrollRight, Action.ScrollLeft);
      if Matches(keyMap, key, Action.ScrollRight) { ScrollRight(); }
      if Matches(keyMap, key, Action.ScrollLeft) { ScrollLeft(); }
    }

    /** Every binding of a key press in the dispatcher's order, each one
        that matches running (a key bound to several actions runs them
        all). */
    method RunBindings(key: string)
      requires Valid()
      modifies this`rowCursorIndex, this`currentPage, this`columnCursorIndex, this`horizontalScrollOffsetCol
      modifies this`rows, this`visibleRowCacheUpdated, this`userEvents, this`filterFocused, this`filterQuery
      ensures Valid()
      ensures Snap() == RunActions(Conf(), old(Snap()), key, BindingOrder)
    {
      ghost var c, s0 := Conf(), Snap();
      RunRowStepBindings(key);
      ghost var done := RowStepOrder;
      RunColumnStepBindings(key);
      RunActionsAppend(c, s0, key, done, ColumnStepOrder);
      done := done + ColumnStepOrder;
      RunColumnJumpBindings(key);
      RunActionsAppend(c, s0, key, done, ColumnJumpOrder);
      done := done + ColumnJumpOrder;
      RunRowJumpBindings(key);
      RunActionsAppend(c, s0, key, done, RowJumpOrder);
      done := done + RowJumpOrder;
      RunSelectBinding(key);
      RunActionsAppend(c, s0, key, done, SelectOrder);
      done := done + SelectOrder;
      RunPageStepBindings(key);
      RunActionsAppend(c, s0, key, done, PageStepOrder);
      done := done + PageStepOrder;
      RunPageJumpBindings(key);
      RunActionsAppend(c, s0, key, done, PageJumpOrder);
      done := done + PageJumpOrder;
      RunFilterBindings(key);
      RunActionsAppend(c, s0, key, done, FilterOrder);
      done := done + FilterOrder;
      RunScrollBindings(key);
      RunActionsAppend(c, s0, key, done, ScrollOrder);
    }

    /** Runs the bindings of a key press and reports a cursor move when the
        row cursor ends up somewhere else. */
    method HandleKeypress(key: string)
      requires Valid()
      modifies this`rowCursorIndex, this`currentPage, this`columnCursorIndex, this`horizontalScrollOffsetCol
      modifies this`rows, this`visibleRowCacheUpdated, this`userEvents, this`filterFocused, this`filterQuery
      ensures Valid()
      ensures Snap() == PressKey(Conf(), old(Snap()), key)
    {
      var previousRowIndex := rowCursorIndex;
      RunBindings(key);
      if rowCursorIndex != previousRowIndex {
        AppendUserEvent(HighlightedIndexChanged(previousRowIndex, rowCursorIndex));
      }
    }

    /** One dispatch: the event list starts empty; an unfocused table
        ignores the message; while the filter input has focus the message
        goes to it alone, and its losing focus is reported; otherwise a key
        press goes to the bindings and any other message is ignored. */
    method Update(msg: Msg)
      requires Valid()
      modifies this`rowCursorIndex, this`currentPage, this`columnCursorIndex, this`horizontalScrollOffsetCol
      modifies this`rows, this`visibleRowCacheUpdated, this`userEvents, this`filterFocused, this`filterQuery
      ensures Valid()
      ensures Snap() == Dispatch(Conf(), old(Snap()), msg)
    {
      ClearUserEvents();
      if !focused {
        return;
      }
      if filterFocused {
        UpdateFilterTextInput(msg);
        if !filterFocused {
          AppendUserEvent(FilterInputUnfocused);
        }
        return;
      }
      if msg.KeyPress? {
        HandleKeypress(msg.key);
      }
    }
  }
}
