/** Values shared by every part of the table engine: cells, columns, rows,
    sort keys, key bindings and the user events the dispatcher emits. */
module TableTypes {

  datatype Option<T> = None | Some(value: T)

  /** A terminal style. Styling is opaque to the engine: it is carried along
      and compared for equality, never interpreted. */
  datatype Style = Style(bold: bool)

  const PlainStyle: Style := Style(false)

  /** A cell value: a plain string, a plain integer, or a value wrapped with
      a display style that only matters for rendering. */
  datatype Value = Str(s: string) | Int(n: int) | StyledCell(data: Value, style: Style)

  /** The value a cell stands for once every style wrapper is peeled off. */
  function Unstyled(v: Value): (u: Value)
    ensures !u.StyledCell?
  {
    match v
    case StyledCell(d, _) => Unstyled(d)
    case _ => v
  }

  datatype Column = Column(key: string, title: string, width: int, style: Style)

  function NewColumn(key: string, title: string, width: int): Column
  {
    Column(key, title, width, PlainStyle)
  }

  /** A row maps column keys to cell values; a key may be missing. */
  datatype Row = Row(data: map<string, Value>, selected: bool)

  function NewRow(data: map<string, Value>): Row
  {
    Row(data, false)
  }

  const EmptyRow: Row := Row(map[], false)

  datatype Direction = Asc | Desc

  datatype SortColumn = SortColumn(columnKey: string, direction: Direction)

  /** The logical actions a key press can trigger. */
  datatype Action =
    | RowDown | RowUp | RowLeft | RowRight | RowStart | RowEnd | RowTop | RowBottom
    | RowSelectToggle
    | PageDown | PageUp | PageFirst | PageLast
    | Filter | FilterBlur | FilterClear
    | ScrollRight | ScrollLeft

  /** Each action is bound to a set of key names. */
  type KeyMap = map<Action, set<string>>

  /** Whether a pressed key triggers an action under a key map. */
  predicate Matches(keyMap: KeyMap, key: string, action: Action)
  {
    action in keyMap && key in keyMap[action]
  }

  /** The bindings the library ships with. */
  const DefaultKeyMap: KeyMap := map[
    RowDown := {"down", "j"},
    RowUp := {"up", "k"},
    RowLeft := {"left", "h"},
    RowRight := {"right", "l"},
    RowStart := {"0"},
    RowEnd := {"$"},
    RowTop := {"g"},
    RowBottom := {"G"},
    RowSelectToggle := {" ", "enter"},
    PageDown := {"pgdown", "ctrl+f"},
    PageUp := {"pgup", "ctrl+b"},
    PageFirst := {"home", "g"},
    PageLast := {"end"},
    Filter := {"/"},
    FilterBlur := {"enter", "esc"},
    FilterClear := {"esc"},
    ScrollRight := {"shift+right"},
    ScrollLeft := {"shift+left"}
  ]

  /** A default key that triggers two actions at once: "g" jumps to the top
      row and to the first page, and "enter" toggles the selection and blurs
      the filter. */
  lemma DefaultKeyMapOverlaps()
    ensures Matches(DefaultKeyMap, "g", RowTop) && Matches(DefaultKeyMap, "g", PageFirst)
    ensures Matches(DefaultKeyMap, "enter", RowSelectToggle) && Matches(DefaultKeyMap, "enter", FilterBlur)
    ensures !Matches(DefaultKeyMap, "g", RowBottom)
  {
  }

  /** What the host receives from one dispatch. */
  datatype UserEvent =
    | HighlightedIndexChanged(previousRowIndex: int, selectedRowIndex: int)
    | RowSelectToggled(rowIndex: int, isSelected: bool)
    | FilterInputFocused
    | FilterInputUnfocused

  /** The messages the dispatcher distinguishes: a key press, or anything else. */
  datatype Msg = KeyPress(key: string) | OtherMsg
}
