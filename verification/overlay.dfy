/** The editor's table affordances: the geometry of the add-row/add-column
    overlay, and the right-click table menu with its actions.

    Screen rectangles come from the rendering layer and are given as
    arguments; the model only does the arithmetic on them. */
module EditorOverlay {
  import opened Wrappers
  import opened Notify

  /** A bounding rectangle as the rendering layer reports it. */
  datatype Rect = Rect(top: int, left: int, right: int, bottom: int, width: int, height: int)

  /** The overlay state `tableUI`: the table's edges relative to the editor
      container, and its size. */
  datatype TableUI = TableUI(tableTop: int, tableLeft: int, tableRight: int, tableBottom: int,
                             tableHeight: int, tableWidth: int)

  /** A rectangle whose size agrees with its edges. */
  predicate Consistent(r: Rect) {
    r.right - r.left == r.width && r.bottom - r.top == r.height
  }

  function Shift(r: Rect, dx: int, dy: int): Rect {
    Rect(r.top + dy, r.left + dx, r.right + dx, r.bottom + dy, r.width, r.height)
  }

  /** `updateTableUI`. `ready` is false while the editor or its container is
      not mounted; `table` is the rectangle of the table enclosing the
      cursor, `None` when the cursor is not inside a table. */
  function UpdateTableUI(ready: bool, container: Rect, table: Option<Rect>): (r: Option<TableUI>)
    ensures r.Some? <==> ready && table.Some?
    ensures r.Some? ==>
              && r.value.tableTop + container.top == table.value.top
              && r.value.tableBottom + container.top == table.value.bottom
              && r.value.tableLeft + container.left == table.value.left
              && r.value.tableRight + container.left == table.value.right
              && r.value.tableWidth == table.value.width
              && r.value.tableHeight == table.value.height
  {
    if !ready then None
    else match table
      case None => None
      case Some(t) =>
        Some(TableUI(t.top - container.top, t.left - container.left, t.right - container.left,
                     t.bottom - container.top, t.height, t.width))
  }

  /** The overlay is expressed relative to the container, so scrolling the
      page (which moves container and table together) does not change it. */
  lemma OverlayIgnoresScroll(ready: bool, container: Rect, table: Rect, dx: int, dy: int)
    ensures UpdateTableUI(ready, Shift(container, dx, dy), Some(Shift(table, dx, dy)))
         == UpdateTableUI(ready, container, Some(table))
  {
  }

  /** A consistent table rectangle gives a consistent overlay: its edges are
      as far apart as its recorded size says. */
  lemma OverlayKeepsSize(container: Rect, table: Rect)
    requires Consistent(table)
    ensures var ui := UpdateTableUI(true, container, Some(table)).value;
            ui.tableRight - ui.tableLeft == ui.tableWidth && ui.tableBottom - ui.tableTop == ui.tableHeight
  {
  }

  // ---------------------------------------------------------------------------
  // Table context menu
  // ---------------------------------------------------------------------------

  /** The four actions the menu offers. */
  datatype TableAction = AddRowAfter | AddColumnAfter | DeleteRow | DeleteColumn

  /** The open menu: where it was opened, and the table cell it is about. */
  datatype ContextMenu = ContextMenu(x: int, y: int, cell: nat)

  /** Right-clicking: inside a table cell (`cell`) of a mounted editor the
      menu opens at the pointer; elsewhere nothing changes. */
  function OpenContextMenu(menu: Option<ContextMenu>, ready: bool, cell: Option<nat>,
                           x: int, y: int): (r: Option<ContextMenu>)
    ensures cell.Some? && ready ==> r == Some(ContextMenu(x, y, cell.value))
    ensures cell.None? || !ready ==> r == menu
  {
    if cell.None? || !ready then menu else Some(ContextMenu(x, y, cell.value))
  }

  /** `handleContextAction`. `result` is what the table command returned;
      with no open menu or no editor nothing happens. Otherwise the menu
      closes and a toast reports the outcome. */
  function ContextAction(menu: Option<ContextMenu>, ready: bool, action: TableAction,
                         result: bool): (r: (Option<ContextMenu>, Option<Toast>))
    ensures menu.None? || !ready ==> r == (menu, None)
    ensures menu.Some? && ready ==>
              && r.0.None? && r.1.Some?
              && (r.1.value.kind == Success <==> result)
              && r.1.value.message == (if result then "操作成功" else FailureMessage)
  {
    if menu.None? || !ready then (menu, None)
    else (None, Some(Outcome(result, "操作成功", FailureMessage)))
  }

  /** An action on an open menu reports once and closes the menu, so a
      second action does nothing. */
  lemma ActionClosesMenu(menu: ContextMenu, a1: TableAction, a2: TableAction, r1: bool, r2: bool)
    ensures var (m1, t1) := ContextAction(Some(menu), true, a1, r1);
            t1.Some? && ContextAction(m1, true, a2, r2) == (None, None)
  {
  }

  /** A mouse press outside the menu closes it; one inside keeps it. */
  function PressOutside(menu: Option<ContextMenu>, insideMenu: bool): (r: Option<ContextMenu>)
    ensures insideMenu ==> r == menu
    ensures !insideMenu ==> r.None?
  {
    if menu.None? || insideMenu then menu else None
  }

  /** The menu's own close button: the menu is dismissed whatever it was,
      so no action can follow it until the next right-click. */
  function CloseMenu(menu: Option<ContextMenu>): (r: Option<ContextMenu>)
    ensures r.None?
    ensures PressOutside(r, true) == r
  {
    None
  }

  /** The add-row and add-column buttons. `result` is what the table
      command returned; the buttons report success whatever it was, and
      with no editor they do nothing. */
  function AddRowOrColumn(ready: bool, column: bool, result: bool): (t: Option<Toast>)
    ensures t.Some? <==> ready
    ensures t.Some? ==> t.value.kind == Success
    ensures t.Some? ==> t.value.message == (if column then "已插入列" else "已插入行")
  {
    if !ready then None
    else Some(Toast(Success, if column then "已插入列" else "已插入行"))
  }

  /** Unlike the context menu, the buttons report a failed command as a
      success: for the same failed insertion the menu shows an error toast
      and the button a success toast. */
  lemma FailedAddReportsSuccess(menu: ContextMenu, column: bool)
    ensures ContextAction(Some(menu), true, if column then AddColumnAfter else AddRowAfter, false).1
            == Some(Toast(Error, FailureMessage))
    ensures AddRowOrColumn(true, column, false).value.kind == Success
    ensures AddRowOrColumn(true, column, false) == AddRowOrColumn(true, column, true)
  {
  }

  /** The menu's life cycle: a right-click in a cell opens it, a press
      inside keeps it, and then a press outside, the close button or an
      action closes it; after the close button an action does nothing. A
      right-click outside a cell leaves a closed menu closed. */
  lemma MenuLifecycle(cell: nat, x: int, y: int, action: TableAction, result: bool)
    ensures var m := OpenContextMenu(None, true, Some(cell), x, y);
            && m == Some(ContextMenu(x, y, cell))
            && PressOutside(m, true) == m
            && PressOutside(PressOutside(m, true), false).None?
            && ContextAction(PressOutside(m, true), true, action, result).0.None?
            && ContextAction(CloseMenu(PressOutside(m, true)), true, action, result) == (None, None)
    ensures OpenContextMenu(None, true, None, x, y).None?
  {
  }
}
