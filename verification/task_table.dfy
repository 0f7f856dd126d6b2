/**
 The rows of the task table body. A row is a value here rather than a DOM
 node: either seven cell contents, or one notice cell spanning the table.
 */
module TaskTable {
  import opened Wrappers
  import opened Escaping
  import opened Badges

  /** A joined row (`clients`, `staff_requester`, `staff_assignee`); its name may be null. */
  datatype Relation = Relation(name: Option<string>)

  /** The fields of a fetched task that the table displays; any of them may be null. */
  datatype Task = Task(
    priority: Option<string>,
    taskTitle: Option<string>,
    clients: Option<Relation>,
    staffRequester: Option<Relation>,
    staffAssignee: Option<Relation>,
    dueDate: Option<string>,
    status: Option<string>)

  /** A notice is plain, or red for the load-failure message. */
  datatype Tone = Plain | Alert

  datatype Row = Cells(cells: seq<string>) | Notice(colspan: nat, message: string, tone: Tone)

  /** How many columns a row covers. */
  function Width(row: Row): nat {
    match row
    case Cells(cs) => |cs|
    case Notice(n, _, _) => n
  }

  /** The table's column count, which the notices also use as their colspan. */
  const ColumnCount := 7

  const PriorityPlaceholder := "ー"
  const TitlePlaceholder := "名称未設定"
  const ClientPlaceholder := "未割り当て"
  const RequesterPlaceholder := "不明"
  const AssigneePlaceholder := "未担当"
  const DueDatePlaceholder := "期限なし"

  const NoTasksMessage := "表示するタスクがありません。"
  const LoadingMessage := "読み込み中..."
  const FailureMessage := "データの読み込みに失敗しました。"

  /** `rel?.name`: absent when either the relation or its name is. */
  function NameOf(rel: Option<Relation>): Option<string> {
    match rel
    case None => None
    case Some(r) => r.name
  }

  /** JavaScript's `s || fallback` for a string `s`: only the empty string is falsy. */
  function OrElse(s: string, fallback: string): string {
    if s == "" then fallback else s
  }

  /** A field that `||` treats as missing: null, undefined or the empty string. */
  predicate Blank(field: Option<string>) {
    field.None? || field.value == ""
  }

  /**
   `cell` is what the source puts in a text column for `field`: the escaped
   field, or the column's placeholder when the field is null, undefined or
   empty (the only cases in which the escaped text is empty).
   */
  predicate Shows(cell: string, field: Option<string>, placeholder: string) {
    cell == if Blank(field) then placeholder else EscapeHTML(field)
  }

  /**
   `cell` displays `field` safely: the placeholder when the field is blank,
   otherwise text with no raw markup whose entity decoding is the field.
   */
  predicate ReadsAs(cell: string, field: Option<string>, placeholder: string) {
    if Blank(field) then cell == placeholder
    else NoMarkup(cell) && Unescape(cell) == field.value
  }

  /** `${escapeHTML(field) || placeholder}` */
  function TextCell(field: Option<string>, placeholder: string): (cell: string)
    ensures Shows(cell, field, placeholder)
    ensures placeholder != "" ==> cell != ""
  {
    OrElse(EscapeHTML(field), placeholder)
  }

  /**
   `${task.due_date || '期限なし'}`: the one text cell the source does not
   escape. A stored due date is inserted as it is, so the cell holds a raw
   markup character exactly when the due date does.
   */
  function DueDateCell(due: Option<string>): (cell: string)
    ensures Blank(due) ==> cell == DueDatePlaceholder
    ensures !Blank(due) ==> cell == due.value
    ensures NoMarkup(cell) <==> Blank(due) || NoMarkup(due.value)
  {
    assert NoMarkup(DueDatePlaceholder);
    OrElse(due.GetOr(""), DueDatePlaceholder)
  }

  /** The five escaped columns' placeholders, in column order. */
  const TextPlaceholders := [PriorityPlaceholder, TitlePlaceholder, ClientPlaceholder,
                             RequesterPlaceholder, AssigneePlaceholder]

  /** The fields behind the five escaped columns, in column order. */
  function TextFields(t: Task): (fields: seq<Option<string>>)
    ensures |fields| == |TextPlaceholders|
  {
    [t.priority, t.taskTitle, NameOf(t.clients), NameOf(t.staffRequester), NameOf(t.staffAssignee)]
  }

  /** The five escaped cells, in column order. */
  function TextCells(t: Task): (cells: seq<string>)
    ensures |cells| == |TextPlaceholders|
    ensures forall i :: 0 <= i < |cells| ==> Shows(cells[i], TextFields(t)[i], TextPlaceholders[i])
  {
    var fields := TextFields(t);
    seq(|TextPlaceholders|, i requires 0 <= i < |TextPlaceholders| => TextCell(fields[i], TextPlaceholders[i]))
  }

  /**
   `cells` is the row the source builds for `t`: seven cells, the five text
   columns showing their fields, then the due date as stored (or its
   placeholder) and the status badge.
   */
  predicate DisplaysTask(cells: seq<string>, t: Task) {
    && |cells| == ColumnCount
    && (forall i :: 0 <= i < |TextPlaceholders| ==> Shows(cells[i], TextFields(t)[i], TextPlaceholders[i]))
    && cells[5] == (if Blank(t.dueDate) then DueDatePlaceholder else t.dueDate.value)
    && cells[6] == StatusBadge(t.status)
  }

  /** The cells of one task's row, in column order. */
  function RenderRow(t: Task): (cells: seq<string>)
    ensures DisplaysTask(cells, t)
  {
    var text := TextCells(t);
    var rest := [DueDateCell(t.dueDate), StatusBadge(t.status)];
    assert forall i :: 0 <= i < |text| ==> (text + rest)[i] == text[i];
    text + rest
  }

  /** A text cell with a markup-free placeholder reads back as its field and holds no raw markup. */
  lemma ShownCellReadsBack(cell: string, field: Option<string>, placeholder: string)
    requires Shows(cell, field, placeholder)
    requires NoMarkup(placeholder)
    ensures ReadsAs(cell, field, placeholder)
    ensures NoMarkup(cell)
  {
    EscapeHTMLSafe(field);
  }

  lemma PlaceholderIsPlain(i: int)
    requires 0 <= i < |TextPlaceholders|
    ensures NoMarkup(TextPlaceholders[i]) && TextPlaceholders[i] != ""
  {
  }

  /**
   The five escaped columns of a displayed row are safe: none holds a raw
   markup character, and each reads back as its field, or is its placeholder.
   */
  lemma RowReadsBack(cells: seq<string>, t: Task)
    requires DisplaysTask(cells, t)
    ensures forall i :: 0 <= i < |TextPlaceholders| ==>
      ReadsAs(cells[i], TextFields(t)[i], TextPlaceholders[i]) && NoMarkup(cells[i])
  {
    var fields := TextFields(t);
    forall i | 0 <= i < |TextPlaceholders|
      ensures ReadsAs(cells[i], fields[i], TextPlaceholders[i]) && NoMarkup(cells[i])
    {
      PlaceholderIsPlain(i);
      ShownCellReadsBack(cells[i], fields[i], TextPlaceholders[i]);
    }
  }

  /**
   `renderTasks`: an empty list gives the single "no tasks" notice across all
   columns; otherwise one row per task, in the order the tasks arrived.
   */
  function RenderTasks(tasks: seq<Task>): (rows: seq<Row>)
    ensures |tasks| == 0 ==> rows == [Notice(ColumnCount, NoTasksMessage, Plain)]
    ensures |tasks| > 0 ==> |rows| == |tasks|
    ensures |tasks| > 0 ==> forall i :: 0 <= i < |tasks| ==> rows[i].Cells? && DisplaysTask(rows[i].cells, tasks[i])
    ensures forall i :: 0 <= i < |rows| ==> Width(rows[i]) == ColumnCount
  {
    if |tasks| == 0 then [Notice(ColumnCount, NoTasksMessage, Plain)]
    else seq(|tasks|, i requires 0 <= i < |tasks| => Cells(RenderRow(tasks[i])))
  }

  /** Where a load stands: the query is in flight, it failed, or it returned tasks. */
  datatype LoadState = Loading | Failed | Loaded(tasks: seq<Task>)

  /**
   What `loadTasks` leaves in the table body for each state: a loading
   notice while the query runs, a red failure notice when it fails, and the
   rendered tasks when it returns (the plain "no tasks" notice when it
   returns none).
   */
  function TableBody(state: LoadState): (rows: seq<Row>)
    ensures state.Loading? ==> rows == [Notice(ColumnCount, LoadingMessage, Plain)]
    ensures state.Failed? ==> rows == [Notice(ColumnCount, FailureMessage, Alert)]
    ensures state.Loaded? && |state.tasks| == 0 ==> rows == [Notice(ColumnCount, NoTasksMessage, Plain)]
    ensures state.Loaded? && |state.tasks| > 0 ==> |rows| == |state.tasks|
    ensures state.Loaded? && |state.tasks| > 0 ==>
      forall i :: 0 <= i < |rows| ==> rows[i].Cells? && DisplaysTask(rows[i].cells, state.tasks[i])
    ensures (|rows| == 1 && rows[0].Notice?) <==> !(state.Loaded? && |state.tasks| > 0)
    ensures forall i :: 0 <= i < |rows| ==> Width(rows[i]) == ColumnCount
  {
    match state
    case Loading => [Notice(ColumnCount, LoadingMessage, Plain)]
    case Failed => [Notice(ColumnCount, FailureMessage, Alert)]
    case Loaded(tasks) => RenderTasks(tasks)
  }

  /**
   The due-date cell is inserted without escaping: it holds a raw markup
   character exactly when the stored due date does.
   */
  lemma DueDateCellIsRaw(cells: seq<string>, t: Task)
    requires DisplaysTask(cells, t)
    ensures NoMarkup(cells[5]) <==> Blank(t.dueDate) || NoMarkup(t.dueDate.value)
  {
    assert cells[5] == DueDateCell(t.dueDate);
  }
}
