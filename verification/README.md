# Task table rendering, modelled in Dafny

This project models the part of the task tracker's browser script
(`tasks.js`) that turns fetched task records into HTML table rows:

- `escapeHTML`: five global replace-all passes, ampersand first.
- `getStatusBadge`: a status label mapped to a CSS class, wrapped in a
  `status-badge` span around the escaped label.
- `renderTasks`: one seven-cell row per task, with placeholders for blank
  fields, or a single "no tasks" notice spanning the table.
- The notices `loadTasks` writes while the query is in flight and when it
  fails.

Rows are values (`TaskTable.Row`) instead of DOM nodes. JavaScript's `null`
and `undefined` are both `Wrappers.Option.None`.

The modules follow the script's structure:

- `Escaping` holds the replace-all passes (`EscapeChain`) and an independent
  per-character reference (`EscapeMap`). It proves the two equal, then proves
  the safety facts on the reference: no raw `<`, `>`, `"` or `'` remains,
  every `&` begins one of the five entities, and decoding the five entities
  again (`Unescape`) gives back the original text.
- `Badges` holds the status-to-class mapping and the badge markup.
- `TaskTable` holds the cells of a row, the rows of the table body, and the
  three notices.

The status labels are the four Japanese labels that `tasks.js:117-120`
compares against: `依頼中`, `作業中`, `作業完了` and `確認完了`. A row has the
seven cells `tasks.js:101-107` writes, and every notice has `colspan="7"`
(`tasks.js:63`, `83`, `92`). The due-date cell is not escaped
(`tasks.js:106`). The model keeps that behaviour, and `TaskTable.DueDateCell`
and `TaskTable.DueDateCellIsRaw` state it.

## Model

| member | source | states |
|---|---|---|
| Escaping.ReplaceAll | tasks.js:129-133 | a replace-all pass with a non-empty replacement never shortens its input |
| Escaping.ReplaceAllAbsent | tasks.js:129-133 | a pass leaves text without its character unchanged, and leaves none of that character behind when the replacement lacks it |
| Escaping.ReplaceAllConcat | tasks.js:129-133 | a replace-all pass distributes over concatenation |
| Escaping.EscapeChain | tasks.js:128-133 | the five passes in the script's order (`&`, `<`, `>`, `"`, `'`); the chain never shortens its input, and `Escaping.ChainIsCharMap` gives its full meaning |
| Escaping.ChainConcat | tasks.js:128-133 | the five-pass chain distributes over concatenation |
| Escaping.ChainOfChar | tasks.js:128-133 | on one character, the chain gives that character's entity, or the character itself |
| Escaping.ChainIsCharMap | tasks.js:128-133 | the five sequential passes equal escaping each character independently |
| Escaping.EscapeChar | tasks.js:129-133 | each of `& < > " '` becomes an entity starting with `&`; any other character stays as it is |
| Escaping.EscapeMapNoMarkup | tasks.js:128-133 | escaped text holds no raw `<`, `>`, `"` or `'` |
| Escaping.EscapeMapEntities | tasks.js:128-133 | every `&` in escaped text begins `&amp;`, `&lt;`, `&gt;`, `&quot;` or `&#039;` |
| Escaping.EscapeMapPlain | tasks.js:128-133 | text without the five characters is unchanged; text with one grows and contains `&` |
| Escaping.UnescapeEscape | tasks.js:128-133 | decoding the five entities in escaped text gives back the original text |
| Escaping.EscapeHTML | tasks.js:126-134 | null and undefined give the empty string; a string gives its per-character escape; the result is empty exactly when the input is null, undefined or empty |
| Escaping.EscapeHTMLSafe | tasks.js:126-134 | escapeHTML output has no raw markup characters, every `&` starts an entity, and decoding its entities gives the input (null and undefined as empty) |
| Escaping.EscapeTwice | tasks.js:128-133 | escaping is not idempotent: escaping twice changes text that holds any of the five characters, and only such text |
| Badges.StatusClass | tasks.js:115-121 | each of the four labels maps to its own class, compared exactly; every other value, null included, gets `status-default` |
| Badges.StatusBadge | tasks.js:122 | the badge opens a span with the status's class, ends with `</span>`, and holds the escaped status between the tags |
| Badges.BadgeShowsStatus | tasks.js:122 | the badge text cannot break out of the span (no markup characters), and decoding its entities gives the stored status |
| TaskTable.TextCell | tasks.js:101-105 | a text cell shows the escaped field, or the placeholder exactly when the field is null, undefined or empty |
| TaskTable.TextCells | tasks.js:101-105 | the five escaped columns show priority, title, client, requester and assignee names in order, each with its own placeholder |
| TaskTable.RenderRow | tasks.js:96-108 | a row has seven cells: five escaped text columns, then the raw due date or `期限なし`, then the status badge |
| TaskTable.RowReadsBack | tasks.js:101-105 | no escaped column of a row holds a raw markup character, and each decodes back to its field or is its placeholder |
| TaskTable.DueDateCell | tasks.js:106 | the due-date cell is `期限なし` when the due date is null, undefined or empty, and otherwise the stored due date unescaped; it holds a raw markup character exactly when a non-blank due date does |
| TaskTable.DueDateCellIsRaw | tasks.js:106 | the due-date cell is not escaped: it holds a raw markup character exactly when the stored due date is non-blank and holds one |
| TaskTable.RenderTasks | tasks.js:88-111 | no tasks give exactly one "no tasks" notice over seven columns; otherwise one row per task, in order, each displaying its task; every row is seven columns wide |
| TaskTable.TableBody | tasks.js:59-85 | loading and failure each give one seven-column notice (the failure notice in red); a successful load gives the plain "no tasks" notice when it returns no tasks and their rows otherwise; the body is a single notice exactly when there is no task to show |

## Left out

- Session check, sign-in, sign-out and page reload (`tasks.js:18-34`, `45-54`): they call the hosted authentication service and the browser; they are left out as I/O.
- `displayUserInfo` (`tasks.js:36-43`): it only copies user fields into DOM elements.
- The remote query in `loadTasks` (`tasks.js:65-73`): its outcome is the `TaskTable.LoadState` parameter. The sort order it requests is the order of the input sequence.
- The missing-table-body early return (`tasks.js:60`) and the console logging: DOM and I/O only.
- The notices' inline styles are reduced to a `Tone`: `Alert` for the red failure notice, `Plain` otherwise.
- Escaping.EscapeHTML: `str.toString()` is modelled for string inputs only. Numbers, booleans and objects, such as a numeric priority, are not modelled, because their string forms depend on JavaScript's number and object formatting.
- Escaping.ReplaceAll: models JavaScript's global `replace` for a one-character pattern and a replacement without `$` patterns, which are the only forms the script uses.
- TaskTable.DueDateCell: `task.due_date || '期限なし'` is modelled for a string or null due date, where only the empty string is falsy.
- `tasks.js` has no search filtering, debouncing or date formatting, so none is modelled.
- Escaping.Unescape decodes the five entities only. A browser reading the table's HTML also turns CR and CRLF into LF and drops U+0000. So the read-back facts (`Escaping.EscapeHTMLSafe`, `Badges.BadgeShowsStatus`, `TaskTable.RowReadsBack`) describe what the browser shows only for text without CR or U+0000.
