# Event list: store, view and controller

A browser page keeps a table of events (name, start date, end date) in step
with a JSON server. Three parts share the work. An in-memory store
(`EventsModel`) holds the records the server last confirmed. A view
(`EventsView`) edits the table's rows. A controller (`EventsController`)
handles clicks: it checks the inputs, calls the server, and only when the
server answers does it update the store and then the rows.

The repository has two versions of this code:

- `edit.js` can load, create, delete, edit, save and cancel an edit.
- `index.js` is the earlier version. It can only load, create and delete.

Each version is a Dafny module (`EditApp`, `IndexApp`) with the same three
classes. They share three modules of pure definitions:

- `JsValues` (`jsvalues.dfy`): ids as JavaScript values (`Num`, `Str`,
  `NaN`). It defines `===` on them, `String(id)` as `setAttribute` writes
  it, and `parseInt` without a radix.
- `EventRecords` (`records.dfy`): a record `{id, name, start, end}`. It
  defines the `filter` the store deletes with, the `map` with object spread
  it updates with, and the `find` that cancelling an edit performs.
- `RowList` (`rows.dfy`): the table body as a list of rows.
  `Display(id, cells)` shows a record. `Form(input)` is a new-event form.
  `Editing(id, input)` is a display row switched to inputs. The view's DOM
  operations become list edits on these rows.

`remote.dfy` (module `Remote`) holds the requests the controller sends, the
reply each awaited request settles with (`Ok(value)` or `Fail`), and the
handler outcomes:

- `Rejected`: an input was empty.
- `RemoteFailed`: the awaited request rejected.
- `Threw`: a DOM step threw.
- `Completed`: every step ran.

A click handler is a method. It takes the index of the row whose button was
clicked and, when it awaits the server, the reply. It appends what it sends
to the controller's `requests`.

The row id is a string, because `setAttribute` stringifies the record's id.
Deleting and saving compare the stored id with that string. Cancelling an
edit compares the stored id with `parseInt` of the string. For every integer
or string id exactly one of the two can match
(`StoredIdMatchesExactlyOnePath`). A fractional id such as 1.5 matches
neither: its text is "1.5", and `parseInt` reads 1.

- With numeric ids, cancelling an edit finds the record. Deleting and saving
  miss it: the row goes away but the record stays, and a save leaves the old
  fields in the store.
- With string ids, deleting and saving work. Cancelling an edit finds nothing
  and throws.

`EditApp.NumericIdCancelEditScenario` and
`EditApp.NumericIdSaveDeleteScenario` walk through the numeric case using
only the methods' contracts.

The controller's constructor does not wait for the initial `GET`. A form
added before the list arrives is wiped when `renderEvents` empties the
table (`EditApp.AddBeforeLoadScenario`).

## Model

| member | source | states |
|---|---|---|
| JsValues.NatToDecimal | Yukai-Tseng-evaluation-eventlist/edit.js:69 | the text a numeric id becomes in the `id` attribute: at least one character, all decimal digits, no leading zero |
| JsValues.StrictEquals | Yukai-Tseng-evaluation-eventlist/edit.js:141 | `===` and `!==` on ids: true only for the same type and the same value. A number never equals a string, and `NaN` equals nothing, itself included; index.js:100 does the same |
| JsValues.IntToDecimal | Yukai-Tseng-evaluation-eventlist/edit.js:69 | `String(n)` for an integer id: non-empty, a leading minus exactly when `n` is negative, then decimal digits |
| JsValues.ToAttr | Yukai-Tseng-evaluation-eventlist/edit.js:69 | the `id` attribute `setAttribute` writes: a string id unchanged; a numeric id as its decimal text, with a minus exactly when negative; `NaN` as "NaN"; index.js:54 does the same |
| JsValues.TrimStart | Yukai-Tseng-evaluation-eventlist/edit.js:255 | `parseInt` first skips JavaScript white space: the result is a suffix of the input, everything dropped is white space, and the result does not start with white space |
| JsValues.DigitRun | Yukai-Tseng-evaluation-eventlist/edit.js:255 | `parseInt` reads the longest run of digits: every character in the run is a digit of the base, and the next one is not |
| JsValues.ParseInt | Yukai-Tseng-evaluation-eventlist/edit.js:255 | `parseInt(row.id)` yields a number or `NaN`, never a string, so it can never be `===` to a string id |
| JsValues.ParseIntOfDecimal | Yukai-Tseng-evaluation-eventlist/edit.js:255 | `parseInt(String(n))` is `n` for every integer `n`: the row id of a numeric record parses back to that record's id |
| JsValues.StoredIdMatchesExactlyOnePath | Yukai-Tseng-evaluation-eventlist/edit.js:253-256 | for every stored id `x`, the string comparison used by delete and save matches exactly when `x` is a string, and the `parseInt` comparison used by cancel-edit matches exactly when `x` is a number; the two never both match and never both miss |
| EventRecords.Without | Yukai-Tseng-evaluation-eventlist/edit.js:140-142 | the filter keeps exactly the records whose id is not `===` to `id` and never grows the list |
| EventRecords.WithoutAppend | Yukai-Tseng-evaluation-eventlist/edit.js:141 | filtering distributes over concatenation, so the kept records keep their original order |
| EventRecords.WithoutIdempotent | Yukai-Tseng-evaluation-eventlist/edit.js:141 | deleting the same id twice leaves the same list as deleting it once |
| EventRecords.WithoutShrinks | Yukai-Tseng-evaluation-eventlist/index.js:99-101 | deleting leaves the list unchanged exactly when no record's id is `===` to `id`, and shortens it exactly when some record's id is |
| EventRecords.MergeWhole | Yukai-Tseng-evaluation-eventlist/edit.js:146 | spreading a whole record over any record gives that record; spreading a patch twice equals spreading it once; spreading an empty patch changes nothing |
| EventRecords.Merge | Yukai-Tseng-evaluation-eventlist/edit.js:146 | `{ ...ev, ...updated }`: each field is the patch's when the patch carries that property, and the record's otherwise |
| EventRecords.Updated | Yukai-Tseng-evaluation-eventlist/edit.js:144-148 | the map keeps the length and order; each record whose id is `===` to `id` becomes the old fields overridden by the patch, and every other record stays as it was |
| EventRecords.UpdatedWithSaved | Yukai-Tseng-evaluation-eventlist/edit.js:249 | updating with the record the server returned makes every matching record exactly that record, and a second identical update changes nothing |
| EventRecords.Find | Yukai-Tseng-evaluation-eventlist/edit.js:256 | `find` returns `undefined` exactly when no record's id is `===` to the key; otherwise it returns the first such record |
| EventRecords.RowIdReaches | Yukai-Tseng-evaluation-eventlist/edit.js:180-256 | for a stored record `e`, deleting by its row's id removes `e` exactly when `e.id` is a string; when `e.id` is a number, saving leaves `e` untouched and cancel-edit finds a record with `e`'s id; when every stored id is a string, cancel-edit finds nothing |
| RowList.Rendered | Yukai-Tseng-evaluation-eventlist/edit.js:52-57 | the rows `renderEvents` produces: one display row per record, in the given order, showing the record's fields under `String(id)` |
| RowList.EventRow | Yukai-Tseng-evaluation-eventlist/edit.js:67-78 | `createEventElement`: a display row whose cells are the record's name, start and end, and whose `id` attribute is `String(event.id)` (the id itself for a string id); index.js:52-64 does the same |
| RowList.AllFilled | Yukai-Tseng-evaluation-eventlist/edit.js:204 | `!name || !start || !end` is false exactly when none of the three inputs is the empty string; edit.js:241 does the same; index.js:151 does the same |
| RowList.RenderedAppend | Yukai-Tseng-evaluation-eventlist/edit.js:54-56 | rendering one more record appends exactly its row (the step of the `forEach` loop) |
| RowList.RemoveAt | Yukai-Tseng-evaluation-eventlist/edit.js:43 | `row.remove()` drops that one row and keeps every other row in order |
| RowList.FirstForm | Yukai-Tseng-evaluation-eventlist/edit.js:48 | `querySelector(".event__form")` finds nothing exactly when there is no form row; otherwise it finds the first form row |
| RowList.WithoutFirstForm | Yukai-Tseng-evaluation-eventlist/edit.js:48-49 | removing the first form row: the rows are unchanged exactly when there is no form row, and otherwise exactly one row goes; index.js:32-35 does the same |
| RowList.ClearedForm | Yukai-Tseng-evaluation-eventlist/edit.js:39-50 | `clearNewForm(button)`: unchanged exactly when no row is a form, otherwise one row shorter; when the clicked row is a form, it is the one removed and every row before it stays |
| RowList.FirstWithId | Yukai-Tseng-evaluation-eventlist/edit.js:60 | `getElementById(id)` finds nothing exactly when `id` is empty or no row carries it; otherwise it finds the first row that does |
| RowList.RemovedById | Yukai-Tseng-evaluation-eventlist/edit.js:60 | `getElementById(id).remove()`: the rows are unchanged exactly when the id is empty or on no row, and otherwise exactly one row goes; index.js:45 does the same |
| RowList.RemoveFormKeepsNonFormRows | Yukai-Tseng-evaluation-eventlist/edit.js:49 | removing a form row removes exactly one form and keeps every display and editing row, in order |
| RowList.ClearedFormRemovesOneForm | Yukai-Tseng-evaluation-eventlist/edit.js:39-50 | `clearNewForm` never removes a display or editing row; it removes one row exactly when a form row exists, and it removes the clicked row when that row is a form |
| RowList.SubmitRows | Yukai-Tseng-evaluation-eventlist/edit.js:211-214 | after a successful submit the new record's row is at the end; the first form row is gone, which need not be the one clicked (an earlier form leaves the clicked form in place); all other rows are kept |
| RowList.RemovedByIdOfClicked | Yukai-Tseng-evaluation-eventlist/edit.js:180-185 | deleting through a display row with a non-empty id always finds a row with that id, at or before the clicked one, and removes exactly one row, never a form |
| EditApp.EventsView.constructor | Yukai-Tseng-evaluation-eventlist/edit.js:34-37 | the view starts over the table's existing rows |
| EditApp.EventsView.ClearNewForm | Yukai-Tseng-evaluation-eventlist/edit.js:39-50 | removes the clicked row when it is a form, and otherwise the first form row, if any |
| EditApp.EventsView.RenderEvents | Yukai-Tseng-evaluation-eventlist/edit.js:52-57 | afterwards the rows are exactly `Rendered(events)`, whatever rows existed before, so rendering twice equals rendering once |
| EditApp.EventsView.RemoveEventElem | Yukai-Tseng-evaluation-eventlist/edit.js:59-61 | removes the first row with the id; it throws, leaving the rows as they were, exactly when there is no such row |
| EditApp.EventsView.RenderNewEvent | Yukai-Tseng-evaluation-eventlist/edit.js:63-65 | appends the record's display row and changes no other row |
| EditApp.EventsView.RenderNewForm | Yukai-Tseng-evaluation-eventlist/edit.js:80-91 | appends an empty form row and changes no other row |
| EditApp.EventsView.SwitchToEditMode | Yukai-Tseng-evaluation-eventlist/edit.js:93-107 | the clicked display row becomes an editing row with the same id, its inputs pre-filled with the cells' text; no other row changes |
| EditApp.EventsView.UpdateEventRow | Yukai-Tseng-evaluation-eventlist/edit.js:109-119 | the editing row becomes a display row showing the record's fields and keeps its own id; no other row changes |
| EditApp.EventsModel.constructor | Yukai-Tseng-evaluation-eventlist/edit.js:124-126 | the store starts with the given list |
| EditApp.EventsModel.SetEvents | Yukai-Tseng-evaluation-eventlist/edit.js:128-130 | after `setEvents(l)` the store is `l`, so `getEvents()` returns `l` |
| EditApp.EventsModel.GetEvents | Yukai-Tseng-evaluation-eventlist/edit.js:132-134 | returns the stored list and changes nothing |
| EditApp.EventsModel.AddEvent | Yukai-Tseng-evaluation-eventlist/edit.js:136-138 | the store becomes the old list followed by the new record |
| EditApp.EventsModel.DeleteEvent | Yukai-Tseng-evaluation-eventlist/edit.js:140-142 | the store becomes `Without(old, id)` |
| EditApp.EventsModel.UpdateEvent | Yukai-Tseng-evaluation-eventlist/edit.js:144-148 | the store becomes `Updated(old, id, patch)` |
| EditApp.EventsController.constructor | Yukai-Tseng-evaluation-eventlist/edit.js:152-161 | construction sends one `GET` and, because `fetchEvents` is not awaited, leaves the store and the rows as they were until the reply's continuation runs |
| EditApp.EventsController.FetchEvents | Yukai-Tseng-evaluation-eventlist/edit.js:169-173 | sends `GET`; on success the store equals the fetched list and the rows are exactly its display rows; on failure neither changes |
| EditApp.EventsController.EventsFetched | Yukai-Tseng-evaluation-eventlist/edit.js:170-172 | once the `GET` settles: on success the store becomes the fetched list and the rows become exactly its display rows, so any form added meanwhile is gone; on failure neither changes |
| EditApp.EventsController.OnAddClick | Yukai-Tseng-evaluation-eventlist/edit.js:190-192 | the add button appends one empty form |
| EditApp.EventsController.OnDeleteClick | Yukai-Tseng-evaluation-eventlist/edit.js:175-186 | sends `DELETE` with the row's id; on failure store and rows are unchanged; on success the store drops the records `===` to the row's id string, then the first row with that id is removed (throwing only for an empty id) |
| EditApp.EventsController.OnSubmitClick | Yukai-Tseng-evaluation-eventlist/edit.js:194-215 | with an empty input: no request, no store or row change; otherwise sends `POST` with the inputs; on failure nothing else; on success the store gains the returned record at the end, its row is appended, then the first form row is removed |
| EditApp.EventsController.OnCancelClick | Yukai-Tseng-evaluation-eventlist/edit.js:217-222 | removes exactly the clicked form row, with no request and no store change |
| EditApp.EventsController.OnEditClick | Yukai-Tseng-evaluation-eventlist/edit.js:229-232 | switches the clicked row to edit mode, with no request and no store change |
| EditApp.EventsController.OnSaveClick | Yukai-Tseng-evaluation-eventlist/edit.js:234-251 | with an empty input: no request, no store or row change; otherwise sends `PUT` with the row's id and inputs; on failure nothing else; on success the store spreads the returned record over the records `===` to the row's id string, and the row shows the returned fields |
| EditApp.EventsController.OnCancelEditClick | Yukai-Tseng-evaluation-eventlist/edit.js:253-258 | sends no request and leaves the store alone; re-renders the row from the first record whose id is `===` to `parseInt(row.id)`, or throws and leaves the row in edit mode when there is none |
| IndexApp.EventsView.constructor | Yukai-Tseng-evaluation-eventlist/index.js:26-30 | the view starts over the table's existing rows |
| IndexApp.EventsView.ClearNewForm | Yukai-Tseng-evaluation-eventlist/index.js:32-35 | removes the first form row, if any |
| IndexApp.EventsView.RenderEvents | Yukai-Tseng-evaluation-eventlist/index.js:37-42 | afterwards the rows are exactly `Rendered(events)`, whatever rows existed before |
| IndexApp.EventsView.RemoveEventElem | Yukai-Tseng-evaluation-eventlist/index.js:44-46 | removes the first row with the id; it throws, leaving the rows as they were, exactly when there is no such row |
| IndexApp.EventsView.RenderNewEvent | Yukai-Tseng-evaluation-eventlist/index.js:48-50 | appends the record's display row |
| IndexApp.EventsView.RenderNewForm | Yukai-Tseng-evaluation-eventlist/index.js:66-78 | appends an empty form row |
| IndexApp.EventsModel.constructor | Yukai-Tseng-evaluation-eventlist/index.js:83-85 | the store starts with the given list |
| IndexApp.EventsModel.SetEvents | Yukai-Tseng-evaluation-eventlist/index.js:87-89 | after `setEvents(l)` the store is `l` |
| IndexApp.EventsModel.GetEvents | Yukai-Tseng-evaluation-eventlist/index.js:91-93 | returns the stored list and changes nothing |
| IndexApp.EventsModel.AddEvent | Yukai-Tseng-evaluation-eventlist/index.js:95-97 | the store becomes the old list followed by exactly the new record |
| IndexApp.EventsModel.DeleteEvent | Yukai-Tseng-evaluation-eventlist/index.js:99-101 | the store becomes `Without(old, id)` |
| IndexApp.EventsController.constructor | Yukai-Tseng-evaluation-eventlist/index.js:105-114 | construction sends one `GET` and, because `fetchEvents` is not awaited, leaves the store and the rows as they were until the reply's continuation runs |
| IndexApp.EventsController.FetchEvents | Yukai-Tseng-evaluation-eventlist/index.js:121-125 | on success the store equals the fetched list and the rows are exactly its display rows; on failure neither changes |
| IndexApp.EventsController.EventsFetched | Yukai-Tseng-evaluation-eventlist/index.js:122-124 | once the `GET` settles: on success the store becomes the fetched list and the rows become exactly its display rows; on failure neither changes |
| IndexApp.EventsController.OnAddClick | Yukai-Tseng-evaluation-eventlist/index.js:140-142 | the add button appends one empty form |
| IndexApp.EventsController.OnDeleteClick | Yukai-Tseng-evaluation-eventlist/index.js:127-137 | sends `DELETE`; store and rows change only on success: the matching records are dropped, then the first row with the id is removed |
| IndexApp.EventsController.OnSubmitClick | Yukai-Tseng-evaluation-eventlist/index.js:144-160 | with an empty input: no request and no change; otherwise `POST`; on success the store gains the record at the end, its row is appended, then the first form row is removed; on failure nothing changes |
| IndexApp.EventsController.OnCancelClick | Yukai-Tseng-evaluation-eventlist/index.js:161-166 | whichever form's cancel button is clicked, the first form row is removed: exactly one row goes, and every display row stays in order |

## Left out

- The network. `eventsAPI` and its `fetch`/JSON calls are replaced by a log of the requests sent and a reply given to the handler. A reply is `Fail` when the promise rejects. A non-success HTTP status whose body still parses as JSON counts as `Ok`, because the code never checks `res.ok`.
- Markup and DOM lookup. Template strings, `innerHTML`, `textContent`, `querySelector` on a row, `closest("tr")` and the class-name dispatch are not modelled. A click is a method call with the clicked row's index. `getElementById` searches the whole document; the model assumes that only table rows carry ids. As a consequence, the model treats a row's cells and its edit inputs as equal to the record's fields (`RowList.EventRow`, `EditApp.EventsView.SwitchToEditMode`), and in the browser they can differ. A field holding HTML-special characters such as `<` or `"` is parsed as markup when it is interpolated into `innerHTML`, so the shown text, or the value pre-filled into an input, is not the field. The `type="date"` inputs (edit.js:99-101) also sanitise their value, so a start or end that is not a valid `yyyy-mm-dd` date is shown as an empty input.
- Typing into inputs. That is the browser's work, not the repository's. The handlers accept rows with any input values.
- `alert` and `addEventListener`. A validation failure is modelled as the `Rejected` outcome with no change.
- Event-loop interleaving. The initial load is split in two: the constructor sends the `GET`, and `EventsFetched` is its continuation, so clicks may come between them. A click handler's continuation after its own `await` runs as one atomic step together with the click, so the clicked row's index is still valid when the reply arrives. Two click requests in flight at once are not modelled.
- The global construction of the view, the model and the controller. This is bootstrapping.
- Aliasing. `setEvents` keeps the fetched array itself, and `getEvents` hands it out. The store is modelled as a value, which is equivalent here because nothing else mutates that array.
- Number precision. Ids are unbounded integers. `String(n)` switches to exponent notation for |n| ≥ 10^21, `parseInt` loses precision above 2^53, and `-0` exists; none of these is modelled. Fractional ids are not modelled either; with one, neither the string comparison nor the `parseInt` comparison would match.
- Record shape. Every record is assumed to have string `name`, `start` and `end`. A reply from the server is assumed to be such a record.
- Other exceptions. Only two throws are modelled, each as the `Threw` outcome: `removeEventElem` on a missing id, and cancel-edit rendering `undefined`. The row lookups inside the handlers always succeed for a clicked button.
- Behaviour of the code that the model keeps as written:
  - In index.js, cancelling removes the first form row on the page, not the clicked one.
  - In edit.js, saving spreads the reply over the old record; it does not replace the record. With a whole-record reply the result is the same (`UpdatedWithSaved`).
  - In both files, deleting throws when no row carries the id; it is not a quiet no-op.
  - In edit.js, cancel-edit restores the row only when `parseInt` of the row id matches a stored id, and otherwise throws.
