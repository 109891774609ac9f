/** The rows of the event table (`.event__list`), seen as a list, and the
    list edits the view performs on it: appending a row, removing the row
    that `getElementById` or `querySelector(".event__form")` finds, and
    removing a given row. */
module RowList {
  import opened Options
  import opened JsValues
  import opened EventRecords

  /** The text of a row's three cells, or the values of its three inputs. */
  datatype Fields = Fields(name: string, start: string, end: string)

  /** A table row. `Display` shows a record (its `id` attribute set from the
      record's id); `Form` is a new-event form (class `event__form`, no id);
      `Editing` is a display row whose cells were replaced by inputs (it
      keeps its `id` attribute). */
  datatype Row =
    | Display(id: string, cells: Fields)
    | Form(input: Fields)
    | Editing(id: string, input: Fields)

  function FieldsOf(e: Event): Fields {
    Fields(e.name, e.start, e.end)
  }

  /** `createEventElement(event)`: a display row carrying `String(event.id)`. */
  function EventRow(e: Event): (r: Row)
    ensures r.Display? && r.cells == FieldsOf(e)
    ensures HasId(r, ToAttr(e.id))
    ensures e.id.Str? ==> r.id == e.id.s
  {
    Display(ToAttr(e.id), FieldsOf(e))
  }

  /** The form `renderNewForm` appends: three empty inputs. */
  const NewForm: Row := Form(Fields("", "", ""))

  /** `!name || !start || !end` is false: all three inputs are non-empty. */
  function AllFilled(f: Fields): (r: bool)
    ensures !r <==> "" in [f.name, f.start, f.end]
  {
    f.name != "" && f.start != "" && f.end != ""
  }

  /** The rows `renderEvents(events)` leaves: one display row per record, in order. */
  function Rendered(events: seq<Event>): (r: seq<Row>)
    ensures |r| == |events|
    ensures forall k :: 0 <= k < |events| ==> r[k] == EventRow(events[k]) && r[k].Display?
  {
    if events == [] then [] else Rendered(events[..|events| - 1]) + [EventRow(events[|events| - 1])]
  }

  lemma {:induction false} RenderedAppend(events: seq<Event>, e: Event)
    ensures Rendered(events + [e]) == Rendered(events) + [EventRow(e)]
  {
    assert (events + [e])[..|events|] == events;
  }

  function RemoveAt(rows: seq<Row>, i: nat): (r: seq<Row>)
    requires i < |rows|
    ensures |r| == |rows| - 1
    ensures forall k :: 0 <= k < i ==> r[k] == rows[k]
    ensures forall k :: i <= k < |r| ==> r[k] == rows[k + 1]
  {
    rows[..i] + rows[i + 1..]
  }

  /** The index `querySelector(".event__form")` finds: the first form row. */
  function FirstForm(rows: seq<Row>): (r: Option<nat>)
    ensures r.None? <==> forall k :: 0 <= k < |rows| ==> !rows[k].Form?
    ensures r.Some? ==> (r.value < |rows| && rows[r.value].Form? &&
                         forall k :: 0 <= k < r.value ==> !rows[k].Form?)
  {
    if rows == [] then None
    else if rows[0].Form? then Some(0)
    else
      match FirstForm(rows[1..])
      case None => None
      case Some(k) => Some(k + 1)
  }

  /** `const form = querySelector(".event__form"); if (form) form.remove();` */
  function WithoutFirstForm(rows: seq<Row>): (r: seq<Row>)
    ensures r == rows <==> forall k :: 0 <= k < |rows| ==> !rows[k].Form?
    ensures r != rows ==> |r| == |rows| - 1
  {
    match FirstForm(rows)
    case None => rows
    case Some(k) => RemoveAt(rows, k)
  }

  /** `clearNewForm(button)` of the edit-capable view: the row holding the
      button when that row is a form, and otherwise the first form row. */
  function ClearedForm(rows: seq<Row>, origin: Option<nat>): (r: seq<Row>)
    requires origin.Some? ==> origin.value < |rows|
    ensures r == rows <==> forall k :: 0 <= k < |rows| ==> !rows[k].Form?
    ensures r != rows ==> |r| == |rows| - 1
    ensures origin.Some? && rows[origin.value].Form? ==> |r| == |rows| - 1 && r[..origin.value] == rows[..origin.value]
  {
    if origin.Some? && rows[origin.value].Form? then RemoveAt(rows, origin.value)
    else WithoutFirstForm(rows)
  }

  /** The element `getElementById(id)` finds among the rows: the first row
      whose `id` attribute is `id`. An empty string is no element's id, so
      it finds nothing. */
  function FirstWithId(rows: seq<Row>, id: string): (r: Option<nat>)
    ensures r.None? <==> id == "" || forall k :: 0 <= k < |rows| ==> !HasId(rows[k], id)
    ensures r.Some? ==> (r.value < |rows| && HasId(rows[r.value], id) &&
                         forall k :: 0 <= k < r.value ==> !HasId(rows[k], id))
  {
    if id == "" || rows == [] then None
    else if HasId(rows[0], id) then Some(0)
    else
      match FirstWithId(rows[1..], id)
      case None => None
      case Some(k) => Some(k + 1)
  }

  predicate HasId(row: Row, id: string) {
    !row.Form? && row.id == id
  }

  /** `document.getElementById(id).remove()`, when it does not throw. */
  function RemovedById(rows: seq<Row>, id: string): (r: seq<Row>)
    ensures r == rows <==> id == "" || forall k :: 0 <= k < |rows| ==> !HasId(rows[k], id)
    ensures r != rows ==> |r| == |rows| - 1
  {
    match FirstWithId(rows, id)
    case None => rows
    case Some(k) => RemoveAt(rows, k)
  }

  // ---------------------------------------------------------------------
  // What the edits keep

  /** The rows that are not new-event forms, in order. */
  function NonFormRows(rows: seq<Row>): seq<Row> {
    if rows == [] then []
    else (if rows[0].Form? then [] else [rows[0]]) + NonFormRows(rows[1..])
  }

  function FormCount(rows: seq<Row>): nat {
    if rows == [] then 0 else (if rows[0].Form? then 1 else 0) + FormCount(rows[1..])
  }

  lemma {:induction false} NonFormRowsAppend(a: seq<Row>, b: seq<Row>)
    ensures NonFormRows(a + b) == NonFormRows(a) + NonFormRows(b)
    ensures FormCount(a + b) == FormCount(a) + FormCount(b)
  {
    if a == [] {
      assert a + b == b;
    } else {
      assert (a + b)[1..] == a[1..] + b;
      NonFormRowsAppend(a[1..], b);
    }
  }

  lemma SingleRow(row: Row)
    ensures NonFormRows([row]) == if row.Form? then [] else [row]
    ensures FormCount([row]) == if row.Form? then 1 else 0
  {
    assert [row][1..] == [];
  }

  /** Removing one row from the middle: the counts and the non-form rows
      are those of the two sides and of the row itself. */
  lemma SplitAt(rows: seq<Row>, i: nat)
    requires i < |rows|
    ensures NonFormRows(rows) == NonFormRows(rows[..i]) + NonFormRows([rows[i]]) + NonFormRows(rows[i + 1..])
    ensures FormCount(rows) == FormCount(rows[..i]) + FormCount([rows[i]]) + FormCount(rows[i + 1..])
    ensures NonFormRows(RemoveAt(rows, i)) == NonFormRows(rows[..i]) + NonFormRows(rows[i + 1..])
    ensures FormCount(RemoveAt(rows, i)) == FormCount(rows[..i]) + FormCount(rows[i + 1..])
  {
    var a, b := rows[..i], rows[i + 1..];
    assert rows == (a + [rows[i]]) + b;
    assert RemoveAt(rows, i) == a + b;
    NonFormRowsAppend(a + [rows[i]], b);
    NonFormRowsAppend(a, [rows[i]]);
    NonFormRowsAppend(a, b);
  }

  /** Removing a form row removes one form and keeps every other row, in order. */
  lemma RemoveFormKeepsNonFormRows(rows: seq<Row>, i: nat)
    requires i < |rows| && rows[i].Form?
    ensures NonFormRows(RemoveAt(rows, i)) == NonFormRows(rows)
    ensures FormCount(RemoveAt(rows, i)) == FormCount(rows) - 1
  {
    SplitAt(rows, i);
    SingleRow(rows[i]);
    var a, b := NonFormRows(rows[..i]), NonFormRows(rows[i + 1..]);
    calc {
      NonFormRows(rows);
      a + NonFormRows([rows[i]]) + b;
      { assert NonFormRows([rows[i]]) == []; }
      a + [] + b;
      { assert a + [] == a; }
      a + b;
      NonFormRows(RemoveAt(rows, i));
    }
  }

  lemma {:induction false} NoFormNoCount(rows: seq<Row>)
    requires forall k :: 0 <= k < |rows| ==> !rows[k].Form?
    ensures FormCount(rows) == 0
    ensures NonFormRows(rows) == rows
  {
    if rows != [] {
      NoFormNoCount(rows[1..]);
    }
  }

  /** `clearNewForm` removes at most one row, and only a form row: every
      display and editing row stays, in order. It removes one exactly when
      there is a form row to remove, and the one it removes is the clicked
      row when that row is a form. */
  lemma ClearedFormRemovesOneForm(rows: seq<Row>, origin: Option<nat>)
    requires origin.Some? ==> origin.value < |rows|
    ensures var r := ClearedForm(rows, origin);
      && NonFormRows(r) == NonFormRows(rows)
      && (FormCount(rows) == 0 ==> r == rows)
      && (FormCount(rows) > 0 ==> |r| == |rows| - 1 && FormCount(r) == FormCount(rows) - 1)
      && (origin.Some? && rows[origin.value].Form? ==> r == RemoveAt(rows, origin.value))
  {
    if origin.Some? && rows[origin.value].Form? {
      RemoveFormKeepsNonFormRows(rows, origin.value);
    } else {
      match FirstForm(rows)
      case None => NoFormNoCount(rows);
      case Some(k) => RemoveFormKeepsNonFormRows(rows, k);
    }
  }

  /** After a successful submit the new record's row is appended and then
      the FIRST form row is removed, which need not be the one whose button
      was clicked: when an earlier form exists, the clicked form stays. */
  lemma SubmitRows(rows: seq<Row>, clicked: nat, saved: Event)
    requires clicked < |rows| && rows[clicked].Form?
    ensures FirstForm(rows).Some?
    ensures var r := WithoutFirstForm(rows + [EventRow(saved)]);
      && r == RemoveAt(rows, FirstForm(rows).value) + [EventRow(saved)]
      && NonFormRows(r) == NonFormRows(rows) + [EventRow(saved)]
      && FormCount(r) == FormCount(rows) - 1
      && (FirstForm(rows).value < clicked ==> rows[clicked] in r)
  {
    var k := FirstForm(rows).value;
    var row := EventRow(saved);
    var kept := RemoveAt(rows, k);
    AppendThenRemoveFirstForm(rows, row);
    RemoveFormKeepsNonFormRows(rows, k);
    NonFormRowsAppend(kept, [row]);
    SingleRow(row);
    assert NonFormRows(kept + [row]) == NonFormRows(rows) + [row];
    if k < clicked {
      assert kept[clicked - 1] == rows[clicked];
    }
  }

  lemma AppendThenRemoveFirstForm(rows: seq<Row>, row: Row)
    requires FirstForm(rows).Some?
    ensures WithoutFirstForm(rows + [row]) == RemoveAt(rows, FirstForm(rows).value) + [row]
  {
    var k := FirstForm(rows).value;
    var all := rows + [row];
    FirstFormOfAppend(rows, row);
    assert all[..k] == rows[..k];
    assert all[k + 1..] == rows[k + 1..] + [row];
  }

  lemma FirstFormOfAppend(rows: seq<Row>, row: Row)
    requires FirstForm(rows).Some?
    ensures FirstForm(rows + [row]) == FirstForm(rows)
  {
    var all := rows + [row];
    var k := FirstForm(rows).value;
    assert all[k].Form? && forall j :: 0 <= j < k ==> !all[j].Form?;
  }

  /** Deleting through a clicked display row with a non-empty id always finds
      a row to remove (the clicked one, or an earlier row with the same id),
      removes exactly one row and never a form. */
  lemma RemovedByIdOfClicked(rows: seq<Row>, i: nat)
    requires i < |rows| && rows[i].Display? && rows[i].id != ""
    ensures FirstWithId(rows, rows[i].id).Some? && FirstWithId(rows, rows[i].id).value <= i
    ensures |RemovedById(rows, rows[i].id)| == |rows| - 1
    ensures FormCount(RemovedById(rows, rows[i].id)) == FormCount(rows)
  {
    var k := FirstWithId(rows, rows[i].id).value;
    SplitAt(rows, k);
    SingleRow(rows[k]);
  }
}
