/** The event list with inline editing (edit.js): the view over the table
    rows, the in-memory store of records, and the controller whose click
    handlers call the remote service, then the store, then the view. */
module EditApp {
  import opened Options
  import opened JsValues
  import opened EventRecords
  import opened RowList
  import opened Remote

  /** The table body and the row edits the view performs on it. */
  class EventsView {
    var rows: seq<Row>

    constructor (initial: seq<Row>)
      ensures rows == initial
    {
      rows := initial;
    }

    /** Removes the clicked row when it is a form, and otherwise the first
        form row, if there is one. */
    method ClearNewForm(origin: Option<nat>)
      requires origin.Some? ==> origin.value < |rows|
      modifies this
      ensures rows == ClearedForm(old(rows), origin)
    {
      if origin.Some? && rows[origin.value].Form? {
        rows := RemoveAt(rows, origin.value);
        return;
      }
      var form := FirstForm(rows);
      if form.Some? {
        rows := RemoveAt(rows, form.value);
      }
    }

    /** Empties the table and appends one display row per record, in order,
        whatever the table held before. */
    method RenderEvents(events: seq<Event>)
      modifies this
      ensures rows == Rendered(events)
    {
      rows := [];
      var i := 0;
      while i < |events|
        invariant 0 <= i <= |events|
        invariant rows == Rendered(events[..i])
      {
        RenderNewEvent(events[i]);
        RenderedAppend(events[..i], events[i]);
        assert events[..i + 1] == events[..i] + [events[i]];
        i := i + 1;
      }
      assert events[..i] == events;
    }

    /** Removes the first row whose id attribute is `id`; when there is none
        the `remove` call throws and the table is left as it was. */
    method RemoveEventElem(id: string) returns (threw: bool)
      modifies this
      ensures threw <==> FirstWithId(old(rows), id).None?
      ensures rows == RemovedById(old(rows), id)
    {
      var found := FirstWithId(rows, id);
      if found.None? {
        return true;
      }
      rows := RemoveAt(rows, found.value);
      threw := false;
    }

    method RenderNewEvent(e: Event)
      modifies this
      ensures rows == old(rows) + [EventRow(e)]
    {
      rows := rows + [EventRow(e)];
    }

    method RenderNewForm()
      modifies this
      ensures rows == old(rows) + [NewForm]
    {
      rows := rows + [NewForm];
    }

    /** Replaces a display row's cells by inputs holding the text those cells
        showed; the row keeps its id. */
    method SwitchToEditMode(i: nat)
      requires i < |rows| && rows[i].Display?
      modifies this
      ensures rows == old(rows)[i := Editing(old(rows)[i].id, old(rows)[i].cells)]
    {
      rows := rows[i := Editing(rows[i].id, rows[i].cells)];
    }

    /** Turns an editing row back into a display row showing `e`'s fields;
        the row keeps its own id attribute, whatever `e.id` is. */
    method UpdateEventRow(i: nat, e: Event)
      requires i < |rows| && rows[i].Editing?
      modifies this
      ensures rows == old(rows)[i := Display(old(rows)[i].id, FieldsOf(e))]
    {
      rows := rows[i := Display(rows[i].id, FieldsOf(e))];
    }
  }

  /** The in-memory copy of the records the server last confirmed. */
  class EventsModel {
    var events: seq<Event>

    constructor (initial: seq<Event>)
      ensures events == initial
    {
      events := initial;
    }

    method SetEvents(list: seq<Event>)
      modifies this
      ensures events == list
    {
      events := list;
    }

    method GetEvents() returns (list: seq<Event>)
      ensures list == events
    {
      list := events;
    }

    method AddEvent(e: Event)
      modifies this
      ensures events == old(events) + [e]
    {
      events := events + [e];
    }

    /** Keeps the records whose id is not strictly equal to `id`. */
    method DeleteEvent(id: JsId)
      modifies this
      ensures events == Without(old(events), id)
    {
      events := Without(events, id);
    }

    /** Spreads `updated` over every record whose id is strictly equal to `id`. */
    method UpdateEvent(id: JsId, updated: Patch)
      modifies this
      ensures events == Updated(old(events), id, updated)
    {
      events := Updated(events, id, updated);
    }
  }

  /** The click handlers. Each takes the index of the row whose button was
      clicked and, when it awaits the server, the reply it receives; the
      requests sent so far are kept in `requests`. */
  class EventsController {
    const view: EventsView
    const model: EventsModel
    var requests: seq<Request>

    /** Construction sets up the listeners and starts the initial load: the
        `GET` is sent, but `fetchEvents` is not awaited, so nothing is
        stored or rendered yet and the buttons already work. The load's
        continuation is `EventsFetched`, run when the reply arrives. */
    constructor (view: EventsView, model: EventsModel)
      ensures this.view == view && this.model == model
      ensures requests == [GetAll]
      ensures view.rows == old(view.rows) && model.events == old(model.events)
    {
      this.view := view;
      this.model := model;
      requests := [GetAll];
    }

    /** Fetches every record, stores the list, then renders it, when the
        reply comes back before anything else happens. */
    method FetchEvents(fetched: Reply<seq<Event>>) returns (outcome: Outcome)
      modifies this, model, view
      ensures requests == old(requests) + [GetAll]
      ensures fetched.Ok? ==>
        outcome == Completed && model.events == fetched.value && view.rows == Rendered(fetched.value)
      ensures fetched.Fail? ==>
        outcome == RemoteFailed && model.events == old(model.events) && view.rows == old(view.rows)
    {
      requests := requests + [GetAll];
      outcome := EventsFetched(fetched);
    }

    /** What `fetchEvents` does once its `GET` settles: store the list, then
        render it, replacing every row the table holds, forms included. */
    method EventsFetched(fetched: Reply<seq<Event>>) returns (outcome: Outcome)
      modifies model, view
      ensures fetched.Ok? ==>
        outcome == Completed && model.events == fetched.value && view.rows == Rendered(fetched.value)
      ensures fetched.Fail? ==>
        outcome == RemoteFailed && model.events == old(model.events) && view.rows == old(view.rows)
    {
      if fetched.Fail? {
        return RemoteFailed;
      }
      model.SetEvents(fetched.value);
      view.RenderEvents(fetched.value);
      outcome := Completed;
    }

    /** The add button appends an empty form. */
    method OnAddClick()
      modifies view
      ensures view.rows == old(view.rows) + [NewForm]
    {
      view.RenderNewForm();
    }

    /** The delete button of display row `i`: once the server confirms,
        drop the records whose id is the row's id string, then remove the
        first row with that id. */
    method OnDeleteClick(i: nat, reply: Reply<()>) returns (outcome: Outcome)
      requires i < |view.rows| && view.rows[i].Display?
      modifies this, model, view
      ensures var id := old(view.rows)[i].id;
        && requests == old(requests) + [Delete(id)]
        && (reply.Fail? ==> outcome == RemoteFailed && model.events == old(model.events)
                            && view.rows == old(view.rows))
        && (reply.Ok? ==> model.events == Without(old(model.events), Str(id))
                          && view.rows == RemovedById(old(view.rows), id)
                          && outcome == (if id == "" then Threw else Completed))
    {
      var id := view.rows[i].id;
      ghost var before := view.rows;
      requests := requests + [Delete(id)];
      if reply.Fail? {
        return RemoteFailed;
      }
      model.DeleteEvent(Str(id));
      var threw := view.RemoveEventElem(id);
      if id != "" {
        RemovedByIdOfClicked(before, i);
      }
      outcome := if threw then Threw else Completed;
    }

    /** The submit button of form row `i`: unless a field is empty, post the
        fields; once the server returns the saved record, append it to the
        store, append its row, and remove the FIRST form row. */
    method OnSubmitClick(i: nat, reply: Reply<Event>) returns (outcome: Outcome)
      requires i < |view.rows| && view.rows[i].Form?
      modifies this, model, view
      ensures var input := old(view.rows)[i].input;
        && (!AllFilled(input) ==> outcome == Rejected && requests == old(requests)
                                  && model.events == old(model.events) && view.rows == old(view.rows))
        && (AllFilled(input) ==> requests == old(requests) + [Post(input)])
        && (AllFilled(input) && reply.Fail? ==>
              outcome == RemoteFailed && model.events == old(model.events) && view.rows == old(view.rows))
        && (AllFilled(input) && reply.Ok? ==>
              && outcome == Completed
              && model.events == old(model.events) + [reply.value]
              && view.rows == ClearedForm(old(view.rows) + [EventRow(reply.value)], None))
    {
      var input := view.rows[i].input;
      if !AllFilled(input) {
        return Rejected;
      }
      requests := requests + [Post(input)];
      if reply.Fail? {
        return RemoteFailed;
      }
      var saved := reply.value;
      model.AddEvent(saved);
      view.RenderNewEvent(saved);
      view.ClearNewForm(None);
      outcome := Completed;
    }

    /** The cancel button of form row `i` removes that row and nothing else. */
    method OnCancelClick(i: nat)
      requires i < |view.rows| && view.rows[i].Form?
      modifies view
      ensures view.rows == RemoveAt(old(view.rows), i)
    {
      view.ClearNewForm(Some(i));
    }

    /** The edit button of display row `i` turns it into inputs. */
    method OnEditClick(i: nat)
      requires i < |view.rows| && view.rows[i].Display?
      modifies view
      ensures view.rows == old(view.rows)[i := Editing(old(view.rows)[i].id, old(view.rows)[i].cells)]
    {
      view.SwitchToEditMode(i);
    }

    /** The save button of editing row `i`: unless a field is empty, put the
        fields under the row's id; once the server returns the saved record,
        spread it over the records whose id is the row's id string, then show
        it in the row. */
    method OnSaveClick(i: nat, reply: Reply<Event>) returns (outcome: Outcome)
      requires i < |view.rows| && view.rows[i].Editing?
      modifies this, model, view
      ensures var row := old(view.rows)[i];
        && (!AllFilled(row.input) ==> outcome == Rejected && requests == old(requests)
                                      && model.events == old(model.events) && view.rows == old(view.rows))
        && (AllFilled(row.input) ==> requests == old(requests) + [Put(row.id, row.input)])
        && (AllFilled(row.input) && reply.Fail? ==>
              outcome == RemoteFailed && model.events == old(model.events) && view.rows == old(view.rows))
        && (AllFilled(row.input) && reply.Ok? ==>
              && outcome == Completed
              && model.events == Updated(old(model.events), Str(row.id), PatchOf(reply.value))
              && view.rows == old(view.rows)[i := Display(row.id, FieldsOf(reply.value))])
    {
      var id := view.rows[i].id;
      var input := view.rows[i].input;
      if !AllFilled(input) {
        return Rejected;
      }
      requests := requests + [Put(id, input)];
      if reply.Fail? {
        return RemoteFailed;
      }
      var saved := reply.value;
      model.UpdateEvent(Str(id), PatchOf(saved));
      view.UpdateEventRow(i, saved);
      outcome := Completed;
    }

    /** The cancel-edit button of editing row `i`: look up the stored record
        whose id is strictly equal to `parseInt` of the row's id and show it
        again. No request is sent and the store is not touched; when no
        record matches, rendering `undefined` throws and the row stays as
        it is. */
    method OnCancelEditClick(i: nat) returns (outcome: Outcome)
      requires i < |view.rows| && view.rows[i].Editing?
      modifies view
      ensures var found := Find(model.events, ParseInt(old(view.rows)[i].id));
        && (found.None? ==> outcome == Threw && view.rows == old(view.rows))
        && (found.Some? ==> outcome == Completed
                            && view.rows == old(view.rows)[i := Display(old(view.rows)[i].id, FieldsOf(found.value))])
    {
      var id := ParseInt(view.rows[i].id);
      var events := model.GetEvents();
      var found := Find(events, id);
      if found.None? {
        return Threw;
      }
      view.UpdateEventRow(i, found.value);
      outcome := Completed;
    }
  }

  /** A page loaded with one record whose id is the number 1; its row's id
      is the string "1". Cancelling an edit parses "1" back to 1 and finds
      the record. */
  method NumericIdCancelEditScenario()
  {
    var standup := Event(Num(1), "Standup", "2024-01-01", "2024-01-01");
    var rowId := ToAttr(standup.id);
    ParseIntOfDecimal(1);
    var view := new EventsView([]);
    var model := new EventsModel([]);
    var controller := new EventsController(view, model);
    assert controller.view == view && controller.model == model;
    var loaded := controller.EventsFetched(Ok([standup]));
    assert view.rows == [Display(rowId, FieldsOf(standup))];

    controller.OnEditClick(0);
    assert view.rows == [Editing(rowId, FieldsOf(standup))];
    var cancelled := controller.OnCancelEditClick(0);
    assert cancelled == Completed && view.rows == [Display(rowId, FieldsOf(standup))];
  }

  /** The same page: saving and deleting compare the number 1 with the
      string "1", so after a save the store still holds the old fields, and
      after a delete the row is gone but the record stays. */
  method NumericIdSaveDeleteScenario()
  {
    var standup := Event(Num(1), "Standup", "2024-01-01", "2024-01-01");
    var rowId := ToAttr(standup.id);
    WithoutShrinks([standup], Str(rowId));
    assert rowId != "" && Without([standup], Str(rowId)) == [standup];
    var typed := Fields("Standup v2", "2024-01-01", "2024-01-01");
    var view := new EventsView([Editing(rowId, typed)]);
    var model := new EventsModel([standup]);
    var controller := new EventsController(view, model);
    assert controller.view == view && controller.model == model;

    var saved := controller.OnSaveClick(0, Ok(Event(Num(1), typed.name, typed.start, typed.end)));
    assert saved == Completed && view.rows == [Display(rowId, typed)];
    assert model.events == [standup];

    var deleted := controller.OnDeleteClick(0, Ok(()));
    assert deleted == Completed && view.rows == [];
    assert model.events == [standup];
  }

  /** The add button works while the initial `GET` is still pending; when
      the list then arrives, `renderEvents` empties the table, so the form
      added in the meantime is gone. */
  method AddBeforeLoadScenario()
  {
    var standup := Event(Num(1), "Standup", "2024-01-01", "2024-01-01");
    var view := new EventsView([]);
    var model := new EventsModel([]);
    var controller := new EventsController(view, model);
    assert controller.view == view && controller.model == model;

    controller.OnAddClick();
    assert view.rows == [NewForm] && FormCount(view.rows) == 1;
    var loaded := controller.EventsFetched(Ok([standup]));
    assert view.rows == [EventRow(standup)];
    NoFormNoCount(view.rows);
    assert loaded == Completed && FormCount(view.rows) == 0;
  }
}
