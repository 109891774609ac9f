/** The first version of the event list (index.js): records can be loaded,
    created and deleted, but not edited. Its view's `clearNewForm` takes no
    argument, so cancelling any form removes the first form row. */
module IndexApp {
  import opened Options
  import opened JsValues
  import opened EventRecords
  import opened RowList
  import opened Remote

  /** The table body and the row edits the view performs on it. */
  class EventsView {
    var rows: seq<Row>

    constructor (initial: seq<Row>)
      ensures rows == initial
    {
      rows := initial;
    }

    /** Removes the first form row, if there is one. */
    method ClearNewForm()
      modifies this
      ensures rows == WithoutFirstForm(old(rows))
    {
      var form := FirstForm(rows);
      if form.Some? {
        rows := RemoveAt(rows, form.value);
      }
    }

    /** Empties the table and appends one display row per record, in order,
        whatever the table held before. */
    method RenderEvents(events: seq<Event>)
      modifies this
      ensures rows == Rendered(events)
    {
      rows := [];
      var i := 0;
      while i < |events|
        invariant 0 <= i <= |events|
        invariant rows == Rendered(events[..i])
      {
        RenderNewEvent(events[i]);
        RenderedAppend(events[..i], events[i]);
        assert events[..i + 1] == events[..i] + [events[i]];
        i := i + 1;
      }
      assert events[..i] == events;
    }

    /** Removes the first row whose id attribute is `id`; when there is none
        the `remove` call throws and the table is left as it was. */
    method RemoveEventElem(id: string) returns (threw: bool)
      modifies this
      ensures threw <==> FirstWithId(old(rows), id).None?
      ensures rows == RemovedById(old(rows), id)
    {
      var found := FirstWithId(rows, id);
      if found.None? {
        return true;
      }
      rows := RemoveAt(rows, found.value);
      threw := false;
    }

    method RenderNewEvent(e: Event)
      modifies this
      ensures rows == old(rows) + [EventRow(e)]
    {
      rows := rows + [EventRow(e)];
    }

    method RenderNewForm()
      modifies this
      ensures rows == old(rows) + [NewForm]
    {
      rows := rows + [NewForm];
    }
  }

  /** The in-memory copy of the records the server last confirmed. */
  class EventsModel {
    var events: seq<Event>

    constructor (initial: seq<Event>)
      ensures events == initial
    {
      events := initial;
    }

    method SetEvents(list: seq<Event>)
      modifies this
      ensures events == list
    {
      events := list;
    }

    method GetEvents() returns (list: seq<Event>)
      ensures list == events
    {
      list := events;
    }

    method AddEvent(e: Event)
      modifies this
      ensures events == old(events) + [e]
    {
      events := events + [e];
    }

    /** Keeps the records whose id is not strictly equal to `id`. */
    method DeleteEvent(id: JsId)
      modifies this
      ensures events == Without(old(events), id)
    {
      events := Without(events, id);
    }
  }

  /** The click handlers. Each takes the index of the row whose button was
      clicked and, when it awaits the server, the reply it receives; the
      requests sent so far are kept in `requests`. */
  class EventsController {
    const view: EventsView
    const model: EventsModel
    var requests: seq<Request>

    /** Construction sets up the listeners and starts the initial load: the
        `GET` is sent, but `fetchEvents` is not awaited, so nothing is
        stored or rendered yet and the buttons already work. The load's
        continuation is `EventsFetched`, run when the reply arrives. */
    constructor (view: EventsView, model: EventsModel)
      ensures this.view == view && this.model == model
      ensures requests == [GetAll]
      ensures view.rows == old(view.rows) && model.events == old(model.events)
    {
      this.view := view;
      this.model := model;
      requests := [GetAll];
    }

    /** Fetches every record, stores the list, then renders it, when the
        reply comes back before anything else happens. */
    method FetchEvents(fetched: Reply<seq<Event>>) returns (outcome: Outcome)
      modifies this, model, view
      ensures requests == old(requests) + [GetAll]
      ensures fetched.Ok? ==>
        outcome == Completed && model.events == fetched.value && view.rows == Rendered(fetched.value)
      ensures fetched.Fail? ==>
        outcome == RemoteFailed && model.events == old(model.events) && view.rows == old(view.rows)
    {
      requests := requests + [GetAll];
      outcome := EventsFetched(fetched);
    }

    /** What `fetchEvents` does once its `GET` settles: store the list, then
        render it, replacing every row the table holds, forms included. */
    method EventsFetched(fetched: Reply<seq<Event>>) returns (outcome: Outcome)
      modifies model, view
      ensures fetched.Ok? ==>
        outcome == Completed && model.events == fetched.value && view.rows == Rendered(fetched.value)
      ensures fetched.Fail? ==>
        outcome == RemoteFailed && model.events == old(model.events) && view.rows == old(view.rows)
    {
      if fetched.Fail? {
        return RemoteFailed;
      }
      model.SetEvents(fetched.value);
      view.RenderEvents(fetched.value);
      outcome := Completed;
    }

    /** The add button appends an empty form. */
    method OnAddClick()
      modifies view
      ensures view.rows == old(view.rows) + [NewForm]
    {
      view.RenderNewForm();
    }

    /** The delete button of display row `i`: once the server confirms,
        drop the records whose id is the row's id string, then remove the
        first row with that id. */
    method OnDeleteClick(i: nat, reply: Reply<()>) returns (outcome: Outcome)
      requires i < |view.rows| && view.rows[i].Display?
      modifies this, model, view
      ensures var id := old(view.rows)[i].id;
        && requests == old(requests) + [Delete(id)]
        && (reply.Fail? ==> outcome == RemoteFailed && model.events == old(model.events)
                            && view.rows == old(view.rows))
        && (reply.Ok? ==> model.events == Without(old(model.events), Str(id))
                          && view.rows == RemovedById(old(view.rows), id)
                          && outcome == (if id == "" then Threw else Completed))
    {
      var id := view.rows[i].id;
      ghost var before := view.rows;
      requests := requests + [Delete(id)];
      if reply.Fail? {
        return RemoteFailed;
      }
      model.DeleteEvent(Str(id));
      var threw := view.RemoveEventElem(id);
      if id != "" {
        RemovedByIdOfClicked(before, i);
      }
      outcome := if threw then Threw else Completed;
    }

    /** The submit button of form row `i`: unless a field is empty, post the
        fields; once the server returns the saved record, append it to the
        store, append its row, and remove the FIRST form row. */
    method OnSubmitClick(i: nat, reply: Reply<Event>) returns (outcome: Outcome)
      requires i < |view.rows| && view.rows[i].Form?
      modifies this, model, view
      ensures var input := old(view.rows)[i].input;
        && (!AllFilled(input) ==> outcome == Rejected && requests == old(requests)
                                  && model.events == old(model.events) && view.rows == old(view.rows))
        && (AllFilled(input) ==> requests == old(requests) + [Post(input)])
        && (AllFilled(input) && reply.Fail? ==>
              outcome == RemoteFailed && model.events == old(model.events) && view.rows == old(view.rows))
        && (AllFilled(input) && reply.Ok? ==>
              && outcome == Completed
              && model.events == old(model.events) + [reply.value]
              && view.rows == WithoutFirstForm(old(view.rows) + [EventRow(reply.value)]))
    {
      var input := view.rows[i].input;
      if !AllFilled(input) {
        return Rejected;
      }
      requests := requests + [Post(input)];
      if reply.Fail? {
        return RemoteFailed;
      }
      var saved := reply.value;
      model.AddEvent(saved);
      view.RenderNewEvent(saved);
      view.ClearNewForm();
      outcome := Completed;
    }

    /** The cancel button of any form row removes the first form row, which
        need not be the clicked one, and never a display row. */
    method OnCancelClick(i: nat)
      requires i < |view.rows| && view.rows[i].Form?
      modifies view
      ensures view.rows == WithoutFirstForm(old(view.rows))
      ensures |view.rows| == |old(view.rows)| - 1
      ensures NonFormRows(view.rows) == NonFormRows(old(view.rows))
    {
      ghost var before := view.rows;
      view.ClearNewForm();
      ClearedFormRemovesOneForm(before, None);
      SplitAt(before, i);
    }
  }
}
