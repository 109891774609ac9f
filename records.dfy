/** The records the event store holds and the pure list operations its
    methods are built from: `filter` for deleting, `map` with an object
    spread for updating, and `find` for the lookup that cancelling an edit
    performs. */
module EventRecords {
  import opened Options
  import opened JsValues

  /** A record as the JSON server returns it: `{id, name, start, end}`. */
  datatype Event = Event(id: JsId, name: string, start: string, end: string)

  /** The own properties of the object spread over a record when it is
      updated; an absent property leaves the record's field as it was. */
  datatype Patch = Patch(id: Option<JsId>, name: Option<string>, start: Option<string>, end: Option<string>)

  /** A whole record seen as a patch: every property present. */
  function PatchOf(e: Event): Patch {
    Patch(Some(e.id), Some(e.name), Some(e.start), Some(e.end))
  }

  function Override<T>(current: T, given: Option<T>): T {
    if given.Some? then given.value else current
  }

  /** `{ ...ev, ...updated }`: the old fields, each overridden by the patch's
      property of the same name when it has one. */
  function Merge(ev: Event, updated: Patch): (r: Event)
    ensures r.id == (if updated.id.Some? then updated.id.value else ev.id)
    ensures r.name == (if updated.name.Some? then updated.name.value else ev.name)
    ensures r.start == (if updated.start.Some? then updated.start.value else ev.start)
    ensures r.end == (if updated.end.Some? then updated.end.value else ev.end)
  {
    Event(Override(ev.id, updated.id), Override(ev.name, updated.name),
          Override(ev.start, updated.start), Override(ev.end, updated.end))
  }

  /** Spreading a whole record over any record yields that record, and
      spreading the same patch twice is spreading it once. */
  lemma MergeWhole(ev: Event, saved: Event, u: Patch)
    ensures Merge(ev, PatchOf(saved)) == saved
    ensures Merge(Merge(ev, u), u) == Merge(ev, u)
    ensures Merge(ev, Patch(None, None, None, None)) == ev
  {
  }

  /** `events.filter((ev) => ev.id !== id)`. */
  function Without(events: seq<Event>, id: JsId): (r: seq<Event>)
    ensures |r| <= |events|
    ensures forall e :: e in r <==> e in events && !StrictEquals(e.id, id)
  {
    if events == [] then []
    else (if StrictEquals(events[0].id, id) then [] else [events[0]]) + Without(events[1..], id)
  }

  /** Filtering distributes over concatenation: what is kept keeps its order. */
  lemma {:induction false} WithoutAppend(a: seq<Event>, b: seq<Event>, id: JsId)
    ensures Without(a + b, id) == Without(a, id) + Without(b, id)
  {
    if a == [] {
      assert a + b == b;
    } else {
      assert (a + b)[1..] == a[1..] + b;
      WithoutAppend(a[1..], b, id);
    }
  }

  /** Deleting by an id twice removes no more than deleting once. */
  lemma {:induction false} WithoutIdempotent(events: seq<Event>, id: JsId)
    ensures Without(Without(events, id), id) == Without(events, id)
  {
    if events != [] {
      var head := if StrictEquals(events[0].id, id) then [] else [events[0]];
      WithoutIdempotent(events[1..], id);
      WithoutAppend(head, Without(events[1..], id), id);
      assert Without(head, id) == head by {
        if head != [] {
          assert head[1..] == [];
        }
      }
    }
  }

  /** Deleting an id no record carries leaves the list as it is, and the
      list shrinks exactly when some record carries the id. */
  lemma {:induction false} WithoutShrinks(events: seq<Event>, id: JsId)
    ensures Without(events, id) == events <==> forall e :: e in events ==> !StrictEquals(e.id, id)
    ensures |Without(events, id)| < |events| <==> exists e :: e in events && StrictEquals(e.id, id)
  {
    if events != [] {
      WithoutShrinks(events[1..], id);
      assert events == [events[0]] + events[1..];
      if StrictEquals(events[0].id, id) {
        assert events[0] !in Without(events, id);
      }
    }
  }

  /** `events.map((ev) => ev.id === id ? { ...ev, ...updated } : ev)`. */
  function Updated(events: seq<Event>, id: JsId, updated: Patch): (r: seq<Event>)
    ensures |r| == |events|
    ensures forall k :: 0 <= k < |events| ==>
      r[k] == if StrictEquals(events[k].id, id) then Merge(events[k], updated) else events[k]
  {
    if events == [] then []
    else [if StrictEquals(events[0].id, id) then Merge(events[0], updated) else events[0]]
         + Updated(events[1..], id, updated)
  }

  /** Updating with the server's whole record makes every matching record
      exactly that record, leaves every other record as it was, and doing
      it again changes nothing more. */
  lemma UpdatedWithSaved(events: seq<Event>, id: JsId, saved: Event)
    ensures forall k :: 0 <= k < |events| && StrictEquals(events[k].id, id) ==>
      Updated(events, id, PatchOf(saved))[k] == saved
    ensures var r := Updated(events, id, PatchOf(saved));
      Updated(r, id, PatchOf(saved)) == r
  {
    var u := PatchOf(saved);
    var r := Updated(events, id, u);
    var r2 := Updated(r, id, u);
    forall k | 0 <= k < |events| && StrictEquals(events[k].id, id)
      ensures r[k] == saved
    {
      MergeWhole(events[k], saved, u);
    }
    forall k | 0 <= k < |r|
      ensures r2[k] == r[k]
    {
      if StrictEquals(r[k].id, id) {
        MergeWhole(r[k], saved, u);
      }
    }
  }

  /** `events.find((ev) => ev.id === id)`: the first record whose id is
      strictly equal to `id`, or `undefined`. */
  function Find(events: seq<Event>, id: JsId): (r: Option<Event>)
    ensures r.None? <==> forall k :: 0 <= k < |events| ==> !StrictEquals(events[k].id, id)
    ensures r.Some? ==> (exists k :: 0 <= k < |events| && events[k] == r.value && StrictEquals(r.value.id, id)
                           && forall j :: 0 <= j < k ==> !StrictEquals(events[j].id, id))
  {
    if events == [] then None
    else if StrictEquals(events[0].id, id) then Some(events[0])
    else
      var r := Find(events[1..], id);
      assert r.Some? ==> (exists k :: 1 <= k < |events| && events[k] == r.value && StrictEquals(r.value.id, id)
                             && forall j :: 1 <= j < k ==> !StrictEquals(events[j].id, id)) by {
        if r.Some? {
          var k :| 0 <= k < |events[1..]| && events[1..][k] == r.value && StrictEquals(r.value.id, id)
            && forall j :: 0 <= j < k ==> !StrictEquals(events[1..][j].id, id);
          assert events[k + 1] == r.value;
          forall j | 1 <= j < k + 1 ensures !StrictEquals(events[j].id, id) {
            assert events[j] == events[1..][j - 1];
          }
        }
      }
      r
  }

  /** What a row's string id reaches in the store. The row of a record `e`
      carries `String(e.id)`. Deleting by that string removes `e` exactly
      when its id is a string, and updating by it changes `e` only then;
      cancelling an edit looks up `parseInt` of it and finds a record with
      `e`'s id exactly when that id is a number, and finds nothing at all
      when every stored id is a string. */
  lemma RowIdReaches(events: seq<Event>, e: Event, u: Patch)
    requires e in events && !e.id.NaN?
    ensures e in Without(events, Str(ToAttr(e.id))) <==> e.id.Num?
    ensures e.id.Num? ==> (forall k :: 0 <= k < |events| && events[k] == e ==>
                             Updated(events, Str(ToAttr(e.id)), u)[k] == e)
    ensures e.id.Num? ==> (Find(events, ParseInt(ToAttr(e.id))).Some? &&
                           Find(events, ParseInt(ToAttr(e.id))).value.id == e.id)
    ensures (forall k :: 0 <= k < |events| ==> events[k].id.Str?) ==>
      Find(events, ParseInt(ToAttr(e.id))).None?
  {
    StoredIdMatchesExactlyOnePath(e.id);
  }
}
