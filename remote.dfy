/** The remote events service as the controllers see it. A request is what
    `eventsAPI` sends; its reply is an input to the handler that awaits it,
    because the network is outside the model. */
module Remote {
  import opened RowList

  /** The requests `eventsAPI` issues: `GET /events`, `POST /events` with the
      form's fields, `DELETE /events/<id>` and `PUT /events/<id>` with the
      edited fields, where `<id>` is the row's `id` attribute. */
  datatype Request =
    | GetAll
    | Post(body: Fields)
    | Delete(id: string)
    | Put(id: string, body: Fields)

  /** How an awaited request settles: the parsed JSON body, or a rejected
      promise (a network failure, or a body that is not JSON). */
  datatype Reply<T> = Ok(value: T) | Fail

  /** How a click handler ends. `Rejected`: the fields were not all filled
      and the handler alerted and returned. `RemoteFailed`: the awaited
      request rejected, so nothing after it ran. `Threw`: a DOM step threw
      part way. `Completed`: every step ran. */
  datatype Outcome = Rejected | RemoteFailed | Threw | Completed
}
