/**
 The `/api/check` handler as a pure function: the store loaded at the
 start of the request comes in, and the reply and the document written
 back (if any) come out.
 */
module CheckHandler {
  import opened Keys

  /** The `status` tag of the JSON reply. */
  datatype Status = Error | Fail | Success

  /** Which of the five replies the handler sends; each has its own message. */
  datatype Reason =
    | MissingInput   // key or hwid missing
    | UnknownKey     // no truthy value stored under the key
    | FirstBind      // hwid was null and is now bound
    | HwidMismatch   // stored hwid is not the supplied one
    | Valid          // stored hwid is the supplied one

  function StatusOf(reason: Reason): (s: Status) {
    match reason
    case MissingInput => Error
    case UnknownKey => Fail
    case FirstBind => Success
    case HwidMismatch => Fail
    case Valid => Success
  }

  /** The reply, and the document passed to `saveKeys`, if it was called. */
  datatype Outcome = Outcome(reason: Reason, saved: Option<Store>)

  /** The document on disk once the request is done. */
  function After(o: Outcome, store: Store): (after: Store) {
    if o.saved.Some? then o.saved.value else store
  }

  /** One request to `/api/check`. The store is the result of `loadKeys`,
      which only happens once both fields are present. */
  function Check(store: Store, key: Field, hwid: Field): (o: Outcome)
    ensures o.saved.Some? <==> o.reason == FirstBind
    ensures o.saved.Some? ==> o.saved.value.Keys == store.Keys
  {
    if !Truthy(key) || !Truthy(hwid) then
      Outcome(MissingInput, None)
    else if !Known(store, key.text) then
      Outcome(UnknownKey, None)
    else
      var info := store[key.text];
      if info.hwid == Null then
        Outcome(FirstBind, Some(store[key.text := info.(hwid := Bound(hwid.text))]))
      else if info.hwid != Bound(hwid.text) then
        Outcome(HwidMismatch, None)
      else
        Outcome(Valid, None)
  }
}
