/**
 What a single `/api/check` request does, branch by branch: which reply is
 sent, and what happens to the stored document.
 */
module CheckProperties {
  import opened Keys
  import opened CheckHandler

  /** A missing or empty key or hwid is answered with `error`, and nothing
      is written. */
  lemma MissingInputIsError(store: Store, key: Field, hwid: Field)
    ensures Check(store, key, hwid).reason == MissingInput <==> !Truthy(key) || !Truthy(hwid)
    ensures !Truthy(key) || !Truthy(hwid) ==>
              StatusOf(Check(store, key, hwid).reason) == Error &&
              Check(store, key, hwid).saved == None
  {
  }

  /** On missing input the document is not loaded: the outcome is the same
      whatever the store holds. */
  lemma MissingInputIgnoresStore(store1: Store, store2: Store, key: Field, hwid: Field)
    requires !Truthy(key) || !Truthy(hwid)
    ensures Check(store1, key, hwid) == Check(store2, key, hwid)
  {
  }

  /** With both fields present, a key under which no truthy value is stored
      is answered with `fail`, and nothing is written. */
  lemma UnknownKeyFails(store: Store, key: Field, hwid: Field)
    requires Truthy(key) && Truthy(hwid)
    ensures Check(store, key, hwid).reason == UnknownKey <==> !Known(store, key.text)
    ensures !Known(store, key.text) ==>
              StatusOf(Check(store, key, hwid).reason) == Fail &&
              After(Check(store, key, hwid), store) == store
  {
  }

  /** A record whose hwid is exactly `null` is bound to the supplied hwid:
      the reply is `success`, and the document written back differs from
      the one loaded only in that record's hwid. */
  lemma FirstBindChangesOneField(store: Store, key: Field, hwid: Field)
    requires Truthy(key) && Truthy(hwid)
    requires Known(store, key.text) && store[key.text].hwid == Null
    ensures Check(store, key, hwid).reason == FirstBind
    ensures StatusOf(Check(store, key, hwid).reason) == Success
    ensures Check(store, key, hwid).saved.Some?
    ensures var saved := Check(store, key, hwid).saved.value;
            && saved.Keys == store.Keys
            && (forall k :: k in store && k != key.text ==> saved[k] == store[k])
            && saved[key.text].Record?
            && saved[key.text].hwid == Bound(hwid.text)
            && saved[key.text].fields == store[key.text].fields
  {
  }

  /** A record whose hwid is not `null` and not the supplied string is
      answered with `fail`, and nothing is written. */
  lemma MismatchFails(store: Store, key: Field, hwid: Field)
    requires Truthy(key) && Truthy(hwid) && Known(store, key.text)
    ensures Check(store, key, hwid).reason == HwidMismatch <==>
              store[key.text].hwid != Null && store[key.text].hwid != Bound(hwid.text)
    ensures Check(store, key, hwid).reason == HwidMismatch ==>
              StatusOf(Check(store, key, hwid).reason) == Fail &&
              Check(store, key, hwid).saved == None
  {
  }

  /** A record already bound to the supplied hwid is answered with
      `success`, and nothing is written. */
  lemma MatchSucceeds(store: Store, key: Field, hwid: Field)
    requires Truthy(key) && Truthy(hwid) && Known(store, key.text)
    ensures Check(store, key, hwid).reason == Valid <==> store[key.text].hwid == Bound(hwid.text)
    ensures store[key.text].hwid == Bound(hwid.text) ==>
              StatusOf(Check(store, key, hwid).reason) == Success &&
              Check(store, key, hwid).saved == None
  {
  }

  /** A record with no hwid property (or a non-string, non-null one) is
      never bound: every request naming it with an hwid fails. */
  lemma AbsentNeverBinds(store: Store, key: Field, hwid: Field)
    requires Truthy(key) && Truthy(hwid)
    requires Known(store, key.text) && store[key.text].hwid == Absent
    ensures Check(store, key, hwid).reason == HwidMismatch
    ensures After(Check(store, key, hwid), store) == store
  {
  }

  /** The reply is `success` exactly when, once the request is done, the
      named record is bound to the caller's hwid. */
  lemma SuccessIffBoundToCaller(store: Store, key: Field, hwid: Field)
    ensures var after := After(Check(store, key, hwid), store);
            StatusOf(Check(store, key, hwid).reason) == Success <==>
              && Truthy(key) && Truthy(hwid)
              && Known(after, key.text)
              && after[key.text].hwid == Bound(hwid.text)
  {
  }

  /** How one stored value may change: not at all, or from hwid `null` to a
      non-empty bound hwid with every other property kept. */
  predicate EntryStep(before: Entry, after: Entry) {
    || after == before
    || (&& before.Record? && before.hwid == Null
        && after.Record? && after.hwid.Bound? && after.hwid.id != ""
        && after.fields == before.fields)
  }

  /** The document keeps its keys and every value takes an `EntryStep`. */
  predicate Evolves(before: Store, after: Store) {
    && before.Keys == after.Keys
    && forall k :: k in before ==> EntryStep(before[k], after[k])
  }

  lemma EvolvesReflexive(store: Store)
    ensures Evolves(store, store)
  {
  }

  lemma EvolvesTransitive(a: Store, b: Store, c: Store)
    requires Evolves(a, b) && Evolves(b, c)
    ensures Evolves(a, c)
  {
  }

  /** A request only ever moves a record's hwid from `null` to a value. */
  lemma CheckEvolves(store: Store, key: Field, hwid: Field)
    ensures Evolves(store, After(Check(store, key, hwid), store))
  {
  }

  /** A record whose hwid is anything but `null` is never changed by a
      request, so a bound hwid cannot be replaced. */
  lemma SettledRecordUnchanged(store: Store, key: Field, hwid: Field, k: string)
    requires k in store && store[k].Record? && store[k].hwid != Null
    ensures After(Check(store, key, hwid), store)[k] == store[k]
  {
  }
}
