/**
 The data the licence-key check works on: the request fields, the key
 store read from the JSON document, and the three-valued `hwid` field of
 a stored record.
 */
module Keys {

  datatype Option<+T> = None | Some(value: T)

  /** A field of the request body. `Missing` covers both an absent property
      (`undefined`) and an explicit JSON `null`. */
  datatype Field = Missing | Given(text: string)

  /** JavaScript truthiness of a request field: `undefined`, `null` and the
      empty string are falsy, every other string is truthy. */
  predicate Truthy(f: Field) {
    f.Given? && f.text != ""
  }

  /** The `hwid` property of a stored record, compared with `===`/`!==`.
      `Null` is a literal JSON `null` (the only value that binds); `Absent`
      is a missing property (`undefined`), and stands equally for any other
      non-string value that is written back unchanged (a finite number, a
      boolean, an object), since all of these are strictly unequal both to
      `null` and to every string; `Bound(id)` is a string. */
  datatype Hwid = Null | Absent | Bound(id: string)

  /** A value stored under a key. `FalsyValue` is a stored `null`, `false`,
      `0` or `""`, which the lookup treats as an unknown key. `Record` is
      an object; `fields` holds its other properties (everything but
      `hwid`), each as opaque JSON text that the check never inspects,
      taken to be the text `JSON.stringify` writes back for it.
      A truthy primitive that is written back unchanged (any but a number
      that overflows to an infinity) reads its `hwid` as `undefined`, so it
      behaves as a `Record` whose `hwid` is `Absent`. */
  datatype Entry = FalsyValue | Record(hwid: Hwid, fields: map<string, string>)

  /** The whole JSON document: key string to stored value. */
  type Store = map<string, Entry>

  /** The lookup `keys[key]` finds a truthy value. */
  predicate Known(store: Store, k: string) {
    k in store && store[k].Record?
  }
}
