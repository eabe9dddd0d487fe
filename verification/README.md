# Licence-key check, modelled in Dafny

The service keeps licence keys in one JSON document, `keys.json`, which maps
each key string to a record. A client calls `POST /api/check` with a `key` and
a device fingerprint `hwid`. The first time a key whose stored `hwid` is
`null` is checked, it is bound to the caller's fingerprint and the document is
written back. After that, the key answers `success` only to that fingerprint.

This project models the handler (`index.js`, lines 18-47) as a pure function,
`CheckHandler.Check(store, key, hwid)`. The document loaded by `loadKeys` goes
in. The reply and the document handed to `saveKeys`, if it is called, come out.
Requests served one after another are modelled by `Sessions.Run`.

Files:
- `keys.dfy` (module `Keys`): request fields, the three-valued stored `hwid`
  (`Null | Absent | Bound(id)`), stored entries and the store.
- `check.dfy` (module `CheckHandler`): the reply tags and `Check`.
- `check_properties.dfy` (module `CheckProperties`): what each branch replies
  and writes, and the `EntryStep`/`Evolves` relation that a request keeps.
- `sessions.dfy` (module `Sessions`): sequences of requests and the
  bind-once, never-rebind properties.

JavaScript semantics, written out:
- `!key || !hwid`: a request field is falsy when it is absent, `null` or the
  empty string (`Keys.Truthy`).
- `!keys[key]`: a key is unknown when it is not in the document, or when the
  stored value is itself falsy (`null`, `false`, `0`, `""`).
- `info.hwid === null` holds only for a literal `null`. A missing `hwid`
  property is `undefined`, which never binds. A finite number, a boolean or an
  object compares the same way against a string, so `Absent` stands for
  `undefined` and for those values.
- `info.hwid !== hwid` is strict string inequality once `hwid` is a string.

This handler binds only on a literal `null`: a record without an `hwid`
property can never be used.

## Model

| member | source | states |
|---|---|---|
| CheckHandler.Check | index.js:18-47 | the document is written (`saveKeys`) exactly when the reply is the first-bind one, and a written document has the same keys as the loaded one; `CheckHandler.StatusOf` gives each reply its status tag (error, fail, success, fail, success at index.js:22, 28, 37, 42, 46) and `CheckHandler.After` is the document on disk once the request is done (index.js:36) |
| CheckProperties.MissingInputIsError | index.js:21-23 | the reply is `error` if and only if the key or hwid is absent, null or empty; nothing is written then |
| CheckProperties.MissingInputIgnoresStore | index.js:21-25 | on missing input the document is not loaded: two different documents give the same outcome |
| CheckProperties.UnknownKeyFails | index.js:27-29 | with a non-empty key and hwid, the reply is the unknown-key `fail` if and only if no truthy value is stored under the key; the document is unchanged |
| CheckProperties.FirstBindChangesOneField | index.js:33-38 | a record whose hwid is exactly `null` gets the supplied hwid and the reply is `success`; every other key and every other property of the record is unchanged |
| CheckProperties.MismatchFails | index.js:40-43 | for a known key, with a non-empty key and hwid, the reply is the mismatch `fail` if and only if the stored hwid is neither `null` nor the supplied string; nothing is written |
| CheckProperties.MatchSucceeds | index.js:45-46 | for a known key, with a non-empty key and hwid, the reply is the plain `success` if and only if the stored hwid is the supplied string; nothing is written |
| CheckProperties.AbsentNeverBinds | index.js:34-43 | a record with no hwid property is never bound: the reply is the mismatch `fail` and the document is unchanged |
| CheckProperties.SuccessIffBoundToCaller | index.js:21-46 | the status is `success` if and only if, after the request, the named record is bound to the caller's hwid |
| CheckProperties.CheckEvolves | index.js:31-38 | a request keeps every key, and changes a record at most from hwid `null` to a non-empty hwid with its other properties kept |
| CheckProperties.SettledRecordUnchanged | index.js:34-46 | a record whose hwid is not `null` is never changed by a request, so a bound hwid is never replaced |
| Sessions.Run | index.js:25-36 | serving requests in turn gives one reply per request and never adds or removes a key |
| Sessions.RunEvolves | index.js:34-43 | after any sequence of requests every key is still there, and each record is either unchanged or has gone once from hwid `null` to a non-empty hwid with its other properties kept; a bound hwid never ends as another value |
| Sessions.SettledKeyIsFrozen | index.js:34-46 | a record with a non-null hwid stays the same over any sequence of requests, and each request naming it with a non-empty key and hwid gets `success` exactly when its hwid is the stored one and `fail` otherwise |
| Sessions.FirstBindThenStable | index.js:33-46 | after a first bind of a non-empty key to a non-empty `h`, all later requests naming that key with `h` succeed without writing, all with another non-empty hwid fail, and the record ends bound to `h` |

## Left out

- HTTP plumbing: the Express app, JSON body parsing, `res.json` and the
  port/`listen` code (index.js:1-4, 49-53). The reply is modelled as its
  status tag plus a `Reason` that tells the five messages apart; the message
  text is not modelled.
- `loadKeys`/`saveKeys` file I/O and JSON text (index.js:7-14). The loaded
  document is the `store` argument and the saved one is `Outcome.saved`. A
  missing or unparsable `keys.json` makes `loadKeys` throw; that failure is
  not modelled.
- Request fields that are JSON numbers, booleans, objects or arrays. Only
  strings, absent fields and `null` are modelled.
- Strings holding a lone UTF-16 surrogate (such as `"\ud800"`) in a request or
  in `keys.json`. A Dafny `string` holds Unicode scalar values only, so such a
  key or hwid cannot be represented. Truthiness and strict equality agree with
  the handler on every string the model can represent.
- Stored JSON values that `JSON.parse` followed by `JSON.stringify` does not
  give back unchanged, anywhere in the document: as an `hwid`, as a whole
  entry, or inside a record's other properties. A number that overflows to
  `Infinity` or `-Infinity` (such as `1e400`) is written back as `null`, and
  `-0` is written back as `0`. After any first bind these values reload
  changed. A reloaded `null` hwid can then be bound, a reloaded `null` entry
  reads as an unknown key, and another property of a bound record changes on
  disk. The model's `fields` hold the text as it is written back.
- A `keys.json` whose top level is not an object. A top-level `null` makes
  `keys[key]` throw (index.js:27). In a non-empty top-level array, the key
  `"length"` finds a truthy number and gets the mismatch reply, not the unknown-key one.
  The store is always a map from key strings to entries.
- Sessions.Run: takes the document the next request loads to be exactly the
  one the previous request saved. That holds only for documents that survive
  the JSON round trip unchanged, which the values in the line above do not.
  So Sessions.RunEvolves and Sessions.SettledKeyIsFrozen do not cover a
  `keys.json` holding such values, in an hwid, an entry or any other property.
  It also assumes nobody edits `keys.json` by hand between requests. Hand
  editing is how keys are added, reset or deleted (index.js:16-17), and such an
  edit can change any record.
- Prototype-chain lookups of `keys[key]` such as `"constructor"` or
  `"__proto__"`. The store is a true finite map.
- Concurrent requests and the lost update between `loadKeys` and `saveKeys`.
  Requests are served one at a time.
- `public/app.js`: browser code (DOM reads, `fetch`, `alert`) with no logic of
  its own.
- Key creation, locking, reset, renewal, expiry, deletion and history. None of
  these exists in the handler modelled here.
