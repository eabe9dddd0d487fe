/**
 Requests to `/api/check` served one after another, each loading the
 document the previous one left on disk.
 */
module Sessions {
  import opened Keys
  import opened CheckHandler
  import opened CheckProperties

  datatype Request = Request(key: Field, hwid: Field)

  /** The replies, in request order, and the document left at the end. */
  datatype Trace = Trace(reasons: seq<Reason>, final: Store)

  function Run(store: Store, reqs: seq<Request>): (t: Trace)
    ensures |t.reasons| == |reqs|
    ensures t.final.Keys == store.Keys
    decreases |reqs|
  {
    if |reqs| == 0 then
      Trace([], store)
    else
      var o := Check(store, reqs[0].key, reqs[0].hwid);
      var rest := Run(After(o, store), reqs[1..]);
      Trace([o.reason] + rest.reasons, rest.final)
  }

  /** Over any sequence of requests every record only takes an
      `EntryStep`: a hwid goes from `null` to a value at most once and is
      never replaced by another. */
  lemma {:induction false} RunEvolves(store: Store, reqs: seq<Request>)
    ensures Evolves(store, Run(store, reqs).final)
    decreases |reqs|
  {
    if |reqs| == 0 {
      EvolvesReflexive(store);
    } else {
      var mid := After(Check(store, reqs[0].key, reqs[0].hwid), store);
      CheckEvolves(store, reqs[0].key, reqs[0].hwid);
      RunEvolves(mid, reqs[1..]);
      EvolvesTransitive(store, mid, Run(mid, reqs[1..]).final);
    }
  }

  /** The reply a settled record (hwid not `null`) gives to a request that
      names it with hwid `h`. */
  function SettledReply(stored: Hwid, h: string): (r: Reason) {
    if stored == Bound(h) then Valid else HwidMismatch
  }

  /** A record whose hwid is not `null` is frozen: it is the same at the
      end of any sequence of requests, and every request naming it with a
      hwid gets `Valid` when that hwid is the bound one and `HwidMismatch`
      otherwise. */
  lemma {:induction false} SettledKeyIsFrozen(store: Store, reqs: seq<Request>, k: string)
    requires Known(store, k) && store[k].hwid != Null
    ensures Run(store, reqs).final[k] == store[k]
    ensures forall i :: 0 <= i < |reqs| && reqs[i].key == Given(k) && k != "" && Truthy(reqs[i].hwid) ==>
              Run(store, reqs).reasons[i] == SettledReply(store[k].hwid, reqs[i].hwid.text)
    decreases |reqs|
  {
    if |reqs| > 0 {
      var o := Check(store, reqs[0].key, reqs[0].hwid);
      var mid := After(o, store);
      SettledRecordUnchanged(store, reqs[0].key, reqs[0].hwid, k);
      SettledKeyIsFrozen(mid, reqs[1..], k);
      var t := Run(store, reqs);
      forall i | 0 <= i < |reqs| && reqs[i].key == Given(k) && k != "" && Truthy(reqs[i].hwid)
        ensures t.reasons[i] == SettledReply(store[k].hwid, reqs[i].hwid.text)
      {
        if i > 0 {
          assert reqs[1..][i - 1] == reqs[i];
        }
      }
    }
  }

  /** After a first bind of `k` to `h`, every later request naming `k` with
      `h` succeeds without a write, every one with another hwid fails, and
      the record ends bound to `h` with its other properties unchanged. */
  lemma {:induction false} FirstBindThenStable(store: Store, k: string, h: string, reqs: seq<Request>)
    requires k != "" && h != ""
    requires Known(store, k) && store[k].hwid == Null
    requires |reqs| > 0 && reqs[0] == Request(Given(k), Given(h))
    ensures Run(store, reqs).reasons[0] == FirstBind
    ensures forall i :: 1 <= i < |reqs| && reqs[i].key == Given(k) && Truthy(reqs[i].hwid) ==>
              Run(store, reqs).reasons[i] == (if reqs[i].hwid.text == h then Valid else HwidMismatch)
    ensures Run(store, reqs).final[k] == store[k].(hwid := Bound(h))
  {
    var mid := After(Check(store, Given(k), Given(h)), store);
    FirstBindChangesOneField(store, Given(k), Given(h));
    SettledKeyIsFrozen(mid, reqs[1..], k);
    var t := Run(store, reqs);
    var rest := Run(mid, reqs[1..]);
    forall i | 1 <= i < |reqs| && reqs[i].key == Given(k) && Truthy(reqs[i].hwid)
      ensures t.reasons[i] == (if reqs[i].hwid.text == h then Valid else HwidMismatch)
    {
      assert reqs[1..][i - 1] == reqs[i];
      assert t.reasons[i] == rest.reasons[i - 1];
    }
  }
}
