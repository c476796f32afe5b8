/**
 Sequences of requests served one after another against one table: the
 table invariant holds throughout, the key sequence never goes back, and a
 generated key is larger than every key any earlier create answered with,
 so keys are never reused even after deletes.
 */
module ControllerRuns {
  import opened UserTable
  import opened UserStore
  import opened UserController

  datatype Request =
    | ListAll
    | Read(id: Int32)
    | Create(ms: ModelState, body: User)
    | Replace(ms: ModelState, id: Int32, body: User)
    | Erase(id: Int32)

  /** Routes a request to its action. */
  function Handle(s: Store, req: Request): (o: Outcome)
    ensures Valid(s) ==> Valid(o.store)
    ensures s.lastId <= o.store.lastId
    ensures o.response.Created? ==> req.Create? && o.response.location <= o.store.lastId
    ensures o.response.Created? && req.body.id == UnsetId ==> o.response.location > s.lastId
  {
    match req
    case ListAll => GetAll(s)
    case Read(id) => Get(s, id)
    case Create(ms, body) => Post(s, ms, body)
    case Replace(ms, id, body) => Put(s, ms, id, body)
    case Erase(id) => Delete(s, id)
  }

  /** The tables seen by a run: `t[i]` is the table before request `i`, and
      the last element is the table after the whole run. */
  function Trace(s: Store, reqs: seq<Request>): (t: seq<Store>)
    ensures |t| == |reqs| + 1
    ensures t[0] == s
    ensures forall i :: 0 <= i < |reqs| ==> t[i + 1] == Handle(t[i], reqs[i]).store
    decreases |reqs|
  {
    if reqs == [] then [s]
    else [s] + Trace(Handle(s, reqs[0]).store, reqs[1..])
  }

  /** The response to request `i` of a run. */
  function ResponseAt(s: Store, reqs: seq<Request>, i: nat): Response
    requires i < |reqs|
  {
    Handle(Trace(s, reqs)[i], reqs[i]).response
  }

  /** Every table a run goes through satisfies the table invariant. */
  lemma {:induction false} TraceValid(s: Store, reqs: seq<Request>, i: nat)
    requires Valid(s)
    requires i <= |reqs|
    ensures Valid(Trace(s, reqs)[i])
    decreases i
  {
    if i > 0 {
      TraceValid(s, reqs, i - 1);
    }
  }

  /** The key sequence never goes back over a run. */
  lemma {:induction false} TraceLastIdMonotone(s: Store, reqs: seq<Request>, i: nat, j: nat)
    requires i <= j <= |reqs|
    ensures Trace(s, reqs)[i].lastId <= Trace(s, reqs)[j].lastId
    decreases j - i
  {
    if i < j {
      TraceLastIdMonotone(s, reqs, i, j - 1);
    }
  }

  /** A create that lets the store pick the key answers with a key larger
      than the key of every earlier create in the run, whether or not that
      earlier record still exists. */
  lemma GeneratedKeysIncrease(s: Store, reqs: seq<Request>, i: nat, j: nat)
    requires i < j < |reqs|
    requires ResponseAt(s, reqs, i).Created?
    requires reqs[j].Create? && reqs[j].body.id == UnsetId
    requires ResponseAt(s, reqs, j).Created?
    ensures ResponseAt(s, reqs, i).location < ResponseAt(s, reqs, j).location
  {
    var t := Trace(s, reqs);
    TraceLastIdMonotone(s, reqs, i + 1, j);
    assert ResponseAt(s, reqs, i).location <= t[i + 1].lastId;
  }

  /** A generated key is not the key of any record in the table at the
      time, nor of any record ever stored before it. */
  lemma GeneratedKeyFresh(s: Store, reqs: seq<Request>, i: nat, j: nat, k: Int32)
    requires Valid(s)
    requires i <= j < |reqs|
    requires k in Trace(s, reqs)[i].rows
    requires reqs[j].Create? && reqs[j].body.id == UnsetId
    requires ResponseAt(s, reqs, j).Created?
    ensures k < ResponseAt(s, reqs, j).location
  {
    TraceValid(s, reqs, i);
    TraceLastIdMonotone(s, reqs, i, j);
  }
}
