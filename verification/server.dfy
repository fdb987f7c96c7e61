/**
 The server as a whole: one request at a time against the single store, and
 what holds over any sequence of requests starting from a valid store.
 */
module Server {
  import opened Seqs
  import opened Store
  import opened Handlers

  /** The record routes, with the path id already parsed to an integer. */
  datatype Request =
    | ListAll                          // GET /api/students
    | GetOne(id: int)                  // GET /api/students/:id
    | CreateOne(body: Body)            // POST /api/students
    | UpdateOne(id: int, body: Body)   // PUT /api/students/:id
    | DeleteOne(id: int)               // DELETE /api/students/:id
    | SearchFor(query: string)         // GET /api/students/search/:query

  /**
   A PUT of a present id whose body lacks a field makes the handler throw once
   it uses the fields; such requests are not modelled. A PUT of an absent id
   answers 404 before the fields are used, so any body is admissible for it.
   */
  ghost predicate Admissible(st: Store, req: Request) {
    req.UpdateOne? && HasId(st.students, req.id) ==> Complete(req.body)
  }

  /** Dispatches one request to its handler. */
  function Handle(st: Store, req: Request): (out: Outcome)
    requires Admissible(st, req)
    ensures Valid(st) ==> Valid(out.store)
    ensures out.reply.Created? <==> req.CreateOne? && HasRequiredFields(req.body)
    ensures out.reply.Created? ==> out.reply.student.id == st.nextId && out.store.nextId == st.nextId + 1
    ensures !out.reply.Created? ==> out.store.nextId == st.nextId
    ensures req.ListAll? || req.GetOne? || req.SearchFor? ==> out.store == st
  {
    match req
    case ListAll => Outcome(List(st), st)
    case GetOne(id) => Outcome(Get(st, id), st)
    case CreateOne(b) => Create(st, b)
    case UpdateOne(id, b) => Update(st, id, b)
    case DeleteOne(id) => Delete(st, id)
    case SearchFor(q) => Outcome(Listed(Search(st, q)), st)
  }

  /** Each request of the sequence is admissible in the store the ones before it leave. */
  ghost predicate AllAdmissible(st: Store, reqs: seq<Request>)
    decreases |reqs|
  {
    reqs == [] || (Admissible(st, reqs[0]) && AllAdmissible(Handle(st, reqs[0]).store, reqs[1..]))
  }

  /** Serves the requests in order; entry `k` is the reply to request `k` and the store after it. */
  function Run(st: Store, reqs: seq<Request>): (trace: seq<Outcome>)
    requires AllAdmissible(st, reqs)
    ensures |trace| == |reqs|
    ensures reqs != [] ==> trace[0] == Handle(st, reqs[0])
    decreases |reqs|
  {
    if reqs == [] then []
    else
      var out := Handle(st, reqs[0]);
      [out] + Run(out.store, reqs[1..])
  }

  /** Unfolds one step of a run: entry `k + 1` of the run is entry `k` of the run from the first outcome. */
  lemma RunTail(st: Store, reqs: seq<Request>, k: int)
    requires AllAdmissible(st, reqs) && 0 <= k < |reqs| - 1
    ensures Admissible(st, reqs[0]) && AllAdmissible(Handle(st, reqs[0]).store, reqs[1..])
    ensures Run(st, reqs)[k + 1] == Run(Handle(st, reqs[0]).store, reqs[1..])[k]
  {
    assert Admissible(st, reqs[0]);
    var out := Handle(st, reqs[0]);
    var rest := Run(out.store, reqs[1..]);
    assert Run(st, reqs) == [out] + rest;
    ConsIndex(out, rest, k);
  }

  /** Every store along a run is valid when the first one is. */
  lemma {:induction false} RunKeepsValid(st: Store, reqs: seq<Request>)
    requires AllAdmissible(st, reqs) && Valid(st)
    ensures forall k :: 0 <= k < |reqs| ==> Valid(Run(st, reqs)[k].store)
    decreases |reqs|
  {
    if reqs != [] {
      var out := Handle(st, reqs[0]);
      RunKeepsValid(out.store, reqs[1..]);
      forall k | 1 <= k < |reqs| ensures Valid(Run(st, reqs)[k].store) {
        RunTail(st, reqs, k - 1);
      }
    }
  }

  /** The counter in `out` is at least `n`, and a record created in `out` got an id from `n` up to that counter. */
  predicate CountsFrom(n: int, out: Outcome) {
    && n <= out.store.nextId
    && (out.reply.Created? ==> n <= out.reply.student.id < out.store.nextId)
  }

  /** The counter after request `k` of a run is at least the starting one, and a record created by it got an id in between. */
  lemma {:induction false} RunCounterAt(st: Store, reqs: seq<Request>, k: int)
    requires AllAdmissible(st, reqs) && 0 <= k < |reqs|
    ensures CountsFrom(st.nextId, Run(st, reqs)[k])
    decreases k
  {
    assert Admissible(st, reqs[0]);
    var out := Handle(st, reqs[0]);
    assert CountsFrom(st.nextId, out);
    if k == 0 {
      assert Run(st, reqs)[0] == out;
    } else {
      var here := Run(out.store, reqs[1..])[k - 1];
      assert Run(st, reqs)[k] == here by {
        RunTail(st, reqs, k - 1);
      }
      assert CountsFrom(out.store.nextId, here) by {
        RunTail(st, reqs, k - 1);
        RunCounterAt(out.store, reqs[1..], k - 1);
      }
    }
  }

  /** The counter never goes down, and each created id lies between the starting counter and the counter after it. */
  lemma RunCounterGrows(st: Store, reqs: seq<Request>)
    requires AllAdmissible(st, reqs)
    ensures forall k :: 0 <= k < |reqs| ==> st.nextId <= Run(st, reqs)[k].store.nextId
    ensures forall k :: 0 <= k < |reqs| && Run(st, reqs)[k].reply.Created? ==>
              st.nextId <= Run(st, reqs)[k].reply.student.id < Run(st, reqs)[k].store.nextId
  {
    forall k | 0 <= k < |reqs|
      ensures st.nextId <= Run(st, reqs)[k].store.nextId
      ensures Run(st, reqs)[k].reply.Created? ==>
                st.nextId <= Run(st, reqs)[k].reply.student.id < Run(st, reqs)[k].store.nextId
    {
      RunCounterAt(st, reqs, k);
    }
  }

  /** Ids handed out by successive creates strictly increase, so no two creates share an id. */
  lemma {:induction false} CreatedIdsIncrease(st: Store, reqs: seq<Request>)
    requires AllAdmissible(st, reqs)
    ensures forall k, l :: 0 <= k < l < |reqs| && Run(st, reqs)[k].reply.Created? && Run(st, reqs)[l].reply.Created? ==>
              Run(st, reqs)[k].reply.student.id < Run(st, reqs)[l].reply.student.id
    decreases |reqs|
  {
    if reqs != [] {
      var out := Handle(st, reqs[0]);
      var tail := Run(out.store, reqs[1..]);
      var trace := Run(st, reqs);
      CreatedIdsIncrease(out.store, reqs[1..]);
      RunCounterGrows(out.store, reqs[1..]);
      forall k, l | 0 <= k < l < |reqs| && trace[k].reply.Created? && trace[l].reply.Created?
        ensures trace[k].reply.student.id < trace[l].reply.student.id
      {
        RunTail(st, reqs, l - 1);
        if k > 0 {
          RunTail(st, reqs, k - 1);
        }
      }
    }
  }

  /** An id present in a valid store is never issued again by a later create, even after it is deleted. */
  lemma IdsNeverReissued(st: Store, reqs: seq<Request>, id: int)
    requires AllAdmissible(st, reqs) && Valid(st) && HasId(st.students, id)
    ensures forall k :: 0 <= k < |reqs| && Run(st, reqs)[k].reply.Created? ==> Run(st, reqs)[k].reply.student.id != id
  {
    RunCounterGrows(st, reqs);
  }
}
