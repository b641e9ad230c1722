/**
 * The request table. A request's id is its position: ids are handed out in
 * order and requests are never deleted (cancelling is a status).
 */
module RequestRepo {
  import opened Wrappers
  import opened Errors
  import opened UserModel
  import opened RequestModel
  import opened Queries

  /** Key of the newest-first order. */
  function CreatedAtOf(r: Request): int {
    r.createdAt
  }

  class RequestRepository {
    var requests: seq<Request>

    ghost predicate Valid()
      reads this
    {
      forall i :: 0 <= i < |requests| ==> requests[i].id == i && RequestSchemaValid(requests[i])
    }

    constructor ()
      ensures Valid() && requests == []
    {
      requests := [];
    }

    /** `findById`: the stored request with that id, or none for an unknown id. */
    function FindById(id: RequestId): (r: Option<Request>)
      reads this
      requires Valid()
      ensures r.Some? ==> r.value in requests && r.value.id == id
      ensures r.None? ==> forall q :: q in requests ==> q.id != id
      ensures r.Some? <==> id < |requests|
      ensures r.Some? ==> r.value == requests[id]
    {
      if id < |requests| then Some(requests[id]) else None
    }

    /**
     * `create`: the new document takes the schema defaults (status `open`, no
     * helper); a document the schema rejects is not stored.
     */
    method Create(data: RequestCreate, now: nat) returns (r: Result<Request, Error>)
      requires Valid()
      modifies this
      ensures Valid()
      ensures !RequestSchemaValid(NewRequest(|old(requests)|, data, now)) ==>
        r == Err(ValidationFailed) && requests == old(requests)
      ensures RequestSchemaValid(NewRequest(|old(requests)|, data, now)) ==>
        r == Ok(NewRequest(|old(requests)|, data, now)) && requests == old(requests) + [r.value]
    {
      var q := NewRequest(|requests|, data, now);
      if !RequestSchemaValid(q) {
        return Err(ValidationFailed);
      }
      requests := requests + [q];
      r := Ok(q);
    }

    /** `acceptRequest`: sets `helper` and status `in_progress`, whatever the current status. */
    method AcceptRequest(id: RequestId, helper: UserId) returns (r: Option<Request>)
      requires Valid()
      modifies this
      ensures Valid()
      ensures id >= |old(requests)| ==> r.None? && requests == old(requests)
      ensures id < |old(requests)| ==>
        && r == Some(old(requests)[id].(helper := Some(helper), status := InProgress))
        && requests == old(requests)[id := r.value]
    {
      if id >= |requests| {
        return None;
      }
      var q := requests[id].(helper := Some(helper), status := InProgress);
      requests := requests[id := q];
      r := Some(q);
    }

    /** `completeRequest`: sets status `completed` and stamps `completedAt`. */
    method CompleteRequest(id: RequestId, now: nat) returns (r: Option<Request>)
      requires Valid()
      modifies this
      ensures Valid()
      ensures id >= |old(requests)| ==> r.None? && requests == old(requests)
      ensures id < |old(requests)| ==>
        && r == Some(old(requests)[id].(status := Completed, completedAt := Some(now)))
        && requests == old(requests)[id := r.value]
    {
      if id >= |requests| {
        return None;
      }
      var q := requests[id].(status := Completed, completedAt := Some(now));
      requests := requests[id := q];
      r := Some(q);
    }

    /** `cancelRequest`: sets status `cancelled` only; `helper` and `completedAt` are kept. */
    method CancelRequest(id: RequestId) returns (r: Option<Request>)
      requires Valid()
      modifies this
      ensures Valid()
      ensures id >= |old(requests)| ==> r.None? && requests == old(requests)
      ensures id < |old(requests)| ==>
        && r == Some(old(requests)[id].(status := Cancelled))
        && requests == old(requests)[id := r.value]
    {
      if id >= |requests| {
        return None;
      }
      var q := requests[id].(status := Cancelled);
      requests := requests[id := q];
      r := Some(q);
    }

    /** `findOpenRequests`: exactly the open requests, each once, newest first. */
    function FindOpenRequests(): (r: seq<Request>)
      reads this
      ensures forall q :: q in r <==> q in requests && q.status == Open
      ensures SortedDesc(r, CreatedAtOf)
      ensures forall q :: multiset(r)[q] == if q.status == Open then multiset(requests)[q] else 0
    {
      Page(requests, (q: Request) => q.status == Open, CreatedAtOf, 0)
    }

    /** `findByRequester`: exactly the requests made by that user, each once, newest first. */
    function FindByRequester(requester: UserId): (r: seq<Request>)
      reads this
      ensures forall q :: q in r <==> q in requests && q.requester == requester
      ensures SortedDesc(r, CreatedAtOf)
      ensures forall q :: multiset(r)[q] == if q.requester == requester then multiset(requests)[q] else 0
    {
      Page(requests, (q: Request) => q.requester == requester, CreatedAtOf, 0)
    }

    /** `findByHelper`: exactly the requests that user accepted, each once, newest first. */
    function FindByHelper(helper: UserId): (r: seq<Request>)
      reads this
      ensures forall q :: q in r <==> q in requests && q.helper == Some(helper)
      ensures SortedDesc(r, CreatedAtOf)
      ensures forall q :: multiset(r)[q] == if q.helper == Some(helper) then multiset(requests)[q] else 0
    {
      Page(requests, (q: Request) => q.helper == Some(helper), CreatedAtOf, 0)
    }

    /** Ids are positions, so no request is stored twice. */
    lemma StoredDistinct()
      requires Valid()
      ensures Distinct(requests)
    {
      forall i, j | 0 <= i < j < |requests| ensures requests[i] != requests[j] {
        assert requests[i].id != requests[j].id;
      }
    }

    /** No query returns a request twice. */
    lemma QueriesDistinct(user: UserId)
      requires Valid()
      ensures Distinct(FindOpenRequests()) && Distinct(FindByRequester(user)) && Distinct(FindByHelper(user))
    {
      StoredDistinct();
      SubDistinct(FindOpenRequests(), requests);
      SubDistinct(FindByRequester(user), requests);
      SubDistinct(FindByHelper(user), requests);
    }
  }
}
