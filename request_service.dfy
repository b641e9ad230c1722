/**
 * The request service: the karma-point lifecycle of a help request. Creating
 * a request pays its credits out of the requester's balance, accepting it
 * names a helper, completing it pays the credits to that helper, and
 * cancelling it pays them back to the requester. Each step logs activity.
 */
module RequestSvc {
  import opened Wrappers
  import opened Errors
  import opened UserModel
  import opened RequestModel
  import opened ActivityModel
  import opened Queries
  import opened UserRepo
  import opened RequestRepo
  import opened ActivityRepo
  import opened UserSvc
  import opened Ledger

  /** The activity texts the service writes, each naming the request's title. */
  function CreatedText(title: string): string { "Created request: " + title }
  function AcceptedText(title: string): string { "Accepted request: " + title }
  function HelpedText(title: string): string { "Helped with: " + title }
  function CompletedText(title: string): string { "Completed request: " + title }

  /**
   * What the service's operations keep true of every stored request: an open
   * request has no helper, one in progress or completed has one, only a
   * completed request carries a completion time, and nobody helps themself.
   */
  predicate Lifecycle(q: Request) {
    && (q.status == Open ==> q.helper.None?)
    && (q.status == InProgress || q.status == Completed ==> q.helper.Some?)
    && (q.completedAt.Some? <==> q.status == Completed)
    && (q.helper.Some? ==> q.helper.value != q.requester)
  }

  /**
   * The helper as the populated lookup sees it: set, and naming a stored
   * user (a dangling reference populates as null).
   */
  predicate HelperResolves(q: Request, users: seq<User>) {
    q.helper.Some? && q.helper.value < |users|
  }

  class RequestService {
    const userService: UserService
    const requestRepo: RequestRepository
    const activityRepo: ActivityRepository

    function Users(): seq<User>
      reads userService.repo
    {
      userService.repo.users
    }

    function Requests(): seq<Request>
      reads requestRepo
    {
      requestRepo.requests
    }

    function Activities(): seq<Activity>
      reads activityRepo
    {
      activityRepo.log
    }

    /** Every store is well formed; every request has a stored requester and keeps `Lifecycle`. */
    ghost predicate Valid()
      reads userService.repo, requestRepo, activityRepo
    {
      && userService.repo.Valid() && requestRepo.Valid() && activityRepo.Valid()
      && forall i :: 0 <= i < |requestRepo.requests| ==>
           requestRepo.requests[i].requester < |userService.repo.users| && Lifecycle(requestRepo.requests[i])
    }

    constructor ()
      ensures Valid() && Users() == [] && Requests() == [] && Activities() == []
    {
      var users := new UserRepository();
      userService := new UserService(users);
      requestRepo := new RequestRepository();
      activityRepo := new ActivityRepository();
    }

    /** `getRequestById`: the stored request with that id, or none. */
    function GetRequestById(id: RequestId): (r: Option<Request>)
      reads requestRepo
      requires requestRepo.Valid()
      ensures r.Some? <==> id < |Requests()|
      ensures r.Some? ==> r.value == Requests()[id] && r.value.id == id
    {
      requestRepo.FindById(id)
    }

    /**
     * `createRequest`: refused for an unknown requester, then for a balance
     * below the credits offered, then by the request schema; otherwise the
     * request is stored open, its credits leave the requester's balance, and a
     * `request_created` entry is logged. Points in circulation are conserved.
     */
    method CreateRequest(data: RequestCreate, now: nat) returns (r: Result<Request, Error>)
      requires Valid()
      modifies userService.repo, requestRepo, activityRepo
      ensures Valid()
      ensures data.requester >= |old(Users())| ==> r == Err(UserNotFound)
      ensures data.requester < |old(Users())| && old(Users())[data.requester].karmaPoints < data.helpCredits ==>
        r == Err(InsufficientKarma)
      ensures (&& data.requester < |old(Users())| && old(Users())[data.requester].karmaPoints >= data.helpCredits
               && !RequestSchemaValid(NewRequest(|old(Requests())|, data, now))) ==>
        r == Err(ValidationFailed)
      ensures r.Ok? <==>
        && data.requester < |old(Users())| && old(Users())[data.requester].karmaPoints >= data.helpCredits
        && RequestSchemaValid(NewRequest(|old(Requests())|, data, now))
      ensures r.Err? ==> Users() == old(Users()) && Requests() == old(Requests()) && Activities() == old(Activities())
      ensures r.Ok? ==>
        && data.requester < |old(Users())|
        && r.value == NewRequest(|old(Requests())|, data, now)
        && Requests() == old(Requests()) + [r.value]
        && Users() == old(Users())[data.requester := Adjust(old(Users())[data.requester], -data.helpCredits)]
        && Activities() == old(Activities()) +
             [Activity(|old(Activities())|, data.requester, RequestCreated, CreatedText(data.title), Some(r.value.id), 0, now)]
      ensures Supply(Users(), Requests()) == old(Supply(Users(), Requests()))
    {
      var user := userService.GetUserById(data.requester);
      if user.None? {
        return Err(UserNotFound);
      }
      if user.value.karmaPoints < data.helpCredits {
        return Err(InsufficientKarma);
      }
      var created := requestRepo.Create(data, now);
      if created.Err? {
        return Err(created.error);
      }
      var request := created.value;
      Debit(request, now);
      r := Ok(request);
      TotalKarmaAdjust(old(Users()), data.requester, -data.helpCredits);
      EscrowChange(old(Requests()), |old(Requests())|, request);
    }

    /**
     * The paying half of `createRequest`: the credits of a stored request
     * leave its requester's balance and a `request_created` entry is logged.
     * Requests are not touched.
     */
    method Debit(q: Request, now: nat)
      requires userService.repo.Valid() && activityRepo.Valid()
      requires q.requester < |Users()| && 0 < |q.title| <= MaxTitle
      modifies userService.repo, activityRepo
      ensures userService.repo.Valid() && activityRepo.Valid()
      ensures Users() == old(Users())[q.requester := Adjust(old(Users())[q.requester], -q.helpCredits)]
      ensures Activities() == old(Activities()) +
        [Activity(|old(Activities())|, q.requester, RequestCreated, CreatedText(q.title), Some(q.id), 0, now)]
    {
      var debited := userService.UpdateHelpScore(q.requester, -q.helpCredits);
      var logged := activityRepo.Create(
        ActivityCreate(q.requester, RequestCreated, CreatedText(q.title), Some(q.id), Some(0)), now);
    }

    /** `getOpenRequests`: exactly the open requests, each once, newest first; the college narrows nothing. */
    function GetOpenRequests(college: Option<string>): (r: seq<Request>)
      reads requestRepo
      ensures forall q :: q in r <==> q in Requests() && q.status == Open
      ensures SortedDesc(r, RequestRepo.CreatedAtOf)
      ensures forall q :: multiset(r)[q] == if q.status == Open then multiset(Requests())[q] else 0
    {
      requestRepo.FindOpenRequests()
    }

    /** `getUserRequests`: exactly the requests that user made, each once, newest first. */
    function GetUserRequests(user: UserId): (r: seq<Request>)
      reads requestRepo
      ensures forall q :: q in r <==> q in Requests() && q.requester == user
      ensures SortedDesc(r, RequestRepo.CreatedAtOf)
      ensures forall q :: multiset(r)[q] == if q.requester == user then multiset(Requests())[q] else 0
    {
      requestRepo.FindByRequester(user)
    }

    /** `getUserHelpedRequests`: exactly the requests that user accepted, each once, newest first. */
    function GetUserHelpedRequests(user: UserId): (r: seq<Request>)
      reads requestRepo
      ensures forall q :: q in r <==> q in Requests() && q.helper == Some(user)
      ensures SortedDesc(r, RequestRepo.CreatedAtOf)
      ensures forall q :: multiset(r)[q] == if q.helper == Some(user) then multiset(Requests())[q] else 0
    {
      requestRepo.FindByHelper(user)
    }

    /**
     * `acceptRequest`: refused for an unknown request, then for one that is
     * not open, then for its own requester; otherwise the helper is recorded,
     * the request moves to in progress and the helper gets a
     * `request_accepted` entry. No balance changes; the helper need not be a
     * stored user.
     */
    method AcceptRequest(id: RequestId, helperId: UserId, now: nat) returns (r: Result<Request, Error>)
      requires Valid()
      modifies requestRepo, activityRepo
      ensures Valid()
      ensures id >= |old(Requests())| ==> r == Err(RequestNotFound)
      ensures id < |old(Requests())| && old(Requests())[id].status != Open ==> r == Err(RequestNotOpen)
      ensures id < |old(Requests())| && old(Requests())[id].status == Open && old(Requests())[id].requester == helperId ==>
        r == Err(CannotAcceptOwnRequest)
      ensures r.Ok? <==>
        id < |old(Requests())| && old(Requests())[id].status == Open && old(Requests())[id].requester != helperId
      ensures r.Err? ==> Requests() == old(Requests()) && Activities() == old(Activities())
      ensures r.Ok? ==>
        && id < |old(Requests())|
        && r.value == old(Requests())[id].(helper := Some(helperId), status := InProgress)
        && Requests() == old(Requests())[id := r.value]
        && Activities() == old(Activities()) +
             [Activity(|old(Activities())|, helperId, RequestAccepted, AcceptedText(r.value.title), Some(id), 0, now)]
      ensures Supply(Users(), Requests()) == old(Supply(Users(), Requests()))
    {
      var request := requestRepo.FindById(id);
      if request.None? {
        return Err(RequestNotFound);
      }
      var q := request.value;
      if q.status != Open {
        return Err(RequestNotOpen);
      }
      if q.requester == helperId {
        return Err(CannotAcceptOwnRequest);
      }
      var updated := requestRepo.AcceptRequest(id, helperId);
      var logged := activityRepo.Create(
        ActivityCreate(helperId, RequestAccepted, AcceptedText(q.title), Some(id), Some(0)), now);
      r := Ok(updated.value);
      EscrowChange(old(Requests()), id, updated.value);
    }

    /**
     * `completeRequest`: refused for an unknown request, then for one not in
     * progress, then for anyone but its requester; otherwise the request is
     * completed at `now`. A helper that resolves to a stored user is paid the
     * credits and gets a `help_provided` entry; the requester always gets a
     * `request_completed` entry. Credits owed to a dangling helper leave
     * circulation.
     */
    method CompleteRequest(id: RequestId, callerId: UserId, now: nat) returns (r: Result<Request, Error>)
      requires Valid()
      modifies userService.repo, requestRepo, activityRepo
      ensures Valid()
      ensures id >= |old(Requests())| ==> r == Err(RequestNotFound)
      ensures id < |old(Requests())| && old(Requests())[id].status != InProgress ==> r == Err(RequestNotInProgress)
      ensures id < |old(Requests())| && old(Requests())[id].status == InProgress && old(Requests())[id].requester != callerId ==>
        r == Err(OnlyRequesterCanComplete)
      ensures r.Ok? <==>
        id < |old(Requests())| && old(Requests())[id].status == InProgress && old(Requests())[id].requester == callerId
      ensures r.Err? ==> Users() == old(Users()) && Requests() == old(Requests()) && Activities() == old(Activities())
      ensures r.Ok? ==>
        && id < |old(Requests())| && callerId < |old(Users())|
        && var q := old(Requests())[id];
        && q.helper.Some?
        && r.value == q.(status := Completed, completedAt := Some(now))
        && Requests() == old(Requests())[id := r.value]
        && |Users()| == |old(Users())| && Users()[callerId] == old(Users())[callerId]
        && (HelperResolves(q, old(Users())) ==>
              && Users() == old(Users())[q.helper.value := Adjust(old(Users())[q.helper.value], q.helpCredits)]
              && Activities() == old(Activities()) +
                   [Activity(|old(Activities())|, q.helper.value, HelpProvided, HelpedText(q.title), Some(id), q.helpCredits, now),
                    Activity(|old(Activities())| + 1, callerId, RequestCompleted, CompletedText(q.title), Some(id), 0, now)])
        && (!HelperResolves(q, old(Users())) ==>
              && Users() == old(Users())
              && Activities() == old(Activities()) +
                   [Activity(|old(Activities())|, callerId, RequestCompleted, CompletedText(q.title), Some(id), 0, now)])
        && Supply(Users(), Requests()) ==
             old(Supply(Users(), Requests())) - (if HelperResolves(q, old(Users())) then 0 else q.helpCredits)
    {
      var request := requestRepo.FindById(id);
      if request.None? {
        return Err(RequestNotFound);
      }
      var q := request.value;
      if q.status != InProgress {
        return Err(RequestNotInProgress);
      }
      if q.requester != callerId {
        return Err(OnlyRequesterCanComplete);
      }
      var updated := requestRepo.CompleteRequest(id, now);
      EscrowChange(old(Requests()), id, updated.value);
      Settle(q, callerId, now);
      if HelperResolves(q, old(Users())) {
        TotalKarmaAdjust(old(Users()), q.helper.value, q.helpCredits);
      }
      r := Ok(updated.value);
    }

    /**
     * The paying half of `completeRequest`: when the helper reference resolves
     * (the populated lookup finds a user) the helper is credited and a
     * `help_provided` entry is logged; the completion is then logged for the
     * requester. Requests are not touched.
     */
    method Settle(q: Request, callerId: UserId, now: nat)
      requires userService.repo.Valid() && activityRepo.Valid()
      requires 0 < |q.title| <= MaxTitle
      modifies userService.repo, activityRepo
      ensures userService.repo.Valid() && activityRepo.Valid()
      ensures HelperResolves(q, old(Users())) ==>
        && Users() == old(Users())[q.helper.value := Adjust(old(Users())[q.helper.value], q.helpCredits)]
        && Activities() == old(Activities()) +
             [Activity(|old(Activities())|, q.helper.value, HelpProvided, HelpedText(q.title), Some(q.id), q.helpCredits, now),
              Activity(|old(Activities())| + 1, callerId, RequestCompleted, CompletedText(q.title), Some(q.id), 0, now)]
      ensures !HelperResolves(q, old(Users())) ==>
        && Users() == old(Users())
        && Activities() == old(Activities()) +
             [Activity(|old(Activities())|, callerId, RequestCompleted, CompletedText(q.title), Some(q.id), 0, now)]
    {
      // the lookup populates the helper reference, or yields none for a dangling one
      var helper := if q.helper.Some? then userService.GetUserById(q.helper.value) else None;
      if helper.Some? {
        var h := q.helper.value;
        var paid := userService.UpdateHelpScore(h, q.helpCredits);
        var helped := activityRepo.Create(
          ActivityCreate(h, HelpProvided, HelpedText(q.title), Some(q.id), Some(q.helpCredits)), now);
      }
      var logged := activityRepo.Create(
        ActivityCreate(callerId, RequestCompleted, CompletedText(q.title), Some(q.id), Some(0)), now);
    }

    /**
     * `cancelRequest`: refused for an unknown request, then for anyone but its
     * requester, then for a completed request; otherwise the credits go back
     * to the requester and the status becomes cancelled. The helper is kept
     * and nothing is logged. A request that was already cancelled is refunded
     * again, which puts new points into circulation.
     */
    method CancelRequest(id: RequestId, callerId: UserId) returns (r: Result<Request, Error>)
      requires Valid()
      modifies userService.repo, requestRepo
      ensures Valid()
      ensures id >= |old(Requests())| ==> r == Err(RequestNotFound)
      ensures id < |old(Requests())| && old(Requests())[id].requester != callerId ==> r == Err(OnlyRequesterCanCancel)
      ensures id < |old(Requests())| && old(Requests())[id].requester == callerId && old(Requests())[id].status == Completed ==>
        r == Err(CannotCancelCompleted)
      ensures r.Ok? <==>
        id < |old(Requests())| && old(Requests())[id].requester == callerId && old(Requests())[id].status != Completed
      ensures r.Err? ==> Users() == old(Users()) && Requests() == old(Requests())
      ensures r.Ok? ==>
        && id < |old(Requests())| && callerId < |old(Users())|
        && var q := old(Requests())[id];
        && r.value == q.(status := Cancelled)
        && Requests() == old(Requests())[id := r.value]
        && Users() == old(Users())[callerId := Adjust(old(Users())[callerId], q.helpCredits)]
        && Supply(Users(), Requests()) ==
             old(Supply(Users(), Requests())) + (if q.status == Cancelled then q.helpCredits else 0)
    {
      var request := requestRepo.FindById(id);
      if request.None? {
        return Err(RequestNotFound);
      }
      var q := request.value;
      if q.requester != callerId {
        return Err(OnlyRequesterCanCancel);
      }
      if q.status == Completed {
        return Err(CannotCancelCompleted);
      }
      var refunded := userService.UpdateHelpScore(callerId, q.helpCredits);
      var updated := requestRepo.CancelRequest(id);
      r := Ok(updated.value);
      TotalKarmaAdjust(old(Users()), callerId, q.helpCredits);
      EscrowChange(old(Requests()), id, updated.value);
    }

    /**
     * `cancelRequest` as evidently intended: a request that is already
     * cancelled is refused too, so credits are refunded at most once and
     * points in circulation are conserved.
     */
    method CancelRequestOnce(id: RequestId, callerId: UserId) returns (r: Result<Request, Error>)
      requires Valid()
      modifies userService.repo, requestRepo
      ensures Valid()
      ensures id >= |old(Requests())| ==> r == Err(RequestNotFound)
      ensures id < |old(Requests())| && old(Requests())[id].requester != callerId ==> r == Err(OnlyRequesterCanCancel)
      ensures id < |old(Requests())| && old(Requests())[id].requester == callerId && old(Requests())[id].status == Completed ==>
        r == Err(CannotCancelCompleted)
      ensures id < |old(Requests())| && old(Requests())[id].requester == callerId && old(Requests())[id].status == Cancelled ==>
        r == Err(AlreadyCancelled)
      ensures r.Ok? <==>
        && id < |old(Requests())| && old(Requests())[id].requester == callerId
        && (old(Requests())[id].status == Open || old(Requests())[id].status == InProgress)
      ensures r.Err? ==> Users() == old(Users()) && Requests() == old(Requests())
      ensures r.Ok? ==>
        && id < |old(Requests())| && callerId < |old(Users())|
        && var q := old(Requests())[id];
        && r.value == q.(status := Cancelled)
        && Requests() == old(Requests())[id := r.value]
        && Users() == old(Users())[callerId := Adjust(old(Users())[callerId], q.helpCredits)]
      ensures Supply(Users(), Requests()) == old(Supply(Users(), Requests()))
    {
      var request := requestRepo.FindById(id);
      if request.None? {
        return Err(RequestNotFound);
      }
      var q := request.value;
      if q.requester != callerId {
        return Err(OnlyRequesterCanCancel);
      }
      if q.status == Completed {
        return Err(CannotCancelCompleted);
      }
      if q.status == Cancelled {
        return Err(AlreadyCancelled);
      }
      var refunded := userService.UpdateHelpScore(callerId, q.helpCredits);
      var updated := requestRepo.CancelRequest(id);
      r := Ok(updated.value);
      TotalKarmaAdjust(old(Users()), callerId, q.helpCredits);
      EscrowChange(old(Requests()), id, updated.value);
    }
  }

  /**
   * The state change `cancelRequest` makes, as written, on a request that is
   * already cancelled: its requester is refunded again while the request
   * held nothing, so points in circulation grow by the credits.
   */
  lemma RecancelMints(users: seq<User>, requests: seq<Request>, id: RequestId)
    requires id < |requests| && requests[id].status == Cancelled
    requires requests[id].requester < |users| && MinCredits <= requests[id].helpCredits
    ensures
      var q := requests[id];
      Supply(users[q.requester := Adjust(users[q.requester], q.helpCredits)], requests[id := q.(status := Cancelled)])
        == Supply(users, requests) + q.helpCredits
    ensures
      var q := requests[id];
      Supply(users[q.requester := Adjust(users[q.requester], q.helpCredits)], requests[id := q.(status := Cancelled)])
        > Supply(users, requests)
  {
    var q := requests[id];
    TotalKarmaAdjust(users, q.requester, q.helpCredits);
    EscrowChange(requests, id, q.(status := Cancelled));
  }

  /**
   * The same state change on a request that still holds its credits (open or
   * in progress), the only case the corrected cancel allows: the refund
   * equals what the request held, so points in circulation are conserved.
   */
  lemma CancelOnceConserves(users: seq<User>, requests: seq<Request>, id: RequestId)
    requires id < |requests| && (requests[id].status == Open || requests[id].status == InProgress)
    requires requests[id].requester < |users|
    ensures
      var q := requests[id];
      Supply(users[q.requester := Adjust(users[q.requester], q.helpCredits)], requests[id := q.(status := Cancelled)])
        == Supply(users, requests)
  {
    var q := requests[id];
    TotalKarmaAdjust(users, q.requester, q.helpCredits);
    EscrowChange(requests, id, q.(status := Cancelled));
  }
}
