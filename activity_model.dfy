/** The Activity document: an entry of the append-only log. */
module ActivityModel {
  import opened Wrappers
  import opened UserModel
  import opened RequestModel
  import opened Lengths

  datatype ActivityType = RequestCreated | RequestAccepted | RequestCompleted | HelpProvided | KarmaEarned

  datatype Activity = Activity(
    id: nat,
    user: UserId,
    kind: ActivityType,
    description: string,
    relatedRequest: Option<RequestId>,
    pointsEarned: int,
    createdAt: nat)

  /** The fields an entry is created from; `pointsEarned` may be left out. */
  datatype ActivityCreate = ActivityCreate(
    user: UserId,
    kind: ActivityType,
    description: string,
    relatedRequest: Option<RequestId>,
    pointsEarned: Option<int>)

  const MaxActivityDescription := 500

  /** What `save()` checks: the description is present and at most 500 UTF-16 code units long. */
  predicate ActivitySchemaValid(a: Activity) {
    0 < |a.description| && Utf16Len(a.description) <= MaxActivityDescription
  }

  /** A new entry: `pointsEarned` defaults to 0. */
  function NewActivity(id: nat, data: ActivityCreate, now: nat): (a: Activity)
    ensures a.pointsEarned == if data.pointsEarned.Some? then data.pointsEarned.value else 0
    ensures a.id == id && a.createdAt == now && a.user == data.user && a.kind == data.kind
    ensures a.description == data.description && a.relatedRequest == data.relatedRequest
  {
    Activity(id, data.user, data.kind, data.description, data.relatedRequest,
             if data.pointsEarned.Some? then data.pointsEarned.value else 0, now)
  }
}
