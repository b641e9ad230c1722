/** The Request document: its enums, required fields, bounds and defaults. */
module RequestModel {
  import opened Wrappers
  import opened UserModel
  import opened Lengths

  type RequestId = nat

  datatype RequestType = CodeReview | BugFix | GithubStar | Collaboration | Mentorship | Other

  datatype RequestStatus = Open | InProgress | Completed | Cancelled

  /** The string each request type is stored and sent as. */
  function TypeName(t: RequestType): string {
    match t
    case CodeReview => "code_review"
    case BugFix => "bug_fix"
    case GithubStar => "github_star"
    case Collaboration => "collaboration"
    case Mentorship => "mentorship"
    case Other => "other"
  }

  /** The request type a string names, if any. */
  function ParseType(s: string): (r: Option<RequestType>)
    ensures r.Some? ==> TypeName(r.value) == s
  {
    if s == "code_review" then Some(CodeReview)
    else if s == "bug_fix" then Some(BugFix)
    else if s == "github_star" then Some(GithubStar)
    else if s == "collaboration" then Some(Collaboration)
    else if s == "mentorship" then Some(Mentorship)
    else if s == "other" then Some(Other)
    else None
  }

  /** Every type name parses back to its type: the six names are the whole enumeration. */
  lemma ParseTypeName(t: RequestType)
    ensures ParseType(TypeName(t)) == Some(t)
  {
    match t
    case CodeReview =>
    case BugFix => assert TypeName(t) != "code_review";
    case GithubStar => assert TypeName(t)[0] == 'g';
    case Collaboration => assert TypeName(t)[0] == 'c' && TypeName(t)[1] == 'o' && TypeName(t) != "code_review";
    case Mentorship => assert TypeName(t)[0] == 'm';
    case Other => assert TypeName(t)[0] == 'o';
  }

  datatype Request = Request(
    id: RequestId,
    requester: UserId,
    helper: Option<UserId>,
    kind: RequestType,
    title: string,
    description: string,
    repoUrl: Option<string>,
    tags: seq<string>,
    status: RequestStatus,
    helpCredits: int,
    createdAt: nat,
    completedAt: Option<nat>)

  /** The fields a request is created from; `tags` may be left out. */
  datatype RequestCreate = RequestCreate(
    requester: UserId,
    kind: RequestType,
    title: string,
    description: string,
    repoUrl: Option<string>,
    tags: Option<seq<string>>,
    helpCredits: int)

  const MaxTitle := 200
  const MaxDescription := 2000
  const MinCredits := 1
  const MaxCredits := 10

  /**
   * What `save()` checks: title and description present and at most 200 and
   * 2000 UTF-16 code units long, credits in [1, 10].
   */
  predicate RequestSchemaValid(r: Request) {
    && 0 < |r.title| && Utf16Len(r.title) <= MaxTitle
    && 0 < |r.description| && Utf16Len(r.description) <= MaxDescription
    && MinCredits <= r.helpCredits <= MaxCredits
  }

  /** A new document: status `open`, tags default to empty, no helper, not completed. */
  function NewRequest(id: RequestId, data: RequestCreate, now: nat): (r: Request)
    ensures r.status == Open && r.helper.None? && r.completedAt.None?
    ensures r.tags == if data.tags.Some? then data.tags.value else []
    ensures r.id == id && r.createdAt == now && r.requester == data.requester
    ensures r.kind == data.kind && r.title == data.title && r.description == data.description
    ensures r.repoUrl == data.repoUrl && r.helpCredits == data.helpCredits
  {
    Request(id, data.requester, None, data.kind, data.title, data.description, data.repoUrl,
            if data.tags.Some? then data.tags.value else [], Open, data.helpCredits, now, None)
  }
}
