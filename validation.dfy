/**
 * The request-body rules checked before the create-request and update-user
 * handlers. Each rule reads one body field; a rule that fails is reported,
 * and the trimming rules also rewrite the field the handler then reads.
 */
module Validation {
  import opened Wrappers
  import opened UserModel
  import opened RequestModel
  import opened Validators
  import opened Lengths

  /** A JSON body field as it arrives; arrays are modelled as arrays of strings. */
  datatype Value = Str(s: string) | Num(n: int) | Frac | Bool(b: bool) | Null | Arr(items: seq<string>) | Obj

  /**
   * The text a string rule reads: a string, or "" for a missing or null
   * field. Other kinds are not converted to text in this model.
   */
  function Text(v: Option<Value>): Option<string> {
    if v.None? then Some("")
    else match v.value
      case Str(s) => Some(s)
      case Null => Some("")
      case _ => None
  }

  /** The create-request rules, one per checked field, with the message each reports. */
  datatype CreateRule =
    | InvalidType        // "Invalid request type"
    | TitleLength        // "Title must be between 5 and 200 characters"
    | DescriptionLength  // "Description must be between 20 and 2000 characters"
    | CreditsRange       // "Help credits must be between 1 and 10"
    | TagsNotArray       // "Tags must be an array"
    | RepoUrlInvalid     // "Repository URL must be valid"

  /** The update-user rules. */
  datatype UpdateRule =
    | BioTooLong         // "Bio must not exceed 500 characters"
    | SkillsNotArray     // "Skills must be an array"

  /** The create-request rules in the order they are declared. */
  const CreateRules: seq<CreateRule> :=
    [InvalidType, TitleLength, DescriptionLength, CreditsRange, TagsNotArray, RepoUrlInvalid]

  const MinTitle := 5
  const MinDescription := 20

  datatype CreateRequestBody = CreateRequestBody(
    kind: Option<Value>,
    title: Option<Value>,
    description: Option<Value>,
    helpCredits: Option<Value>,
    tags: Option<Value>,
    repoUrl: Option<Value>)

  /** The fields the create handler reads once every rule has passed. */
  datatype CreateRequestInput = CreateRequestInput(
    kind: RequestType,
    title: string,
    description: string,
    helpCredits: int,
    tags: Option<seq<string>>,
    repoUrl: Option<string>)

  datatype UpdateUserBody = UpdateUserBody(bio: Option<Value>, skills: Option<Value>)

  /** `isIn([...six names])`: the field names one of the request types. */
  function KindOf(v: Option<Value>): Option<RequestType> {
    if Text(v).Some? then ParseType(Text(v).value) else None
  }

  /**
   * `trim().isLength({min, max})`: the trimmed text measured as `isLength`
   * measures it, by `CharLen`.
   */
  predicate TrimmedWithin(v: Option<Value>, lo: nat, hi: nat) {
    Text(v).Some? && lo <= CharLen(Trim(Text(v).value)) <= hi
  }

  /** `isInt({ min: 1, max: 10 })` on a JSON number. */
  predicate CreditsOk(v: Option<Value>) {
    v.Some? && v.value.Num? && MinCredits <= v.value.n <= MaxCredits
  }

  /** `optional().isArray()`: absent, or an array (null is not absent). */
  predicate OptionalArray(v: Option<Value>) {
    v.None? || v.value.Arr?
  }

  /** `optional().isURL()`, with the URL test itself a parameter. */
  predicate OptionalUrl(v: Option<Value>, isUrl: string -> bool) {
    v.None? || (Text(v).Some? && isUrl(Text(v).value))
  }

  lemma RuleListed(rule: CreateRule)
    ensures rule in CreateRules
  {
    match rule
    case InvalidType => assert CreateRules[0] == rule;
    case TitleLength => assert CreateRules[1] == rule;
    case DescriptionLength => assert CreateRules[2] == rule;
    case CreditsRange => assert CreateRules[3] == rule;
    case TagsNotArray => assert CreateRules[4] == rule;
    case RepoUrlInvalid => assert CreateRules[5] == rule;
  }

  /** Whether one create-request rule rejects the body. */
  predicate Fails(rule: CreateRule, b: CreateRequestBody, isUrl: string -> bool) {
    match rule
    case InvalidType => KindOf(b.kind).None?
    case TitleLength => !TrimmedWithin(b.title, MinTitle, MaxTitle)
    case DescriptionLength => !TrimmedWithin(b.description, MinDescription, MaxDescription)
    case CreditsRange => !CreditsOk(b.helpCredits)
    case TagsNotArray => !OptionalArray(b.tags)
    case RepoUrlInvalid => !OptionalUrl(b.repoUrl, isUrl)
  }

  /** The create-request rules that fail; each rule is checked, whatever the others report. */
  function CreateRequestFailures(b: CreateRequestBody, isUrl: string -> bool): (r: set<CreateRule>)
    ensures forall rule :: rule in r <==> Fails(rule, b, isUrl)
  {
    var r := set rule | rule in CreateRules && Fails(rule, b, isUrl);
    assert forall rule :: rule in r <==> Fails(rule, b, isUrl) by {
      forall rule ensures rule in r <==> Fails(rule, b, isUrl) {
        RuleListed(rule);
      }
    }
    r
  }

  /** Every create-request rule passes. */
  predicate Passes(b: CreateRequestBody, isUrl: string -> bool) {
    forall rule :: !Fails(rule, b, isUrl)
  }

  /** A body that does not pass has at least one failing rule to report. */
  lemma FailingBodyReports(b: CreateRequestBody, isUrl: string -> bool)
    requires !Passes(b, isUrl)
    ensures CreateRequestFailures(b, isUrl) != {}
  {
    var rule :| Fails(rule, b, isUrl);
    assert rule in CreateRequestFailures(b, isUrl);
  }

  /**
   * What the handler can rely on after validation: a trimmed title of 5 to
   * 200 characters, a trimmed description of 20 to 2000 (both counted by
   * `CharLen`), credits in [1, 10] and a repository URL that passed the URL
   * test.
   */
  predicate WellFormedInput(input: CreateRequestInput, isUrl: string -> bool) {
    && MinTitle <= CharLen(input.title) <= MaxTitle && NoEdgeSpace(input.title)
    && MinDescription <= CharLen(input.description) <= MaxDescription && NoEdgeSpace(input.description)
    && MinCredits <= input.helpCredits <= MaxCredits
    && (input.repoUrl.Some? ==> isUrl(input.repoUrl.value))
  }

  /** The fields as the handler reads them once the rules passed and the sanitizers ran. */
  function Sanitized(b: CreateRequestBody, isUrl: string -> bool): (r: CreateRequestInput)
    requires Passes(b, isUrl)
    ensures WellFormedInput(r, isUrl)
  {
    assert !Fails(InvalidType, b, isUrl) && !Fails(CreditsRange, b, isUrl);
    assert !Fails(TagsNotArray, b, isUrl) && !Fails(RepoUrlInvalid, b, isUrl);
    assert !Fails(TitleLength, b, isUrl) && !Fails(DescriptionLength, b, isUrl);
    CreateRequestInput(
      KindOf(b.kind).value, Trim(Text(b.title).value), Trim(Text(b.description).value), b.helpCredits.value.n,
      if b.tags.Some? then Some(b.tags.value.items) else None,
      if b.repoUrl.Some? then Text(b.repoUrl) else None)
  }

  /**
   * `validateCreateRequest` followed by the handler's check of the result:
   * the failing rules, or the fields with title and description trimmed.
   */
  function ValidateCreateRequest(b: CreateRequestBody, isUrl: string -> bool): (r: Result<CreateRequestInput, set<CreateRule>>)
    ensures r.Ok? <==> Passes(b, isUrl)
    ensures r.Err? ==> r.error == CreateRequestFailures(b, isUrl) && r.error != {}
    ensures r.Ok? ==> WellFormedInput(r.value, isUrl)
  {
    if Passes(b, isUrl) then
      Ok(Sanitized(b, isUrl))
    else
      FailingBodyReports(b, isUrl);
      Err(CreateRequestFailures(b, isUrl))
  }

  /** What the create handler passes on, with the requester taken from the session. */
  function ToCreate(requester: UserId, input: CreateRequestInput): RequestCreate {
    RequestCreate(requester, input.kind, input.title, input.description, input.repoUrl, input.tags, input.helpCredits)
  }

  /** The body a client would send to resubmit already-validated fields. */
  function AsBody(input: CreateRequestInput): CreateRequestBody {
    CreateRequestBody(
      Some(Str(TypeName(input.kind))), Some(Str(input.title)), Some(Str(input.description)),
      Some(Num(input.helpCredits)),
      if input.tags.Some? then Some(Arr(input.tags.value)) else None,
      if input.repoUrl.Some? then Some(Str(input.repoUrl.value)) else None)
  }

  lemma KindResubmitted(kind: RequestType)
    ensures KindOf(Some(Str(TypeName(kind)))) == Some(kind)
  {
    ParseTypeName(kind);
  }

  lemma TextOfString(t: string)
    ensures Text(Some(Str(t))) == Some(t)
  {
  }

  lemma TextResubmitted(t: string, lo: nat, hi: nat)
    requires lo <= CharLen(t) <= hi && NoEdgeSpace(t)
    ensures TrimmedWithin(Some(Str(t)), lo, hi) && Trim(Text(Some(Str(t))).value) == t
  {
    TextOfString(t);
    TrimKeeps(t);
    assert lo <= CharLen(Trim(t)) <= hi;
  }

  /** A well-formed input, sent back as a body, passes every rule. */
  lemma ResubmittedPasses(input: CreateRequestInput, isUrl: string -> bool)
    requires WellFormedInput(input, isUrl)
    ensures Passes(AsBody(input), isUrl)
  {
    var body := AsBody(input);
    KindResubmitted(input.kind);
    TextResubmitted(input.title, MinTitle, MaxTitle);
    TextResubmitted(input.description, MinDescription, MaxDescription);
    forall rule ensures !Fails(rule, body, isUrl) {
      match rule
      case InvalidType =>
      case TitleLength =>
      case DescriptionLength =>
      case CreditsRange =>
      case TagsNotArray =>
      case RepoUrlInvalid =>
        if input.repoUrl.Some? {
          assert Text(body.repoUrl) == Some(input.repoUrl.value);
        }
    }
  }

  /**
   * Validation is stable: a well-formed input, sent back as a body, validates
   * to itself; in particular whatever passed once passes again unchanged.
   */
  lemma ValidatedRoundTrip(input: CreateRequestInput, isUrl: string -> bool)
    requires WellFormedInput(input, isUrl)
    ensures ValidateCreateRequest(AsBody(input), isUrl) == Ok(input)
  {
    ResubmittedPasses(input, isUrl);
    KindResubmitted(input.kind);
    TextResubmitted(input.title, MinTitle, MaxTitle);
    TextResubmitted(input.description, MinDescription, MaxDescription);
  }

  /**
   * The schema stores a validated request exactly when its title and
   * description also fit `maxlength`, which counts UTF-16 code units where
   * the rules counted characters.
   */
  lemma ValidatedRequestFitsSchema(b: CreateRequestBody, isUrl: string -> bool, requester: UserId, id: RequestId, now: nat)
    requires ValidateCreateRequest(b, isUrl).Ok?
    ensures var input := ValidateCreateRequest(b, isUrl).value;
      RequestSchemaValid(NewRequest(id, ToCreate(requester, input), now)) <==>
        Utf16Len(input.title) <= MaxTitle && Utf16Len(input.description) <= MaxDescription
  {
  }

  /** Text of the Basic Multilingual Plane without variation selectors that passes the rules is stored, never refused. */
  lemma PlainValidatedFitsSchema(b: CreateRequestBody, isUrl: string -> bool, requester: UserId, id: RequestId, now: nat)
    requires ValidateCreateRequest(b, isUrl).Ok?
    requires Plain(ValidateCreateRequest(b, isUrl).value.title)
    requires Plain(ValidateCreateRequest(b, isUrl).value.description)
    ensures RequestSchemaValid(NewRequest(id, ToCreate(requester, ValidateCreateRequest(b, isUrl).value), now))
  {
    var input := ValidateCreateRequest(b, isUrl).value;
    PlainLengths(input.title);
    PlainLengths(input.description);
    ValidatedRequestFitsSchema(b, isUrl, requester, id, now);
  }

  /**
   * A title of 101 to 200 characters outside the Basic Multilingual Plane
   * (150 emoji, say) passes the rules, which count each once, and is refused
   * by `save()`, which counts each twice.
   */
  lemma AstralTitleRefused(c: char, n: nat, isUrl: string -> bool, requester: UserId, id: RequestId, now: nat)
    requires c >= '\U{10000}' && MaxTitle / 2 < n <= MaxTitle
    ensures var b := AsBody(CreateRequestInput(BugFix, Repeat(c, n), Repeat('a', MinDescription), MinCredits, None, None));
      && ValidateCreateRequest(b, isUrl).Ok?
      && !RequestSchemaValid(NewRequest(id, ToCreate(requester, ValidateCreateRequest(b, isUrl).value), now))
  {
    var input := CreateRequestInput(BugFix, Repeat(c, n), Repeat('a', MinDescription), MinCredits, None, None);
    RepeatLengths(c, n);
    RepeatLengths('a', MinDescription);
    ValidatedRoundTrip(input, isUrl);
  }

  /** `validateUpdateUser`: the failing rules, or the patch with the bio trimmed. */
  function ValidateUpdateUser(b: UpdateUserBody): (r: Result<UserPatch, seq<UpdateRule>>)
    ensures r.Err? ==> r.error != []
    ensures BioTooLong in ValidationErrors(r) <==> b.bio.Some? && !TrimmedWithin(b.bio, 0, MaxBio)
    ensures SkillsNotArray in ValidationErrors(r) <==> !OptionalArray(b.skills)
    ensures r.Ok? ==>
      && r.value.bio == (if b.bio.Some? then Some(Trim(Text(b.bio).value)) else None)
      && r.value.skills == (if b.skills.Some? then Some(b.skills.value.items) else None)
  {
    var failures :=
      (if b.bio.Some? && !TrimmedWithin(b.bio, 0, MaxBio) then [BioTooLong] else [])
      + (if !OptionalArray(b.skills) then [SkillsNotArray] else []);
    if failures != [] then Err(failures)
    else
      Ok(UserPatch(
        if b.bio.Some? then Some(Trim(Text(b.bio).value)) else None,
        if b.skills.Some? then Some(b.skills.value.items) else None))
  }

  function ValidationErrors<T>(r: Result<T, seq<UpdateRule>>): seq<UpdateRule> {
    if r.Err? then r.error else []
  }

  /**
   * A profile update that passed the rules keeps a schema-valid user
   * schema-valid exactly when the new bio, if any, fits 500 UTF-16 code units.
   */
  lemma ValidatedPatchKeepsSchema(u: User, b: UpdateUserBody)
    requires UserSchemaValid(u) && ValidateUpdateUser(b).Ok?
    ensures var patch := ValidateUpdateUser(b).value;
      UserSchemaValid(Patched(u, patch)) <==> patch.bio.None? || Utf16Len(patch.bio.value) <= MaxBio
  {
  }

  /** A plain bio that passed the rules is always stored. */
  lemma PlainPatchKeepsSchema(u: User, b: UpdateUserBody)
    requires UserSchemaValid(u) && ValidateUpdateUser(b).Ok?
    requires ValidateUpdateUser(b).value.bio.Some? ==> Plain(ValidateUpdateUser(b).value.bio.value)
    ensures UserSchemaValid(Patched(u, ValidateUpdateUser(b).value))
  {
    var patch := ValidateUpdateUser(b).value;
    if patch.bio.Some? {
      PlainLengths(patch.bio.value);
    }
    ValidatedPatchKeepsSchema(u, b);
  }

  /**
   * A bio of 251 to 500 characters outside the Basic Multilingual Plane passes
   * the rules and leaves a user that breaks the bio `maxlength`; the update
   * path stores it, since it runs no schema validators.
   */
  lemma AstralBioBreaksSchema(c: char, n: nat, u: User)
    requires c >= '\U{10000}' && MaxBio / 2 < n <= MaxBio
    requires UserSchemaValid(u)
    ensures var b := UpdateUserBody(Some(Str(Repeat(c, n))), None);
      && ValidateUpdateUser(b).Ok?
      && !UserSchemaValid(Patched(u, ValidateUpdateUser(b).value))
  {
    var b := UpdateUserBody(Some(Str(Repeat(c, n))), None);
    AstralBioPasses(c, n);
    RepeatLengths(c, n);
    ValidatedPatchKeepsSchema(u, b);
  }

  /** A run of at most 500 characters outside the Basic Multilingual Plane passes the bio rule unchanged. */
  lemma AstralBioPasses(c: char, n: nat)
    requires c >= '\U{10000}' && 0 < n <= MaxBio
    ensures ValidateUpdateUser(UpdateUserBody(Some(Str(Repeat(c, n))), None)) == Ok(UserPatch(Some(Repeat(c, n)), None))
  {
    var bio := Repeat(c, n);
    RepeatLengths(c, n);
    TextOfString(bio);
    assert bio[0] == c && bio[n - 1] == c;
    TrimKeeps(bio);
  }
}
