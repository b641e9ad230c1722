# DevCircle karma ledger — a Dafny model

DevCircle lets students of one college ask each other for help. A request
offers 1 to 10 *help credits*. Creating a request takes those credits from the
requester's karma balance. Another user accepts the request and becomes its
helper. When the requester marks it complete, the credits go to the helper's
balance; when the requester cancels it, they go back to the requester. Every
step appends an entry to an activity log.

This project models the server core of that lifecycle:

- the three MongoDB collections (users, requests, activities) and their schemas;
- the repositories that read and write them, and the user and request services;
- the express-validator rule chains for the request and profile bodies;
- the three string helpers (e-mail check, college-domain check, sanitiser).

How the model is built:

- **Stores.** Each repository is a class holding one `seq` of documents. A
  document's id is its position, because ids are handed out in order and
  nothing is deleted. Each repository's `Valid()` ties ids to positions and
  keeps the schema invariants (`RequestSchemaValid`, `ActivitySchemaValid`,
  unique GitHub id, user name and e-mail).
- **Services.** The services are classes over those repositories. Every method
  that changes state states the whole new state of every store it may modify.
- **Errors.** The exception a service throws becomes an `Err` of the `Error`
  datatype, and its message is noted beside the constructor. The contracts fix
  the order of the guards, which decides which message a caller sees.
- **Time.** Timestamps are a `now: nat` parameter.

What is proved about the request service (`RequestSvc.RequestService`):

- **`Lifecycle` invariant.** Every request keeps a stored requester. An open
  request has no helper, and an in-progress or completed one has one. Only a
  completed request has a completion time. Nobody helps themself.
- **`Supply` bookkeeping.** `Supply` (module `Ledger`) is every balance plus
  the credits held by open and in-progress requests.
  - Create, accept and cancel-once conserve it.
  - Completing a request whose helper reference resolves also conserves it.
    One whose helper reference dangles loses the credits.
  - Cancelling an already-cancelled request refunds it a second time. That
    mints points, as the Findings section records.
- **Queries.** Each query returns exactly the matching documents, newest or
  highest first. It draws every document at most as often as it is stored, so
  no query over a well-formed table lists a document twice. When a page is
  full, every matching document left off it ranks no higher than any document
  on it.

Validation is modelled as a function from a JSON body to either the set of
rules that fail or the sanitised fields. It passes exactly when no rule fails.
Re-submitting the fields of a passing body validates to the same fields.

The rules and the schemas measure text differently (module `Lengths`).
express-validator's `isLength` counts a character outside the Basic
Multilingual Plane once and skips the variation selectors U+FE0E and U+FE0F.
Mongoose's `maxlength` reads JavaScript's `length`, which counts UTF-16 code
units, so such a character counts twice. A passing body therefore becomes a
storable request exactly when its title and description also fit `maxlength`
in code units. That always holds for text without such characters. A title of
150 emoji passes the rules and is then refused by `save()`. A bio of 300 emoji
passes the bio rule but breaks the schema's `maxlength`. The profile update
path (`findByIdAndUpdate` without `runValidators`) never checks that bound,
so such a bio is stored.

## Model

| member | source | states |
|---|---|---|
| Queries.Filter | server/repositories/userRepository.ts:36-38 | `find(filter)` keeps each matching document as often as it occurs and drops every other one |
| Queries.FilterMembers | server/repositories/requestRepository.ts:42-46 | a document is in the result exactly when it is stored and matches |
| Queries.Insert | server/repositories/requestRepository.ts:43-45 | inserting into a descending sequence keeps it descending and adds exactly one element |
| Queries.SortDesc | server/repositories/requestRepository.ts:37-39 | `.sort({createdAt: -1})` returns a permutation of its input in non-increasing key order |
| Queries.Take | server/repositories/activityRepository.ts:10-15 | `.limit(n)` is a prefix of length min(n, size), and a limit of 0 means no limit |
| Queries.Top | server/repositories/userRepository.ts:30-34 | sort-then-limit is sorted, a sub-multiset of the input, of length min(n, size), and anything dropped ranks no higher than anything kept |
| Queries.TopMembers | server/repositories/activityRepository.ts:17-23 | the same facts about a page, stated on membership: only stored documents, and a document is missing only from a full page and ranks no higher than the page |
| Queries.TakeKeepsLargest | server/repositories/activityRepository.ts:10-15 | cutting a sorted sequence leaves out nothing larger than what it keeps |
| Queries.Page | server/repositories/activityRepository.ts:10-15 | find-sort-limit returns only matching documents in order, at most n of them, each at most as often as it is stored; with no limit, exactly the matching ones as often as they are stored; a matching document is missing only from a full page and ranks no higher than everything on it |
| Queries.PageCounts | server/repositories/activityRepository.ts:10-15 | a page is a sub-multiset of the store, and with no limit it holds every matching document exactly as often as the store does |
| Queries.SubDistinct | server/repositories/requestRepository.ts:42-46 | whatever a query draws from a store without repeats has no repeats either |
| Queries.FindFirst | server/repositories/userRepository.ts:9-11 | `findOne` returns a matching document, and returns none exactly when no document matches |
| UserModel.NewUser | server/models/User.ts:29-51 | a new user starts with both counters at 0, no bio, no skills, active, and the given identity fields |
| UserModel.Adjust | server/repositories/userRepository.ts:40-46 | `$inc` adds `points` to `helpScore` and to `karmaPoints` and changes no other field |
| UserModel.AdjustAdds | server/repositories/userRepository.ts:40-46 | two increments compose, so a debit followed by the same credit restores the user |
| UserModel.Patched | server/repositories/userRepository.ts:26-28 | an update writes the supplied bio and skills and keeps every other field |
| UserModel.UserSchemaValid | server/models/User.ts:6-47 | a user is storable when GitHub id, user name, e-mail and college are present and a bio, if any, is within 500 UTF-16 code units |
| UserModel.UniqueKeys | server/models/User.ts:6-20 | no two users share a GitHub id, a user name or an e-mail |
| RequestModel.ParseType | server/interfaces/IRequest.ts:3-10 | a string parses only to the type whose stored name it is |
| RequestModel.ParseTypeName | server/interfaces/IRequest.ts:3-10 | each of the six type names parses back to its type |
| RequestModel.NewRequest | server/models/Request.ts:35-50 | a new request is open, with no helper and no completion time, and tags default to empty |
| RequestModel.RequestSchemaValid | server/models/Request.ts:22-50 | a request is storable when title and description are present and within 200 and 2000 UTF-16 code units and its credits are in [1, 10] |
| ActivityModel.NewActivity | server/models/Activity.ts:26-29 | a new entry earns 0 points unless the points are given |
| ActivityModel.ActivitySchemaValid | server/models/Activity.ts:17-21 | an entry is storable when its description is present and at most 500 UTF-16 code units long |
| Lengths.Utf16Len | server/models/Request.ts:22-31 | `maxlength` reads `length`: one or two code units per character, so between the character count and twice it |
| Lengths.CharLen | server/middleware/validation.middleware.ts:7-14 | `isLength` counts each character once except the variation selectors, so never more than the character count |
| Lengths.PlainLengths | server/middleware/validation.middleware.ts:7-14 | on text of the Basic Multilingual Plane without variation selectors both measures equal the character count |
| Lengths.Utf16LenAppend | server/services/requestService.ts:29-35 | code units add up over a concatenation, as in the activity texts built from a title |
| Lengths.RepeatLengths | server/models/Request.ts:22-26 | a run of n copies of one character is n or 2n code units long, and `isLength` counts it n or 0 |
| UserRepo.UserRepository.constructor | server/repositories/userRepository.ts:4 | the table starts empty and valid |
| UserRepo.UserRepository.FindById | server/repositories/userRepository.ts:5-7 | the user with that id exists exactly when the id is below the table size |
| UserRepo.UserRepository.FindByGithubId | server/repositories/userRepository.ts:9-11 | returns a stored user with that GitHub id, and none exactly when no user has it |
| UserRepo.UserRepository.FindByEmail | server/repositories/userRepository.ts:13-15 | returns a stored user with that e-mail, and none exactly when no user has it |
| UserRepo.UserRepository.FindByUsername | server/repositories/userRepository.ts:17-19 | returns a stored user with that user name, and none exactly when no user has it |
| UserRepo.UserRepository.Create | server/repositories/userRepository.ts:21-24 | schema failure, then a taken unique key, each refused with the table unchanged; otherwise exactly the new user is appended and the keys stay unique |
| UserRepo.UserRepository.Update | server/repositories/userRepository.ts:26-28 | an unknown id changes nothing; otherwise only that user is replaced by its patched copy |
| UserRepo.UserRepository.UpdateHelpScore | server/repositories/userRepository.ts:40-46 | an unknown id changes nothing; otherwise only that user's two counters move by `points` |
| UserRepo.UserRepository.GetLeaderboard | server/repositories/userRepository.ts:30-34 | only active users of the college, highest karma first, at most `limit`, each at most as often as stored; an active member is left off only a full board and has no more karma than anyone on it |
| UserRepo.UserRepository.FindByCollege | server/repositories/userRepository.ts:36-38 | exactly the active users of that college, each as often as it is stored |
| UserRepo.UserRepository.QueriesDistinct | server/repositories/userRepository.ts:30-38 | over a well-formed table neither the leaderboard nor the college list names a user twice |
| RequestRepo.RequestRepository.constructor | server/repositories/requestRepository.ts:4 | the table starts empty and valid |
| RequestRepo.RequestRepository.FindById | server/repositories/requestRepository.ts:5-9 | the request with that id exists exactly when the id is below the table size |
| RequestRepo.RequestRepository.Create | server/repositories/requestRepository.ts:11-14 | a schema failure stores nothing; otherwise the new open request is appended |
| RequestRepo.RequestRepository.AcceptRequest | server/repositories/requestRepository.ts:54-63 | only that request changes: helper set and status in progress, whatever its status was |
| RequestRepo.RequestRepository.CompleteRequest | server/repositories/requestRepository.ts:65-74 | only that request changes: status completed, stamped with `now` |
| RequestRepo.RequestRepository.CancelRequest | server/repositories/requestRepository.ts:76-84 | only that request changes: status cancelled, with helper and completion time kept |
| RequestRepo.RequestRepository.FindOpenRequests | server/repositories/requestRepository.ts:23-40 | exactly the open requests, each as often as it is stored, newest first |
| RequestRepo.RequestRepository.FindByRequester | server/repositories/requestRepository.ts:42-46 | exactly the requests made by that user, each as often as it is stored, newest first |
| RequestRepo.RequestRepository.FindByHelper | server/repositories/requestRepository.ts:48-52 | exactly the requests that user helps with, each as often as it is stored, newest first |
| RequestRepo.RequestRepository.QueriesDistinct | server/repositories/requestRepository.ts:23-52 | over a well-formed table no request query lists a request twice |
| ActivityRepo.ActivityRepository.constructor | server/repositories/activityRepository.ts:4 | the log starts empty and valid |
| ActivityRepo.ActivityRepository.Create | server/repositories/activityRepository.ts:5-8 | a schema failure stores nothing; otherwise exactly the new entry is appended |
| ActivityRepo.ActivityRepository.FindByUser | server/repositories/activityRepository.ts:10-15 | only that user's entries, newest first, at most `limit`, each at most as often as stored; an entry of the user is left off only a full page and is no newer than anything on it |
| ActivityRepo.ActivityRepository.FindRecent | server/repositories/activityRepository.ts:17-23 | the newest `limit` entries, newest first, each at most as often as stored; an entry is left off only a full page and is no newer than anything on it |
| ActivityRepo.ActivityRepository.QueriesDistinct | server/repositories/activityRepository.ts:10-23 | over a well-formed log neither page lists an entry twice |
| ActivityRepo.ActivityRepository.FindByCollege | server/repositories/activityRepository.ts:25-35 | the populate match narrows no entry, so the page is the same as `findRecent` with that limit |
| UserSvc.UserService.constructor | server/services/userService.ts:4 | the service reads and writes the given table |
| UserSvc.UserService.GetUserById | server/services/userService.ts:5-7 | the user with that id exists exactly when the id is below the table size |
| UserSvc.UserService.GetUserByGithubId | server/services/userService.ts:9-11 | returns a user with that GitHub id, and none exactly when no user has it |
| UserSvc.UserService.CreateUser | server/services/userService.ts:13-21 | a GitHub id on file is refused first, then schema and unique-key failures; a created user is appended and afterwards found by its GitHub id |
| UserSvc.UserService.UpdateUser | server/services/userService.ts:23-25 | only that user is patched; an unknown id changes nothing |
| UserSvc.UserService.GetLeaderboard | server/services/userService.ts:27-29 | the table's leaderboard with limit 10, so at most 10 users |
| UserSvc.UserService.GetCollegeUsers | server/services/userService.ts:31-33 | exactly the active users of that college, each as often as it is stored |
| UserSvc.UserService.UpdateHelpScore | server/services/userService.ts:35-37 | only that user's two counters move by `points` |
| UserSvc.UserService.GetUserProfile | server/services/userService.ts:39-41 | the user with that id, present exactly when the id is known |
| Ledger.SumAppend | server/services/requestService.ts:23 | appending a document adds its value to a sum over the store |
| Ledger.SumUpdate | server/repositories/userRepository.ts:40-46 | replacing one document changes a sum over the store by the difference |
| Ledger.TotalKarmaAdjust | server/repositories/userRepository.ts:40-46 | one `$inc` of `points` moves the sum of all balances by exactly `points` |
| Ledger.EscrowChange | server/services/requestService.ts:23-26 | a new request adds the credits it holds; a status change moves the held total by the difference |
| RequestSvc.RequestService.constructor | server/services/requestService.ts:144 | the service starts with empty, valid stores |
| RequestSvc.RequestService.GetRequestById | server/services/requestService.ts:8-10 | the request with that id, present exactly when the id is known |
| RequestSvc.RequestService.CreateRequest | server/services/requestService.ts:12-38 | errors in order: unknown user, insufficient karma, schema failure, each leaving every store unchanged; on success the open request is stored, the requester is debited, one entry is logged and `Supply` is conserved |
| RequestSvc.RequestService.Debit | server/services/requestService.ts:25-35 | the requester alone is debited the credits and a `request_created` entry is appended |
| RequestSvc.RequestService.GetOpenRequests | server/services/requestService.ts:40-42 | exactly the open requests, each as often as it is stored, newest first, with or without a college |
| RequestSvc.RequestService.GetUserRequests | server/services/requestService.ts:44-46 | exactly that user's requests, each as often as it is stored, newest first |
| RequestSvc.RequestService.GetUserHelpedRequests | server/services/requestService.ts:48-50 | exactly the requests that user helps with, each as often as it is stored, newest first |
| RequestSvc.RequestService.AcceptRequest | server/services/requestService.ts:52-78 | errors in order: not found, not open, own request; on success the request is in progress with that helper, one entry is logged, balances are unchanged and `Lifecycle` holds |
| RequestSvc.RequestService.CompleteRequest | server/services/requestService.ts:80-120 | errors in order: not found, not in progress, not the requester; on success the request is completed at `now`; a resolving helper is paid and logged, then the completion is logged; `Supply` is kept unless the helper dangles |
| RequestSvc.RequestService.Settle | server/services/requestService.ts:97-117 | a resolving helper alone is credited and gets a `help_provided` entry, then a `request_completed` entry follows; with a dangling helper only the completion is logged |
| RequestSvc.RequestService.CancelRequest | server/services/requestService.ts:122-141 | errors in order: not found, not the requester, completed; otherwise the requester is refunded and the request is cancelled; `Supply` grows by the credits when the request was already cancelled |
| RequestSvc.RequestService.CancelRequestOnce | server/services/requestService.ts:122-141 | the corrected cancel: also refuses an already-cancelled request, and always conserves `Supply` |
| RequestSvc.RecancelMints | server/services/requestService.ts:133-140 | refunding an already-cancelled request raises `Supply` by its credits, strictly |
| RequestSvc.CancelOnceConserves | server/services/requestService.ts:137-140 | refunding a request that still holds its credits conserves `Supply` |
| Validators.IsSpace | server/utils/validators.ts:11 | the characters `trim()` removes: those of JavaScript's `\s` class |
| Validators.TrimStart | server/utils/validators.ts:11 | the result is no longer than the input and does not start with white space |
| Validators.TrimStartShape | server/utils/validators.ts:11 | what is kept is a suffix of the input, and what is dropped is all white space |
| Validators.TrimEnd | server/utils/validators.ts:11 | the result is no longer than the input and does not end with white space |
| Validators.TrimEndShape | server/utils/validators.ts:11 | what is kept is a prefix of the input, and what is dropped is all white space |
| Validators.Trim | server/utils/validators.ts:11 | `trim()` never lengthens a string and leaves no white space at either end |
| Validators.TrimIsInfix | server/utils/validators.ts:11 | the trimmed string is the infix between a white-space prefix and a white-space suffix |
| Validators.TrimUnique | server/utils/validators.ts:11 | any split into white space, a middle without edge space, and white space gives exactly that middle |
| Validators.TrimKeeps | server/utils/validators.ts:11 | a string without edge white space is left unchanged |
| Validators.TrimIdempotent | server/utils/validators.ts:11 | trimming twice gives the same string as trimming once |
| Validators.StripAngles | server/utils/validators.ts:11 | the replace removes every `<` and `>` and never lengthens the string |
| Validators.StripAnglesAppend | server/utils/validators.ts:11 | the deletion distributes over concatenation, so order is kept |
| Validators.StripAnglesCounts | server/utils/validators.ts:11 | every other character survives exactly as often as it occurs |
| Validators.StripAnglesKeeps | server/utils/validators.ts:11 | a string without angle brackets is left unchanged |
| Validators.SanitizeString | server/utils/validators.ts:10-12 | the result has no angle brackets and is no longer than the input |
| Validators.SanitizeStringCounts | server/utils/validators.ts:10-12 | the result is the trimmed input with the brackets deleted, counted per character |
| Validators.SanitizeStringMayKeepEdgeSpace | server/utils/validators.ts:10-12 | trimming runs before the deletion, so `"< a"` sanitises to `" a"` and the sanitiser is not idempotent |
| Validators.ValidateCollegeDomain | server/utils/validators.ts:6-8 | `endsWith`: the address ends with the domain |
| Validators.CollegeDomainIsSuffix | server/utils/validators.ts:6-8 | `endsWith` accepts exactly the strings that end with the domain, and always accepts the empty domain |
| Validators.IndexOf | server/utils/validators.ts:2 | the first position of the character, or the length when it is absent |
| Validators.ValidateEmail | server/utils/validators.ts:1-4 | the regular-expression test computed directly: a non-empty local part before the first `@`, then a domain holding a `.` with characters on both sides, and no white space or second `@` anywhere |
| Validators.ValidateEmailIsMatch | server/utils/validators.ts:1-4 | every accepted address matches `^[^\s@]+@[^\s@]+\.[^\s@]+$` |
| Validators.MatchIsValidEmail | server/utils/validators.ts:1-4 | every match of the pattern is accepted |
| Validators.ValidateEmailMatchesPattern | server/utils/validators.ts:1-4 | the check accepts exactly the language of the regular expression |
| Validators.ValidEmailShape | server/utils/validators.ts:1-4 | an accepted address has no white space and exactly one `@` |
| Validation.CreateRequestFailures | server/middleware/validation.middleware.ts:3-26 | every rule is checked: a rule is reported exactly when it fails |
| Validation.FailingBodyReports | server/middleware/validation.middleware.ts:3-26 | a body that does not pass reports at least one rule |
| Validation.Sanitized | server/middleware/validation.middleware.ts:7-14 | the fields the handler reads after passing rules are within the bounds, and title and description carry no edge white space |
| Validation.ValidateCreateRequest | server/middleware/validation.middleware.ts:3-26 | passes exactly when no rule fails; otherwise reports exactly the failing rules, never none; a pass yields well-formed fields |
| Validation.KindResubmitted | server/middleware/validation.middleware.ts:4-6 | each type name is accepted by the `isIn` rule and read back as its type |
| Validation.TextResubmitted | server/middleware/validation.middleware.ts:7-14 | an already trimmed string whose `isLength` measure is within bounds passes its length rule and is kept unchanged |
| Validation.ResubmittedPasses | server/middleware/validation.middleware.ts:3-26 | well-formed fields sent back as a body pass every rule |
| Validation.ValidatedRoundTrip | server/middleware/validation.middleware.ts:3-26 | well-formed fields sent back as a body validate to themselves |
| Validation.ValidatedRequestFitsSchema | server/models/Request.ts:22-31 | a body that passed the rules becomes a request the schema accepts exactly when title and description fit 200 and 2000 UTF-16 code units |
| Validation.PlainValidatedFitsSchema | server/models/Request.ts:22-31 | a passing body whose title and description use only Basic Multilingual Plane characters and no variation selectors is always storable |
| Validation.AstralTitleRefused | server/middleware/validation.middleware.ts:7-10 | a title of 101 to 200 characters above U+FFFF passes the title rule and makes the schema refuse the request |
| Validation.ValidateUpdateUser | server/middleware/validation.middleware.ts:28-38 | the bio rule is reported exactly when a given bio is over 500 characters after trimming; the skills rule exactly when skills are given and not an array; a pass yields the trimmed bio and the skills |
| Validation.ValidatedPatchKeepsSchema | server/models/User.ts:40-43 | a profile update that passed the rules keeps a schema-valid user schema-valid exactly when the new bio, if any, fits 500 UTF-16 code units |
| Validation.PlainPatchKeepsSchema | server/models/User.ts:40-43 | a passing update whose bio has no characters above U+FFFF and no variation selectors always keeps the user storable |
| Validation.AstralBioPasses | server/middleware/validation.middleware.ts:29-33 | a bio of up to 500 characters above U+FFFF passes the bio rule unchanged |
| Validation.AstralBioBreaksSchema | server/models/User.ts:40-43 | a bio of 251 to 500 characters above U+FFFF passes the bio rule and leaves a user that violates the bio `maxlength`, which the update path does not enforce |

## Left out

- Authentication (GitHub OAuth, JWT), controllers, routes and the web client are not part of this model.
  - Callers' ids are plain parameters.
  - The +10 karma the auth controller grants on sign-up is not modelled.
- `populate()` joins are not modelled, and stored references stay ids.
  - The ownership checks in `acceptRequest`, `completeRequest` and `cancelRequest` call `toString()` on the requester as populated. The model compares user ids instead; Mongoose's string form of a populated document is not captured.
  - That string form is the document's printed form, never a bare id. As written, `completeRequest` (server/services/requestService.ts:91) and `cancelRequest` (line 129) therefore refuse every caller, and `acceptRequest` (line 62) never refuses a requester accepting their own request. The model's guards are the id comparisons the messages describe.
  - `completeRequest` also passes the populated helper's `toString()` to `updateHelpScore` and to the `help_provided` entry (lines 99 and 103). As written, that is the printed form, not an id, and the id cast would fail only after line 95 has already completed the request, so the helper would never be credited. This is latent behind line 91. The model passes the helper's id at both places.
  - A dangling helper reference reads as null. This is the only effect of the join that the model keeps.
- The `college` argument of `findOpenRequests` and of the activity `findByCollege` only narrows the populated user. It filters nothing, and the model shows exactly that.
- `updatedAt` is not modelled, and the timestamps are a `now: nat` parameter rather than a `Date`.
- Sort ties are not specified: MongoDB leaves their order open. The contracts state sortedness and top-k selection, not one particular order among equal keys.
- Concurrency is not modelled: each operation is one atomic step, and there are no transactions across the stores.
- When a repository call fails part-way through a service operation, the earlier writes stay. The model never fails at those points: all inputs there already satisfy the schemas.
- `RequestRepository.update` is not modelled, because no service calls it.
- UserRepo.UserRepository.Update: takes a `UserPatch` of bio and skills, not any `Partial<IUser>`. The only caller, the profile controller, passes exactly those two fields.
- RequestSvc.RequestService.Debit and RequestSvc.RequestService.Settle require the title to be at most 200 characters, which every stored request meets; the activity texts then fit 500 code units.
- `validateUserId` and `validateRequestId` (`isMongoId`) are not modelled: ids are naturals, so every id is well formed.
- express-validator's conversion of numbers, booleans and arrays to text is not modelled. A string rule on such a value is treated as failing, and `isInt` accepts only a JSON integer, not a numeric string.
- Validation.Value: array elements are modelled as strings only, and fractional numbers carry no value.
- Validation.OptionalUrl: `isURL` is a parameter; its definition is not part of this model.
- Validation.ValidateCreateRequest: failing rules are reported as a set, not as the ordered message array express-validator returns.
- Validation.ValidateUpdateUser: no route mounts this chain, and `findByIdAndUpdate` runs no validators. `UserRepository.Valid` therefore does not bound the bio.
- Helpers and `Lifecycle`: a cancelled request keeps its helper, so the model's lifecycle invariant ties the helper to open, in-progress and completed requests only.
- `activityService` and its limits are not part of this model; the repository functions take the limit as a parameter.

## Findings

| source | as written | input that shows it | evidently intended | confidence | as-written member | corrected member |
|---|---|---|---|---|---|---|
| server/services/requestService.ts:133-140 | the status guard refuses only a completed request, so an already-cancelled request is refunded again; the defect is latent as written, since the ownership guard at line 129 compares the populated requester's `toString()` with the caller's id and refuses every caller first | with the ownership guard comparing ids, a request with 5 credits cancelled twice by its requester leaves the requester 5 points above the balance before creating it | only a request that still holds its credits (open or in progress) is cancelled and refunded | medium, not executed | RequestSvc.RecancelMints | RequestSvc.RequestService.CancelRequestOnce |
