/** The User document: defaults, required fields, bounds and unique keys of its schema. */
module UserModel {
  import opened Wrappers
  import opened Lengths

  type UserId = nat

  datatype User = User(
    id: UserId,
    githubId: string,
    username: string,
    email: string,
    avatar: Option<string>,
    college: string,
    helpScore: int,
    karmaPoints: int,
    githubProfile: Option<string>,
    bio: Option<string>,
    skills: seq<string>,
    isActive: bool,
    createdAt: nat)

  /** The fields a new user is created from (the rest take their schema defaults). */
  datatype UserCreate = UserCreate(
    githubId: string,
    username: string,
    email: string,
    avatar: Option<string>,
    college: string,
    githubProfile: Option<string>)

  /** A profile update: only the supplied fields are written. */
  datatype UserPatch = UserPatch(bio: Option<string>, skills: Option<seq<string>>)

  const MaxBio := 500

  /**
   * What `save()` checks: required strings are non-empty, and a bio is at
   * most 500 UTF-16 code units long (`maxlength` reads `length`).
   */
  predicate UserSchemaValid(u: User) {
    && |u.githubId| > 0 && |u.username| > 0 && |u.email| > 0 && |u.college| > 0
    && (u.bio.Some? ==> Utf16Len(u.bio.value) <= MaxBio)
  }

  /** `githubId`, `username` and `email` are each unique across the collection. */
  predicate UniqueKeys(users: seq<User>) {
    forall i, j :: 0 <= i < j < |users| ==>
      && users[i].githubId != users[j].githubId
      && users[i].username != users[j].username
      && users[i].email != users[j].email
  }

  /** Some stored user already holds one of the unique keys of `data`. */
  predicate KeyTaken(users: seq<User>, data: UserCreate) {
    exists u :: u in users && (u.githubId == data.githubId || u.username == data.username || u.email == data.email)
  }

  /** A new document: both counters start at 0, no bio, no skills, active. */
  function NewUser(id: UserId, data: UserCreate, now: nat): (u: User)
    ensures u.helpScore == 0 && u.karmaPoints == 0
    ensures u.isActive && u.skills == [] && u.bio.None?
    ensures u.id == id && u.createdAt == now
    ensures u.githubId == data.githubId && u.username == data.username && u.email == data.email
    ensures u.college == data.college && u.avatar == data.avatar && u.githubProfile == data.githubProfile
  {
    User(id, data.githubId, data.username, data.email, data.avatar, data.college,
         0, 0, data.githubProfile, None, [], true, now)
  }

  /** `$inc: { helpScore: points, karmaPoints: points }` on one document. */
  function Adjust(u: User, points: int): (r: User)
    ensures r.helpScore - u.helpScore == points && r.karmaPoints - u.karmaPoints == points
    ensures r.(helpScore := u.helpScore, karmaPoints := u.karmaPoints) == u
  {
    u.(helpScore := u.helpScore + points, karmaPoints := u.karmaPoints + points)
  }

  /** Two increments add up, so a debit followed by the same credit restores the document. */
  lemma AdjustAdds(u: User, p: int, q: int)
    ensures Adjust(Adjust(u, p), q) == Adjust(u, p + q)
    ensures Adjust(Adjust(u, -p), p) == u
  {
  }

  /** The supplied fields overwrite, the others are kept. */
  function Patched(u: User, patch: UserPatch): (r: User)
    ensures r.bio == (if patch.bio.Some? then patch.bio else u.bio)
    ensures r.skills == (if patch.skills.Some? then patch.skills.value else u.skills)
    ensures r.(bio := u.bio, skills := u.skills) == u
  {
    u.(bio := if patch.bio.Some? then patch.bio else u.bio,
       skills := if patch.skills.Some? then patch.skills.value else u.skills)
  }
}
