/** The user service: registration with a GitHub-id check, and pass-throughs to the user table. */
module UserSvc {
  import opened Wrappers
  import opened Errors
  import opened UserModel
  import opened UserRepo

  /** The fixed size of the leaderboard the service hands out. */
  const LeaderboardSize: nat := 10

  class UserService {
    const repo: UserRepository

    constructor (repo: UserRepository)
      ensures this.repo == repo
    {
      this.repo := repo;
    }

    /** `getUserById`: the user with that id, or none. */
    function GetUserById(id: UserId): (r: Option<User>)
      reads repo
      requires repo.Valid()
      ensures r.Some? <==> id < |repo.users|
      ensures r.Some? ==> r.value == repo.users[id] && r.value.id == id
      ensures r.None? ==> forall u :: u in repo.users ==> u.id != id
    {
      repo.FindById(id)
    }

    /** `getUserByGithubId`: the user holding that GitHub id, or none. */
    function GetUserByGithubId(githubId: string): (r: Option<User>)
      reads repo
      ensures r.Some? ==> r.value in repo.users && r.value.githubId == githubId
      ensures r.None? <==> forall u :: u in repo.users ==> u.githubId != githubId
    {
      repo.FindByGithubId(githubId)
    }

    /**
     * `createUser`: a GitHub id already on file is refused with
     * `UserAlreadyExists` and nothing is stored; otherwise the table's own
     * create runs, and a user it stores is then found by its GitHub id.
     */
    method CreateUser(data: UserCreate, now: nat) returns (r: Result<User, Error>)
      requires repo.Valid()
      modifies repo
      ensures repo.Valid()
      ensures r.Err? ==> repo.users == old(repo.users)
      ensures old(repo.FindByGithubId(data.githubId)).Some? ==> r == Err(UserAlreadyExists)
      ensures old(repo.FindByGithubId(data.githubId)).None? ==>
        if !UserSchemaValid(NewUser(|old(repo.users)|, data, now)) then r == Err(ValidationFailed)
        else if KeyTaken(old(repo.users), data) then r == Err(DuplicateKey)
        else r.Ok?
      ensures r.Ok? ==>
        && r.value == NewUser(|old(repo.users)|, data, now)
        && repo.users == old(repo.users) + [r.value]
        && GetUserByGithubId(data.githubId) == Some(r.value)
    {
      var existing := repo.FindByGithubId(data.githubId);
      if existing.Some? {
        return Err(UserAlreadyExists);
      }
      r := repo.Create(data, now);
      if r.Ok? {
        var found := repo.FindByGithubId(data.githubId);
        var n := |repo.users| - 1;
        assert repo.users[n] == r.value;
        assert found.Some?;
        var k :| 0 <= k < |repo.users| && repo.users[k] == found.value;
        assert k == n;
      }
    }

    /** `updateUser`: the table's update of the supplied fields. */
    method UpdateUser(id: UserId, patch: UserPatch) returns (r: Option<User>)
      requires repo.Valid()
      modifies repo
      ensures repo.Valid()
      ensures id >= |old(repo.users)| ==> r.None? && repo.users == old(repo.users)
      ensures id < |old(repo.users)| ==>
        r == Some(Patched(old(repo.users)[id], patch)) && repo.users == old(repo.users)[id := r.value]
    {
      r := repo.Update(id, patch);
    }

    /** `getLeaderboard`: the table's leaderboard with the limit fixed at 10. */
    function GetLeaderboard(college: string): (r: seq<User>)
      reads repo
      ensures r == repo.GetLeaderboard(college, LeaderboardSize)
      ensures |r| <= LeaderboardSize
    {
      repo.GetLeaderboard(college, LeaderboardSize)
    }

    /** `getCollegeUsers`: exactly the active users of that college, each once. */
    function GetCollegeUsers(college: string): (r: seq<User>)
      reads repo
      ensures forall u :: u in r <==> u in repo.users && ActiveIn(u, college)
      ensures forall u :: multiset(r)[u] == if ActiveIn(u, college) then multiset(repo.users)[u] else 0
    {
      repo.FindByCollege(college)
    }

    /** `updateHelpScore`: the table's double increment, passed straight through. */
    method UpdateHelpScore(id: UserId, points: int) returns (r: Option<User>)
      requires repo.Valid()
      modifies repo
      ensures repo.Valid()
      ensures id >= |old(repo.users)| ==> r.None? && repo.users == old(repo.users)
      ensures id < |old(repo.users)| ==>
        r == Some(Adjust(old(repo.users)[id], points)) && repo.users == old(repo.users)[id := r.value]
    {
      r := repo.UpdateHelpScore(id, points);
    }

    /** `getUserProfile`: the same lookup as `getUserById`. */
    function GetUserProfile(id: UserId): (r: Option<User>)
      reads repo
      requires repo.Valid()
      ensures r.Some? <==> id < |repo.users|
      ensures r.Some? ==> r.value == repo.users[id] && r.value.id == id
    {
      repo.FindById(id)
    }
  }
}
