/**
 * The user table. A user's id is its position: ids are handed out in order
 * and users are never deleted.
 */
module UserRepo {
  import opened Wrappers
  import opened Errors
  import opened UserModel
  import opened Queries

  /** Key of the leaderboard order. */
  function KarmaOf(u: User): int {
    u.karmaPoints
  }

  /** The leaderboard and college filter: members of that college whose account is active. */
  predicate ActiveIn(u: User, college: string) {
    u.college == college && u.isActive
  }

  class UserRepository {
    var users: seq<User>

    ghost predicate Valid()
      reads this
    {
      && (forall i :: 0 <= i < |users| ==> users[i].id == i)
      && UniqueKeys(users)
    }

    constructor ()
      ensures Valid() && users == []
    {
      users := [];
    }

    /** `findById`: the user with that id, or none for an unknown id. */
    function FindById(id: UserId): (r: Option<User>)
      reads this
      requires Valid()
      ensures r.Some? ==> r.value in users && r.value.id == id
      ensures r.None? ==> forall u :: u in users ==> u.id != id
      ensures r.Some? <==> id < |users|
      ensures r.Some? ==> r.value == users[id]
    {
      if id < |users| then Some(users[id]) else None
    }

    /** `findByGithubId`: the user holding that GitHub id, or none. */
    function FindByGithubId(githubId: string): (r: Option<User>)
      reads this
      ensures r.Some? ==> r.value in users && r.value.githubId == githubId
      ensures r.None? <==> forall u :: u in users ==> u.githubId != githubId
    {
      FindFirst(users, (u: User) => u.githubId == githubId)
    }

    /** `findByEmail`: the user holding that e-mail address, or none. */
    function FindByEmail(email: string): (r: Option<User>)
      reads this
      ensures r.Some? ==> r.value in users && r.value.email == email
      ensures r.None? <==> forall u :: u in users ==> u.email != email
    {
      FindFirst(users, (u: User) => u.email == email)
    }

    /** `findByUsername`: the user holding that user name, or none. */
    function FindByUsername(username: string): (r: Option<User>)
      reads this
      ensures r.Some? ==> r.value in users && r.value.username == username
      ensures r.None? <==> forall u :: u in users ==> u.username != username
    {
      FindFirst(users, (u: User) => u.username == username)
    }

    /**
     * `create`: the schema is checked first (`ValidationFailed`), then the
     * unique indexes (`DuplicateKey`); on success exactly one user is appended.
     */
    method Create(data: UserCreate, now: nat) returns (r: Result<User, Error>)
      requires Valid()
      modifies this
      ensures Valid()
      ensures !UserSchemaValid(NewUser(|old(users)|, data, now)) ==>
        r == Err(ValidationFailed) && users == old(users)
      ensures UserSchemaValid(NewUser(|old(users)|, data, now)) && KeyTaken(old(users), data) ==>
        r == Err(DuplicateKey) && users == old(users)
      ensures UserSchemaValid(NewUser(|old(users)|, data, now)) && !KeyTaken(old(users), data) ==>
        r == Ok(NewUser(|old(users)|, data, now)) && users == old(users) + [r.value]
    {
      var u := NewUser(|users|, data, now);
      if !UserSchemaValid(u) {
        return Err(ValidationFailed);
      }
      if KeyTaken(users, data) {
        return Err(DuplicateKey);
      }
      users := users + [u];
      r := Ok(u);
    }

    /** `update`: overwrites the supplied fields of one user; none for an unknown id. */
    method Update(id: UserId, patch: UserPatch) returns (r: Option<User>)
      requires Valid()
      modifies this
      ensures Valid()
      ensures id >= |old(users)| ==> r.None? && users == old(users)
      ensures id < |old(users)| ==>
        r == Some(Patched(old(users)[id], patch)) && users == old(users)[id := r.value]
    {
      if id >= |users| {
        return None;
      }
      var u := Patched(users[id], patch);
      users := users[id := u];
      r := Some(u);
    }

    /**
     * `updateHelpScore`: one increment of both counters by `points`, with no
     * floor; every other field and every other user is left alone.
     */
    method UpdateHelpScore(id: UserId, points: int) returns (r: Option<User>)
      requires Valid()
      modifies this
      ensures Valid()
      ensures id >= |old(users)| ==> r.None? && users == old(users)
      ensures id < |old(users)| ==>
        r == Some(Adjust(old(users)[id], points)) && users == old(users)[id := r.value]
    {
      if id >= |users| {
        return None;
      }
      var u := Adjust(users[id], points);
      users := users[id := u];
      r := Some(u);
    }

    /**
     * `getLeaderboard`: the active users of one college, highest karma first,
     * at most `limit` of them, and nobody left out outranks anybody listed.
     */
    function GetLeaderboard(college: string, limit: nat := 10): (r: seq<User>)
      reads this
      ensures forall u :: u in r ==> u in users && ActiveIn(u, college)
      ensures SortedDesc(r, KarmaOf)
      ensures limit > 0 ==> |r| <= limit
      ensures forall u :: u in users && ActiveIn(u, college) && u !in r ==> limit > 0 && |r| == limit
      ensures forall u, i :: 0 <= i < |r| && u in users && ActiveIn(u, college) && u !in r ==>
        KarmaOf(u) <= KarmaOf(r[i])
      ensures multiset(r) <= multiset(users)
    {
      Page(users, (u: User) => ActiveIn(u, college), KarmaOf, limit)
    }

    /** `findByCollege`: exactly the active users of that college, each once, in stored order. */
    function FindByCollege(college: string): (r: seq<User>)
      reads this
      ensures forall u :: u in r <==> u in users && ActiveIn(u, college)
      ensures forall u :: multiset(r)[u] == if ActiveIn(u, college) then multiset(users)[u] else 0
    {
      var r := Filter(users, (u: User) => ActiveIn(u, college));
      forall u ensures u in r <==> u in users && ActiveIn(u, college) {
        FilterMembers(users, (u: User) => ActiveIn(u, college), u);
      }
      r
    }

    /** Ids are positions, so no user is stored twice. */
    lemma StoredDistinct()
      requires Valid()
      ensures Distinct(users)
    {
      forall i, j | 0 <= i < j < |users| ensures users[i] != users[j] {
        assert users[i].id != users[j].id;
      }
    }

    /** No query returns a user twice. */
    lemma QueriesDistinct(college: string, limit: nat)
      requires Valid()
      ensures Distinct(GetLeaderboard(college, limit)) && Distinct(FindByCollege(college))
    {
      StoredDistinct();
      SubDistinct(GetLeaderboard(college, limit), users);
      SubDistinct(FindByCollege(college), users);
    }
  }
}
