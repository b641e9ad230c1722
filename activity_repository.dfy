/** The append-only activity log and its bounded, newest-first reads. */
module ActivityRepo {
  import opened Wrappers
  import opened Errors
  import opened UserModel
  import opened ActivityModel
  import opened Queries

  /** Key of the newest-first order. */
  function CreatedAtOf(a: Activity): int {
    a.createdAt
  }

  class ActivityRepository {
    var log: seq<Activity>

    ghost predicate Valid()
      reads this
    {
      forall i :: 0 <= i < |log| ==> log[i].id == i && ActivitySchemaValid(log[i])
    }

    constructor ()
      ensures Valid() && log == []
    {
      log := [];
    }

    /** `create`: appends exactly one entry; the entries already there are untouched. */
    method Create(data: ActivityCreate, now: nat) returns (r: Result<Activity, Error>)
      requires Valid()
      modifies this
      ensures Valid()
      ensures !ActivitySchemaValid(NewActivity(|old(log)|, data, now)) ==>
        r == Err(ValidationFailed) && log == old(log)
      ensures ActivitySchemaValid(NewActivity(|old(log)|, data, now)) ==>
        r == Ok(NewActivity(|old(log)|, data, now)) && log == old(log) + [r.value]
    {
      var a := NewActivity(|log|, data, now);
      if !ActivitySchemaValid(a) {
        return Err(ValidationFailed);
      }
      log := log + [a];
      r := Ok(a);
    }

    /**
     * `findByUser`: entries of that user only, newest first, at most `limit`;
     * an entry of the user is left out only when the page is full and the
     * entry is no newer than anything on it.
     */
    function FindByUser(user: UserId, limit: nat := 20): (r: seq<Activity>)
      reads this
      ensures forall a :: a in r ==> a in log && a.user == user
      ensures SortedDesc(r, CreatedAtOf)
      ensures limit > 0 ==> |r| <= limit
      ensures forall a :: a in log && a.user == user && a !in r ==> limit > 0 && |r| == limit
      ensures forall a, i :: 0 <= i < |r| && a in log && a.user == user && a !in r ==>
        CreatedAtOf(a) <= CreatedAtOf(r[i])
      ensures multiset(r) <= multiset(log)
    {
      Page(log, (a: Activity) => a.user == user, CreatedAtOf, limit)
    }

    /**
     * `findRecent`: the newest `limit` entries of the whole log, newest first;
     * an entry is left out only when the page is full and it is no newer than
     * anything on it.
     */
    function FindRecent(limit: nat := 50): (r: seq<Activity>)
      reads this
      ensures forall a :: a in r ==> a in log
      ensures SortedDesc(r, CreatedAtOf)
      ensures limit > 0 ==> |r| <= limit
      ensures forall a :: a in log && a !in r ==> limit > 0 && |r| == limit
      ensures forall a, i :: 0 <= i < |r| && a in log && a !in r ==> CreatedAtOf(a) <= CreatedAtOf(r[i])
      ensures multiset(r) <= multiset(log)
    {
      var r := Top(log, CreatedAtOf, limit);
      TopMembers(log, CreatedAtOf, limit);
      r
    }

    /**
     * `findByCollege`: the college only narrows the joined user document, not
     * the entries, so the page is the same as `findRecent` with that limit.
     */
    function FindByCollege(college: string, limit: nat := 50): (r: seq<Activity>)
      reads this
      ensures r == FindRecent(limit)
      ensures limit > 0 ==> |r| <= limit
      ensures SortedDesc(r, CreatedAtOf)
    {
      FindRecent(limit)
    }

    /** Ids are positions, so no entry is stored twice. */
    lemma StoredDistinct()
      requires Valid()
      ensures Distinct(log)
    {
      forall i, j | 0 <= i < j < |log| ensures log[i] != log[j] {
        assert log[i].id != log[j].id;
      }
    }

    /** No query returns an entry twice. */
    lemma QueriesDistinct(user: UserId, limit: nat)
      requires Valid()
      ensures Distinct(FindByUser(user, limit)) && Distinct(FindRecent(limit))
    {
      StoredDistinct();
      SubDistinct(FindByUser(user, limit), log);
      SubDistinct(FindRecent(limit), log);
    }
  }
}
