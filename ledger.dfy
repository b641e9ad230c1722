/**
 * Bookkeeping of karma points: the sum of all balances, and the credits a
 * requester has paid for requests that are still open or in progress.
 */
module Ledger {
  import opened UserModel
  import opened RequestModel
  import opened UserRepo

  function Sum<T>(s: seq<T>, f: T -> int): int {
    if s == [] then 0 else Sum(s[..|s| - 1], f) + f(s[|s| - 1])
  }

  lemma SumAppend<T>(s: seq<T>, x: T, f: T -> int)
    ensures Sum(s + [x], f) == Sum(s, f) + f(x)
  {
    assert (s + [x])[..|s|] == s;
  }

  /** Replacing one element changes the sum by the difference of the two values. */
  lemma {:induction false} SumUpdate<T>(s: seq<T>, i: nat, x: T, f: T -> int)
    requires i < |s|
    ensures Sum(s[i := x], f) == Sum(s, f) - f(s[i]) + f(x)
  {
    var n := |s| - 1;
    if i == n {
      assert s[i := x][..n] == s[..n];
    } else {
      SumUpdate(s[..n], i, x, f);
      assert s[i := x][..n] == s[..n][i := x];
    }
  }

  /** The credits a request holds: paid at creation, released on completion or cancellation. */
  function Held(q: Request): int {
    if q.status == Open || q.status == InProgress then q.helpCredits else 0
  }

  function TotalKarma(users: seq<User>): int {
    Sum(users, KarmaOf)
  }

  function Escrow(requests: seq<Request>): int {
    Sum(requests, Held)
  }

  /** Points in circulation: every balance plus every credit held by a live request. */
  function Supply(users: seq<User>, requests: seq<Request>): int {
    TotalKarma(users) + Escrow(requests)
  }

  /** One increment of one user's counters moves the total by exactly that amount. */
  lemma TotalKarmaAdjust(users: seq<User>, i: nat, points: int)
    requires i < |users|
    ensures TotalKarma(users[i := Adjust(users[i], points)]) == TotalKarma(users) + points
  {
    SumUpdate(users, i, Adjust(users[i], points), KarmaOf);
  }

  /** A new request adds what it holds; an update changes the escrow by the difference. */
  lemma EscrowChange(requests: seq<Request>, i: nat, q: Request)
    requires i <= |requests|
    ensures i == |requests| ==> Escrow(requests + [q]) == Escrow(requests) + Held(q)
    ensures i < |requests| ==> Escrow(requests[i := q]) == Escrow(requests) - Held(requests[i]) + Held(q)
  {
    if i == |requests| {
      SumAppend(requests, q, Held);
    } else {
      SumUpdate(requests, i, q, Held);
    }
  }
}
