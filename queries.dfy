/**
 * The shape shared by every read of the repositories: select the documents a
 * filter matches, sort them by one numeric field in descending order, and keep
 * at most `limit` of them (MongoDB's `find(...).sort({f: -1}).limit(n)`).
 */
module Queries {
  import opened Wrappers

  /** Non-increasing in `key`: the order of `.sort({ key: -1 })`. */
  predicate SortedDesc<T>(s: seq<T>, key: T -> int) {
    forall i, j :: 0 <= i < j < |s| ==> key(s[i]) >= key(s[j])
  }

  /** The documents of `s` that match `p`, in stored order. */
  function Filter<T(!new)>(s: seq<T>, p: T -> bool): (r: seq<T>)
    ensures |r| <= |s|
    ensures forall x :: multiset(r)[x] == if p(x) then multiset(s)[x] else 0
  {
    if s == [] then []
    else
      assert s == [s[0]] + s[1..];
      (if p(s[0]) then [s[0]] else []) + Filter(s[1..], p)
  }

  /** What `Filter` keeps is exactly the members of `s` that match. */
  lemma FilterMembers<T(!new)>(s: seq<T>, p: T -> bool, x: T)
    ensures x in Filter(s, p) <==> x in s && p(x)
  {
    assert x in Filter(s, p) <==> multiset(Filter(s, p))[x] > 0;
    assert x in s <==> multiset(s)[x] > 0;
  }

  /** Places `x` in front of the first element whose key does not exceed its own. */
  function Insert<T>(x: T, s: seq<T>, key: T -> int): (r: seq<T>)
    ensures multiset(r) == multiset(s) + multiset{x}
    ensures SortedDesc(s, key) ==> SortedDesc(r, key)
  {
    if s == [] || key(x) >= key(s[0]) then
      if SortedDesc(s, key) then
        forall i | 0 <= i < |s| ensures key(s[i]) <= key(x) {
          assert key(s[i]) <= key(s[0]);
        }
        LeadSorted(x, s, key);
        [x] + s
      else
        [x] + s
    else
      var rest := Insert(x, s[1..], key);
      assert s == [s[0]] + s[1..];
      if SortedDesc(s, key) then
        ConsSorted(s[0], x, s[1..], rest, key);
        [s[0]] + rest
      else
        [s[0]] + rest
  }

  /** A head no smaller than anything in a sorted `t` keeps it sorted. */
  lemma LeadSorted<T>(h: T, t: seq<T>, key: T -> int)
    requires SortedDesc(t, key)
    requires forall i :: 0 <= i < |t| ==> key(t[i]) <= key(h)
    ensures SortedDesc([h] + t, key)
  {
    var r := [h] + t;
    forall i, j | 0 <= i < j < |r| ensures key(r[i]) >= key(r[j]) {
      assert r[j] == t[j - 1];
      if i > 0 {
        assert r[i] == t[i - 1];
      }
    }
  }

  /**
   * A head no smaller than `x` and than everything of a sorted `t` may lead
   * any sorted rearrangement of `t` with `x` added.
   */
  lemma ConsSorted<T>(h: T, x: T, t: seq<T>, rest: seq<T>, key: T -> int)
    requires SortedDesc([h] + t, key) && key(x) < key(h)
    requires SortedDesc(rest, key) && multiset(rest) == multiset(t) + multiset{x}
    ensures SortedDesc([h] + rest, key)
  {
    forall i | 0 <= i < |rest| ensures key(rest[i]) <= key(h) {
      var y := rest[i];
      assert multiset(rest)[y] > 0;
      if y != x {
        assert y in t;
        var j :| 0 <= j < |t| && t[j] == y;
        assert ([h] + t)[0] == h && ([h] + t)[j + 1] == y;
      }
    }
    LeadSorted(h, rest, key);
  }

  /** Insertion sort by descending key: a sorted permutation of the input. */
  function SortDesc<T>(s: seq<T>, key: T -> int): (r: seq<T>)
    ensures multiset(r) == multiset(s)
    ensures |r| == |s|
    ensures SortedDesc(r, key)
  {
    if s == [] then []
    else
      assert s == [s[0]] + s[1..];
      Insert(s[0], SortDesc(s[1..], key), key)
  }

  /** `.limit(n)`: the first `n` elements, where MongoDB reads a limit of 0 as "no limit". */
  function Take<T>(s: seq<T>, n: nat): (r: seq<T>)
    ensures n == 0 ==> r == s
    ensures n > 0 ==> |r| == if |s| <= n then |s| else n
    ensures r == s[..|r|]
  {
    if n == 0 || |s| <= n then s else s[..n]
  }

  /**
   * `.sort({ key: -1 }).limit(n)`: at most `n` elements (all of them when `n`
   * is 0), in non-increasing key order, taken from `s`, and such that every
   * element of `s` left out has a key no larger than any element kept.
   */
  function Top<T(!new)>(s: seq<T>, key: T -> int, n: nat): (r: seq<T>)
    ensures SortedDesc(r, key)
    ensures multiset(r) <= multiset(s)
    ensures n == 0 || |s| <= n ==> multiset(r) == multiset(s)
    ensures |r| == if n == 0 || |s| <= n then |s| else n
    ensures forall x, i :: 0 <= i < |r| && multiset(r)[x] < multiset(s)[x] ==> key(x) <= key(r[i])
  {
    var t := SortDesc(s, key);
    var r := Take(t, n);
    TakeKeepsLargest(t, key, |r|);
    r
  }

  /**
   * What `Top` keeps, stated on members: only elements of `s`; an element of
   * `s` is left out only when the page is full, and then it is no larger than
   * anything kept.
   */
  lemma TopMembers<T(!new)>(s: seq<T>, key: T -> int, n: nat)
    ensures forall x :: x in Top(s, key, n) ==> x in s
    ensures forall x :: x in s && x !in Top(s, key, n) ==> n > 0 && |Top(s, key, n)| == n
    ensures forall x, i :: 0 <= i < |Top(s, key, n)| && x in s && x !in Top(s, key, n) ==>
      key(x) <= key(Top(s, key, n)[i])
  {
    var r := Top(s, key, n);
    assert forall x :: x in r <==> multiset(r)[x] > 0;
    assert forall x :: x in s <==> multiset(s)[x] > 0;
  }

  /**
   * `find(p).sort({ key: -1 }).limit(n)`: only matching elements of `s`, in
   * non-increasing key order, at most `n` of them (all when `n` is 0); a
   * matching element is left out only when the page is full, and then its key
   * is no larger than that of anything on the page.
   */
  function Page<T(!new)>(s: seq<T>, p: T -> bool, key: T -> int, n: nat): (r: seq<T>)
    ensures forall x :: x in r ==> x in s && p(x)
    ensures SortedDesc(r, key)
    ensures n > 0 ==> |r| <= n
    ensures forall x :: x in s && p(x) && x !in r ==> n > 0 && |r| == n
    ensures forall x, i :: 0 <= i < |r| && x in s && p(x) && x !in r ==> key(x) <= key(r[i])
    ensures multiset(r) <= multiset(s)
    ensures n == 0 ==> forall x :: multiset(r)[x] == if p(x) then multiset(s)[x] else 0
  {
    var f := Filter(s, p);
    TopMembers(f, key, n);
    forall x ensures x in f <==> x in s && p(x) {
      FilterMembers(s, p, x);
    }
    PageCounts(s, p, key, n);
    Top(f, key, n)
  }

  /** A page draws each document at most as often as it is stored; with no limit, exactly as often when it matches. */
  lemma PageCounts<T(!new)>(s: seq<T>, p: T -> bool, key: T -> int, n: nat)
    ensures multiset(Top(Filter(s, p), key, n)) <= multiset(s)
    ensures n == 0 ==> forall x :: multiset(Top(Filter(s, p), key, n))[x] == if p(x) then multiset(s)[x] else 0
  {
    var f := Filter(s, p);
    assert multiset(f) <= multiset(s) by {
      forall x ensures multiset(f)[x] <= multiset(s)[x] {
      }
    }
  }

  /** In a sorted sequence, everything past a cut is no larger than anything before it. */
  lemma TakeKeepsLargest<T>(t: seq<T>, key: T -> int, k: nat)
    requires k <= |t| && SortedDesc(t, key)
    ensures multiset(t[..k]) <= multiset(t)
    ensures forall x, i :: 0 <= i < k && multiset(t[..k])[x] < multiset(t)[x] ==> key(x) <= key(t[..k][i])
  {
    assert t == t[..k] + t[k..];
    forall x, i | 0 <= i < k && multiset(t[..k])[x] < multiset(t)[x]
      ensures key(x) <= key(t[..k][i])
    {
      assert multiset(t[k..])[x] > 0;
      var j :| k <= j < |t| && t[j] == x by {
        assert x in t[k..];
      }
      assert t[..k][i] == t[i];
    }
  }

  /** `findOne`: the first document matching `p`, or none when no document matches. */
  function FindFirst<T>(s: seq<T>, p: T -> bool): (r: Option<T>)
    ensures r.Some? ==> r.value in s && p(r.value)
    ensures r.None? <==> forall x :: x in s ==> !p(x)
  {
    if s == [] then None
    else if p(s[0]) then Some(s[0])
    else
      assert forall x :: x in s ==> x == s[0] || x in s[1..];
      FindFirst(s[1..], p)
  }

  /** No element occurs twice. */
  predicate Distinct<T(==)>(s: seq<T>) {
    forall i, j :: 0 <= i < j < |s| ==> s[i] != s[j]
  }

  /** In a sequence without repeats every element is counted at most once. */
  lemma {:induction false} DistinctAtMostOnce<T>(s: seq<T>, x: T)
    requires Distinct(s)
    ensures multiset(s)[x] <= 1
  {
    if s != [] {
      assert s == [s[0]] + s[1..];
      assert Distinct(s[1..]) by {
        forall i, j | 0 <= i < j < |s| - 1 ensures s[1..][i] != s[1..][j] {
          assert s[1..][i] == s[i + 1] && s[1..][j] == s[j + 1];
        }
      }
      DistinctAtMostOnce(s[1..], x);
      if s[0] == x {
        assert x !in s[1..] by {
          forall j | 0 <= j < |s| - 1 ensures s[1..][j] != x {
            assert s[1..][j] == s[j + 1];
          }
        }
      }
    }
  }

  /** An element at two positions is counted at least twice. */
  lemma RepeatCounted<T>(s: seq<T>, i: nat, j: nat)
    requires i < j < |s| && s[i] == s[j]
    ensures multiset(s)[s[i]] >= 2
  {
    assert s == s[..i] + [s[i]] + s[i + 1..j] + [s[j]] + s[j + 1..];
  }

  /** Whatever is drawn from a sequence without repeats has none either. */
  lemma SubDistinct<T>(r: seq<T>, s: seq<T>)
    requires multiset(r) <= multiset(s) && Distinct(s)
    ensures Distinct(r)
  {
    forall i, j | 0 <= i < j < |r| ensures r[i] != r[j] {
      if r[i] == r[j] {
        RepeatCounted(r, i, j);
        DistinctAtMostOnce(s, r[i]);
      }
    }
  }
}
