/** Optional values and the first-match search that Kotlin's `find` / `firstOrNull`
    and a `LIMIT 1` query perform over a list. */
module Lookup {

  /** Kotlin's nullable `T?`. */
  datatype Option<+T> = None | Some(value: T) {
    /** Kotlin's elvis operator `x ?: default`. */
    function GetOr(default: T): T {
      match this
      case Some(v) => v
      case None => default
    }
  }

  /** Index of the first element of `s` satisfying `p`, or None when none does. */
  function FirstIndex<T>(s: seq<T>, p: T -> bool): (r: Option<nat>)
    ensures r.Some? ==> r.value < |s| && p(s[r.value])
    ensures r.Some? ==> forall j :: 0 <= j < r.value ==> !p(s[j])
    ensures r.None? <==> forall j :: 0 <= j < |s| ==> !p(s[j])
  {
    if |s| == 0 then None
    else if p(s[0]) then Some(0)
    else
      match FirstIndex(s[1..], p)
      case None => None
      case Some(k) => Some(k + 1)
  }

  /** Kotlin's `s.find(p)`: the first element satisfying `p`, in list order. */
  function Find<T>(s: seq<T>, p: T -> bool): (r: Option<T>)
    ensures r.Some? ==> r.value in s && p(r.value)
    ensures r.Some? ==> exists i :: 0 <= i < |s| && s[i] == r.value && forall j :: 0 <= j < i ==> !p(s[j])
    ensures r.None? <==> forall j :: 0 <= j < |s| ==> !p(s[j])
  {
    match FirstIndex(s, p)
    case None => None
    case Some(i) => Some(s[i])
  }

  /** The elements of `s` satisfying `p`, in list order (a `WHERE` query without `ORDER BY`). */
  function Filter<T>(s: seq<T>, p: T -> bool): (r: seq<T>)
    ensures |r| <= |s|
    ensures forall i :: 0 <= i < |r| ==> r[i] in s && p(r[i])
    ensures forall i :: 0 <= i < |s| && p(s[i]) ==> s[i] in r
  {
    if |s| == 0 then []
    else if p(s[0]) then [s[0]] + Filter(s[1..], p)
    else Filter(s[1..], p)
  }


  /** `find` looks at the head first, then searches the tail. */
  lemma FindCons<T>(s: seq<T>, p: T -> bool)
    requires |s| > 0
    ensures Find(s, p) == if p(s[0]) then Some(s[0]) else Find(s[1..], p)
  {
  }

  /** Searching a filtered list for `q` is searching the whole list for `p` and `q` together. */
  lemma {:induction false} FindInFilter<T>(s: seq<T>, p: T -> bool, q: T -> bool, pq: T -> bool)
    requires forall x :: pq(x) == (p(x) && q(x))
    ensures Find(Filter(s, p), q) == Find(s, pq)
    decreases |s|
  {
    if |s| > 0 {
      FindInFilter(s[1..], p, q, pq);
      FindCons(s, pq);
      if p(s[0]) {
        var f := Filter(s, p);
        assert f == [s[0]] + Filter(s[1..], p);
        assert f[1..] == Filter(s[1..], p);
        FindCons(f, q);
      }
    }
  }

  /** Removing the element at `j` leaves the search unchanged when that element does not match,
      or when an earlier one already does. */
  lemma {:induction false} FindWithout<T>(s: seq<T>, p: T -> bool, j: nat)
    requires j < |s|
    requires !p(s[j]) || exists k :: 0 <= k < j && p(s[k])
    ensures Find(s[..j] + s[j + 1..], p) == Find(s, p)
    decreases j
  {
    var t := s[..j] + s[j + 1..];
    FindCons(s, p);
    if j == 0 {
      assert t == s[1..];
    } else {
      assert t[0] == s[0];
      FindCons(t, p);
      if !p(s[0]) {
        var u := s[1..];
        assert t[1..] == u[..j - 1] + u[j..];
        if !p(s[j]) {
          assert u[j - 1] == s[j];
        } else {
          var k :| 0 <= k < j && p(s[k]);
          assert k > 0 && u[k - 1] == s[k];
        }
        FindWithout(u, p, j - 1);
      }
    }
  }
}
