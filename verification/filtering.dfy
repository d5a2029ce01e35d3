/**
 `Array.prototype.filter` and `Array.prototype.findIndex` on sequences: the
 order-preserving subsequence of the elements that satisfy a predicate, and the
 first position of such an element.
 */
module Filtering {
  import opened Wrappers

  /** The first position whose element satisfies `p`, or `None` when there is none. */
  function FirstIndex<T>(s: seq<T>, p: T -> bool): (r: Option<nat>)
    ensures r.Some? ==> r.value < |s| && p(s[r.value])
    ensures r.Some? ==> forall j :: 0 <= j < r.value ==> !p(s[j])
    ensures r.None? ==> forall j :: 0 <= j < |s| ==> !p(s[j])
    decreases |s|
  {
    if |s| == 0 then None
    else if p(s[0]) then Some(0)
    else
      match FirstIndex(s[1..], p)
      case None => None
      case Some(i) => Some(i + 1)
  }

  /** `a` can be obtained from `b` by deleting elements, without reordering. */
  ghost predicate IsSubsequence<T>(a: seq<T>, b: seq<T>)
    decreases |b|
  {
    if |a| == 0 then true
    else if |b| == 0 then false
    else (a[0] == b[0] && IsSubsequence(a[1..], b[1..])) || IsSubsequence(a, b[1..])
  }

  /** The elements of `s` satisfying `p`, in their order in `s`. The multiset
      equation says each satisfying element is kept as often as it occurs, and
      no other element is kept; with the subsequence property this determines
      the result uniquely. */
  function Filter<T(!new)>(s: seq<T>, p: T -> bool): (r: seq<T>)
    ensures |r| <= |s|
    ensures forall x :: x in r <==> x in s && p(x)
    ensures forall x :: multiset(r)[x] == if p(x) then multiset(s)[x] else 0
    ensures IsSubsequence(r, s)
    decreases |s|
  {
    if |s| == 0 then []
    else
      var rest := Filter(s[1..], p);
      assert s == [s[0]] + s[1..];
      if p(s[0]) then [s[0]] + rest else rest
  }

  /** Filtering what has already been filtered keeps it as it is. */
  lemma {:induction false} FilterIdempotent<T(!new)>(s: seq<T>, p: T -> bool)
    ensures Filter(Filter(s, p), p) == Filter(s, p)
    decreases |s|
  {
    if |s| != 0 {
      FilterIdempotent(s[1..], p);
      var rest := Filter(s[1..], p);
      if p(s[0]) {
        assert ([s[0]] + rest)[1..] == rest;
      }
    }
  }

  /** Deleting elements never adds occurrences. */
  lemma {:induction false} SubsequenceMultiset<T>(a: seq<T>, b: seq<T>)
    requires IsSubsequence(a, b)
    ensures multiset(a) <= multiset(b)
    decreases |b|
  {
    if |a| != 0 {
      assert b == [b[0]] + b[1..];
      if a[0] == b[0] && IsSubsequence(a[1..], b[1..]) {
        SubsequenceMultiset(a[1..], b[1..]);
        assert a == [a[0]] + a[1..];
      } else {
        SubsequenceMultiset(a, b[1..]);
      }
    }
  }

  /** `Filter` is the only subsequence of `s` that keeps exactly the satisfying
      elements with their multiplicities. */
  lemma {:induction false} FilterUnique<T(!new)>(s: seq<T>, p: T -> bool, r: seq<T>)
    requires IsSubsequence(r, s)
    requires forall x :: multiset(r)[x] == if p(x) then multiset(s)[x] else 0
    ensures r == Filter(s, p)
    decreases |s|
  {
    if |s| == 0 {
      assert multiset(r) == multiset{};
    } else {
      var h, t := s[0], s[1..];
      assert s == [h] + t;
      if p(h) {
        assert multiset(r)[h] == multiset(t)[h] + 1;
        if |r| != 0 && r[0] == h && IsSubsequence(r[1..], t) {
          assert r == [h] + r[1..];
          assert forall x :: multiset(r[1..])[x] == if p(x) then multiset(t)[x] else 0 by {
            forall x ensures multiset(r[1..])[x] == if p(x) then multiset(t)[x] else 0 {
              assert multiset(r) == multiset{h} + multiset(r[1..]);
            }
          }
          FilterUnique(t, p, r[1..]);
        } else {
          assert |r| != 0;
          SubsequenceMultiset(r, t);
          assert false;
        }
      } else {
        assert multiset(r)[h] == 0;
        if |r| != 0 && r[0] == h {
          assert false;
        }
        assert IsSubsequence(r, t);
        assert forall x :: multiset(r)[x] == if p(x) then multiset(t)[x] else 0 by {
          forall x ensures multiset(r)[x] == if p(x) then multiset(t)[x] else 0 {
            if x == h {
            } else {
              assert multiset(s)[x] == multiset(t)[x];
            }
          }
        }
        FilterUnique(t, p, r);
      }
    }
  }
}
