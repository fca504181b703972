/** Python's `sorted` as the decomposition encoder uses it: on a set of
    integers, and on a list of integer 3-tuples ordered lexicographically. */
module Sorting {

  // ---------------------------------------------------------------------
  // sorted(set(xs)) on integers
  // ---------------------------------------------------------------------

  predicate StrictlyIncreasing(s: seq<nat>) {
    forall j, k :: 0 <= j < k < |s| ==> s[j] < s[k]
  }

  /** Adds x to an ascending, duplicate-free list, keeping it so. */
  function InsertUnique(x: nat, s: seq<nat>): (r: seq<nat>)
    requires StrictlyIncreasing(s)
    ensures StrictlyIncreasing(r)
    ensures forall v :: v in r <==> v == x || v in s
  {
    if s == [] then [x]
    else if x < s[0] then [x] + s
    else if x == s[0] then s
    else
      var rest := InsertUnique(x, s[1..]);
      assert forall k :: 0 <= k < |rest| ==> s[0] < rest[k] by {
        forall k | 0 <= k < |rest| ensures s[0] < rest[k] {
          assert rest[k] in rest;
        }
      }
      [s[0]] + rest
  }

  /** sorted(set(xs)): the distinct values of xs in ascending order. */
  function SortedSet(xs: seq<nat>): (r: seq<nat>)
    ensures StrictlyIncreasing(r)
    ensures forall v :: v in r <==> v in xs
  {
    if xs == [] then [] else InsertUnique(xs[|xs| - 1], SortedSet(xs[..|xs| - 1]))
  }

  lemma NonEmptyTogether(s: seq<nat>, t: seq<nat>)
    requires forall v :: v in s <==> v in t
    ensures s != [] ==> t != []
  {
    if s != [] {
      assert s[0] in t;
    }
  }

  /** An ascending duplicate-free list is determined by its elements, so
      SortedSet is exactly what `sorted(set(...))` produces. */
  lemma {:induction false} StrictlyIncreasingUnique(s: seq<nat>, t: seq<nat>)
    requires StrictlyIncreasing(s) && StrictlyIncreasing(t)
    requires forall v :: v in s <==> v in t
    ensures s == t
  {
    NonEmptyTogether(s, t);
    NonEmptyTogether(t, s);
    if s != [] {
      assert s[0] == t[0] by {
        assert s[0] in t && t[0] in s;
      }
      SameTails(s, t);
      SameTails(t, s);
      StrictlyIncreasingUnique(s[1..], t[1..]);
      assert s == [s[0]] + s[1..] && t == [t[0]] + t[1..];
    }
  }

  /** Past a common first element, every later element of s is a later
      element of t. */
  lemma SameTails(s: seq<nat>, t: seq<nat>)
    requires StrictlyIncreasing(s) && StrictlyIncreasing(t)
    requires forall v :: v in s <==> v in t
    requires s != [] && t != [] && s[0] == t[0]
    ensures forall v :: v in s[1..] ==> v in t[1..]
  {
    forall v | v in s[1..] ensures v in t[1..] {
      var k :| 0 <= k < |s| - 1 && s[1..][k] == v;
      assert s[k + 1] == v && v in t;
      var j :| 0 <= j < |t| && t[j] == v;
      assert j != 0;
      assert t[1..][j - 1] == v;
    }
  }

  // ---------------------------------------------------------------------
  // sorted(...) on 3-tuples of integers
  // ---------------------------------------------------------------------

  datatype Triple = Triple(first: nat, second: nat, third: nat)

  /** Python's tuple comparison `x <= y`. */
  predicate TupleLe(x: Triple, y: Triple) {
    x.first < y.first ||
    (x.first == y.first && (x.second < y.second || (x.second == y.second && x.third <= y.third)))
  }

  predicate SortedTriples(s: seq<Triple>) {
    forall j, k :: 0 <= j < k < |s| ==> TupleLe(s[j], s[k])
  }

  function InsertTriple(x: Triple, s: seq<Triple>): (r: seq<Triple>)
    requires SortedTriples(s)
    ensures SortedTriples(r)
    ensures forall y :: y in r <==> y == x || y in s
    ensures multiset(r) == multiset(s) + multiset{x}
  {
    if s == [] then [x]
    else if TupleLe(x, s[0]) then [x] + s
    else
      assert s == [s[0]] + s[1..];
      var rest := InsertTriple(x, s[1..]);
      assert forall k :: 0 <= k < |rest| ==> TupleLe(s[0], rest[k]) by {
        forall k | 0 <= k < |rest| ensures TupleLe(s[0], rest[k]) {
          assert rest[k] in rest;
        }
      }
      [s[0]] + rest
  }

  /** sorted(xs) for a list of 3-tuples. */
  function SortTriples(xs: seq<Triple>): (r: seq<Triple>)
    ensures SortedTriples(r)
    ensures multiset(r) == multiset(xs)
  {
    if xs == [] then []
    else
      assert xs == xs[..|xs| - 1] + [xs[|xs| - 1]];
      InsertTriple(xs[|xs| - 1], SortTriples(xs[..|xs| - 1]))
  }

  /** Two sorted lists with the same elements start with the same one. */
  lemma SortedHeads(s: seq<Triple>, t: seq<Triple>)
    requires SortedTriples(s) && SortedTriples(t)
    requires multiset(s) == multiset(t) && s != []
    ensures t != [] && s[0] == t[0]
  {
    assert s[0] in multiset(t);
    var j :| 0 <= j < |t| && t[j] == s[0];
    assert t[0] in multiset(s);
    var k :| 0 <= k < |s| && s[k] == t[0];
    assert TupleLe(t[0], t[j]) && TupleLe(s[0], s[k]);
  }

  /** Tuple order is total, so a sorted list is determined by its multiset:
      SortTriples agrees with any stable or unstable sort of the same list. */
  lemma {:induction false} SortedTriplesUnique(s: seq<Triple>, t: seq<Triple>)
    requires SortedTriples(s) && SortedTriples(t)
    requires multiset(s) == multiset(t)
    ensures s == t
  {
    if s != [] {
      SortedHeads(s, t);
      assert s == [s[0]] + s[1..] && t == [t[0]] + t[1..];
      assert multiset(s[1..]) == multiset(s) - multiset{s[0]};
      assert multiset(t[1..]) == multiset(t) - multiset{t[0]};
      assert multiset(s[1..]) == multiset(t[1..]);
      SortedTriplesUnique(s[1..], t[1..]);
    } else {
      assert |t| == |multiset(t)|;
    }
  }
}
