/** Queries over rows: selection in order, and stable sorting by a total preorder. */
module Sorting {

  /** The elements that satisfy `p`, in order. */
  function Select<T(!new)>(s: seq<T>, p: T -> bool): (r: seq<T>)
    ensures forall x :: x in r <==> x in s && p(x)
    ensures |r| <= |s|
  {
    if s == [] then []
    else if p(s[0]) then [s[0]] + Select(s[1..], p)
    else Select(s[1..], p)
  }

  lemma {:induction false} SelectConcat<T(!new)>(s: seq<T>, t: seq<T>, p: T -> bool)
    ensures Select(s + t, p) == Select(s, p) + Select(t, p)
  {
    if s == [] {
      assert s + t == t;
    } else {
      assert (s + t)[1..] == s[1..] + t;
      SelectConcat(s[1..], t, p);
    }
  }

  /** Selecting twice is selecting once by the stronger condition. */
  lemma {:induction false} SelectTwice<T(!new)>(s: seq<T>, p: T -> bool, q: T -> bool)
    requires forall x <- s :: q(x) ==> p(x)
    ensures Select(Select(s, p), q) == Select(s, q)
  {
    if s != [] {
      SelectTwice(s[1..], p, q);
      if p(s[0]) {
        assert Select(s, p)[1..] == Select(s[1..], p);
      }
    }
  }

  /** What holds of every two selected rows of a table holds of every two elements of the selection. */
  lemma {:induction false} SelectPairs<T(!new)>(s: seq<T>, p: T -> bool, related: (T, T) -> bool)
    requires forall i, j :: 0 <= i < j < |s| && p(s[i]) && p(s[j]) ==> related(s[i], s[j])
    ensures forall i, j :: 0 <= i < j < |Select(s, p)| ==> related(Select(s, p)[i], Select(s, p)[j])
  {
    if s != [] {
      var rest := s[1..];
      SelectPairs(rest, p, related);
      if p(s[0]) {
        forall y <- Select(rest, p) ensures related(s[0], y) {
          var j :| 0 <= j < |rest| && rest[j] == y;
          assert s[j + 1] == y;
        }
      }
    }
  }

  /** Every selected element is preceded, in the source, by all those selected before it. */
  lemma {:induction false} SelectKeepsOrder<T(!new)>(s: seq<T>, p: T -> bool, le: (T, T) -> bool)
    requires Sorted(s, le)
    ensures Sorted(Select(s, p), le)
  {
    if s != [] {
      SelectKeepsOrder(s[1..], p, le);
      var rest := Select(s[1..], p);
      forall y | y in rest ensures le(s[0], y) {
        assert y in s[1..];
      }
    }
  }

  function Map<T, U>(s: seq<T>, f: T -> U): (r: seq<U>)
    ensures |r| == |s|
  {
    if s == [] then [] else [f(s[0])] + Map(s[1..], f)
  }

  /** Counting images is counting what they are images of. */
  lemma {:induction false} CountOfMap<T(!new), U(!new)>(s: seq<T>, f: T -> U, p: U -> bool, q: T -> bool)
    requires forall x <- s :: p(f(x)) <==> q(x)
    ensures |Select(Map(s, f), p)| == |Select(s, q)|
  {
    if s != [] {
      assert s[0] in s;
      assert Map(s, f)[1..] == Map(s[1..], f);
      CountOfMap(s[1..], f, p, q);
    }
  }

  /** How many elements satisfy a condition does not depend on their order. */
  lemma {:induction false} CountIgnoresOrder<T(!new)>(s: seq<T>, t: seq<T>, p: T -> bool)
    requires multiset(s) == multiset(t)
    ensures |Select(s, p)| == |Select(t, p)|
  {
    forall x ensures multiset(Select(s, p))[x] == multiset(Select(t, p))[x] {
      OccurrencesSelected(s, p, x);
      OccurrencesSelected(t, p, x);
    }
    assert multiset(Select(s, p)) == multiset(Select(t, p));
    SameMembers(Select(s, p), Select(t, p));
  }

  lemma {:induction false} OccurrencesSelected<T(!new)>(s: seq<T>, p: T -> bool, x: T)
    ensures multiset(Select(s, p))[x] == if p(x) then multiset(s)[x] else 0
  {
    if s != [] {
      OccurrencesSelected(s[1..], p, x);
      TailMultiset(s);
    }
  }

  ghost predicate TotalPreorder<T(!new)>(le: (T, T) -> bool) {
    && (forall a, b :: le(a, b) || le(b, a))
    && (forall a, b, c :: le(a, b) && le(b, c) ==> le(a, c))
  }

  ghost predicate Sorted<T(!new)>(s: seq<T>, le: (T, T) -> bool) {
    forall i, j :: 0 <= i < j < |s| ==> le(s[i], s[j])
  }

  /** No two of the elements are tied, so the order settles where each one goes. */
  ghost predicate NoTies<T(!new)>(s: seq<T>, le: (T, T) -> bool) {
    forall x, y :: x in s && y in s && le(x, y) && le(y, x) ==> x == y
  }

  function Insert<T(!new)>(x: T, s: seq<T>, le: (T, T) -> bool): (r: seq<T>)
    ensures multiset(r) == multiset{x} + multiset(s)
  {
    if s == [] || le(x, s[0]) then [x] + s
    else
      assert s == [s[0]] + s[1..];
      [s[0]] + Insert(x, s[1..], le)
  }

  function Sort<T(!new)>(s: seq<T>, le: (T, T) -> bool): (r: seq<T>)
    ensures multiset(r) == multiset(s)
  {
    if s == [] then []
    else
      assert s == [s[0]] + s[1..];
      Insert(s[0], Sort(s[1..], le), le)
  }

  lemma {:induction false} InsertSorted<T(!new)>(x: T, s: seq<T>, le: (T, T) -> bool)
    requires TotalPreorder(le) && Sorted(s, le)
    ensures Sorted(Insert(x, s, le), le)
  {
    if s != [] && !le(x, s[0]) {
      InsertSorted(x, s[1..], le);
      var tail := Insert(x, s[1..], le);
      forall y | y in tail ensures le(s[0], y) {
        assert y in multiset(tail);
        assert y == x || y in multiset(s[1..]);
      }
    }
  }

  lemma {:induction false} SortSorts<T(!new)>(s: seq<T>, le: (T, T) -> bool)
    requires TotalPreorder(le)
    ensures Sorted(Sort(s, le), le)
  {
    if s != [] {
      SortSorts(s[1..], le);
      InsertSorted(s[0], Sort(s[1..], le), le);
    }
  }

  lemma SortMembers<T(!new)>(s: seq<T>, le: (T, T) -> bool)
    ensures forall x :: x in Sort(s, le) <==> x in s
    ensures |Sort(s, le)| == |s|
  {
    SameMembers(Sort(s, le), s);
  }

  lemma SameMembers<T(!new)>(s: seq<T>, t: seq<T>)
    requires multiset(s) == multiset(t)
    ensures forall x :: x in s <==> x in t
    ensures |s| == |t|
  {
    assert forall x :: x in s <==> x in multiset(s);
    assert forall x :: x in t <==> x in multiset(t);
    assert |s| == |multiset(s)|;
    assert |t| == |multiset(t)|;
  }

  /** A sorted arrangement of untied elements is unique. */
  lemma {:induction false} SortedUnique<T(!new)>(s: seq<T>, t: seq<T>, le: (T, T) -> bool)
    requires Sorted(s, le) && Sorted(t, le) && multiset(s) == multiset(t) && NoTies(s, le)
    ensures s == t
  {
    SameMembers(s, t);
    if s != [] {
      assert s[0] == t[0] by {
        assert t[0] in s && s[0] in t;
      }
      TailMultiset(s);
      TailMultiset(t);
      assert forall x :: x in s[1..] ==> x in s;
      SortedUnique(s[1..], t[1..], le);
    }
  }

  lemma TailMultiset<T>(s: seq<T>)
    requires s != []
    ensures multiset(s[1..]) == multiset(s) - multiset{s[0]}
    ensures s == [s[0]] + s[1..]
  {
    assert s == [s[0]] + s[1..];
  }

  /** The sequence without its element at `i`. */
  function Without<T>(s: seq<T>, i: nat): seq<T>
    requires i < |s|
  {
    s[..i] + s[i + 1..]
  }

  lemma WithoutMultiset<T>(s: seq<T>, i: nat)
    requires i < |s|
    ensures multiset(Without(s, i)) == multiset(s) - multiset{s[i]}
  {
    assert s == s[..i] + [s[i]] + s[i + 1..];
  }

  /** Sorting untied elements does not depend on the order they come in. */
  lemma SortIgnoresInputOrder<T(!new)>(s: seq<T>, t: seq<T>, le: (T, T) -> bool)
    requires TotalPreorder(le) && multiset(s) == multiset(t) && NoTies(s, le)
    ensures Sort(s, le) == Sort(t, le)
  {
    SortSorts(s, le);
    SortSorts(t, le);
    SortMembers(s, le);
    SortedUnique(Sort(s, le), Sort(t, le), le);
  }
}
