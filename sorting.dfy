/** Python's `sorted` on lists of strings, and the canonical ascending list of
    a set of strings. A Python set has no fixed iteration order, so
    `sorted(list(s))` sorts some unknown listing of `s`; the lemmas here show
    that every listing sorts to the same list. */
module Sorting {
  import opened StringOrder

  /** No element is preceded by a later one: what `sorted` guarantees. */
  predicate Ascending(s: seq<string>)
  {
    forall i, j :: 0 <= i < j < |s| ==> !Precedes(s[j], s[i])
  }

  /** Ascending and free of duplicates. */
  predicate StrictlyAscending(s: seq<string>)
  {
    forall i, j :: 0 <= i < j < |s| ==> Precedes(s[i], s[j])
  }

  /** Every element of `s` is at or above `h`. */
  predicate NoneBelow(h: string, s: seq<string>)
  {
    forall y :: y in s ==> !Precedes(y, h)
  }

  lemma ConsAscending(h: string, t: seq<string>)
    requires Ascending(t) && NoneBelow(h, t)
    ensures Ascending([h] + t)
  {
    var s := [h] + t;
    forall i, j | 0 <= i < j < |s| ensures !Precedes(s[j], s[i]) {
      if i == 0 {
        assert s[j] == t[j - 1];
      } else {
        assert s[i] == t[i - 1] && s[j] == t[j - 1];
      }
    }
  }

  lemma ConsStrictlyAscending(h: string, t: seq<string>)
    requires StrictlyAscending(t)
    requires forall y :: y in t ==> Precedes(h, y)
    ensures StrictlyAscending([h] + t)
  {
    var s := [h] + t;
    forall i, j | 0 <= i < j < |s| ensures Precedes(s[i], s[j]) {
      if i == 0 {
        assert s[j] == t[j - 1];
      } else {
        assert s[i] == t[i - 1] && s[j] == t[j - 1];
      }
    }
  }

  lemma StrictlyAscendingIsAscending(s: seq<string>)
    requires StrictlyAscending(s)
    ensures Ascending(s)
  {
    forall i, j | 0 <= i < j < |s| ensures !Precedes(s[j], s[i]) {
      Asymmetric(s[i], s[j]);
    }
  }

  /** The head of an ascending list is at or below every element. */
  lemma HeadNotAbove(s: seq<string>, y: string)
    requires Ascending(s) && y in s
    ensures !Precedes(y, s[0])
  {
    var i :| 0 <= i < |s| && s[i] == y;
    Irreflexive(s[0]);
  }

  /** One step of insertion sort: put `x` in place in an ascending list. */
  function Insert(x: string, s: seq<string>): (r: seq<string>)
    requires Ascending(s)
    ensures multiset(r) == multiset(s) + multiset{x}
    ensures Ascending(r)
  {
    if s == [] then [x]
    else if Precedes(s[0], x) then
      var rest := Insert(x, s[1..]);
      InsertAfterHead(x, s, rest);
      [s[0]] + rest
    else
      InsertBeforeHead(x, s);
      [x] + s
  }

  lemma InsertAfterHead(x: string, s: seq<string>, rest: seq<string>)
    requires s != [] && Ascending(s) && Precedes(s[0], x)
    requires multiset(rest) == multiset(s[1..]) + multiset{x} && Ascending(rest)
    ensures multiset([s[0]] + rest) == multiset(s) + multiset{x}
    ensures Ascending([s[0]] + rest)
  {
    assert s == [s[0]] + s[1..];
    forall y | y in rest ensures !Precedes(y, s[0]) {
      assert y in multiset(rest);
      if y == x {
        Asymmetric(s[0], x);
      } else {
        assert y in s[1..];
        HeadNotAbove(s, y);
      }
    }
    ConsAscending(s[0], rest);
  }

  lemma InsertBeforeHead(x: string, s: seq<string>)
    requires s != [] && Ascending(s) && !Precedes(s[0], x)
    ensures Ascending([x] + s)
  {
    forall y | y in s ensures !Precedes(y, x) {
      HeadNotAbove(s, y);
      NotBelowTransitive(x, s[0], y);
    }
    ConsAscending(x, s);
  }

  /** `sorted(xs)`, as insertion sort: an ascending permutation of `xs`. */
  function Sort(xs: seq<string>): (r: seq<string>)
    ensures multiset(r) == multiset(xs)
    ensures Ascending(r)
  {
    if xs == [] then []
    else
      assert xs == [xs[0]] + xs[1..];
      Insert(xs[0], Sort(xs[1..]))
  }

  /** An ascending list is determined by its elements: two ascending
      permutations of each other are equal. */
  lemma {:induction false} AscendingPermutationUnique(a: seq<string>, b: seq<string>)
    requires Ascending(a) && Ascending(b) && multiset(a) == multiset(b)
    ensures a == b
    decreases |a|
  {
    assert |a| == |multiset(a)| == |multiset(b)| == |b|;
    if a != [] {
      assert a[0] in multiset(b) && b[0] in multiset(a);
      HeadNotAbove(b, a[0]);
      HeadNotAbove(a, b[0]);
      Total(a[0], b[0]);
      assert a[0] == b[0];
      assert a == [a[0]] + a[1..];
      assert b == [b[0]] + b[1..];
      assert multiset(a[1..]) == multiset(a) - multiset{a[0]};
      assert multiset(b[1..]) == multiset(b) - multiset{b[0]};
      AscendingPermutationUnique(a[1..], b[1..]);
    }
  }

  predicate IsLeast(m: string, s: set<string>)
  {
    m in s && forall y :: y in s && y != m ==> Precedes(m, y)
  }

  lemma {:induction false} LeastExists(s: set<string>)
    requires s != {}
    ensures exists m :: IsLeast(m, s)
    decreases s
  {
    var x :| x in s;
    if s == {x} {
      assert IsLeast(x, s);
    } else {
      LeastExists(s - {x});
      var m :| IsLeast(m, s - {x});
      Total(x, m);
      if Precedes(x, m) {
        forall y | y in s && y != x ensures Precedes(x, y) {
          Transitive(x, m, y);
        }
        assert IsLeast(x, s);
      } else {
        assert IsLeast(m, s);
      }
    }
  }

  lemma LeastUnique(s: set<string>)
    ensures forall m, m' :: IsLeast(m, s) && IsLeast(m', s) ==> m == m'
  {
    forall m, m' | IsLeast(m, s) && IsLeast(m', s) ensures m == m' {
      Asymmetric(m, m');
    }
  }

  /** The least element of a non-empty set of strings. */
  function Least(s: set<string>): (m: string)
    requires s != {}
    ensures m in s
    ensures forall y :: y in s && y != m ==> Precedes(m, y)
  {
    LeastExists(s);
    LeastUnique(s);
    var m :| IsLeast(m, s);
    m
  }

  /** The elements of `s` in ascending order, each once. */
  function SortedList(s: set<string>): (r: seq<string>)
    ensures StrictlyAscending(r)
    ensures multiset(r) == multiset(s)
    decreases s
  {
    if s == {} then []
    else
      var m := Least(s);
      var rest := SortedList(s - {m});
      assert multiset(s - {m}) + multiset{m} == multiset(s);
      forall y | y in rest ensures Precedes(m, y) {
        assert y in multiset(rest);
      }
      ConsStrictlyAscending(m, rest);
      [m] + rest
  }

  /** `sorted(list(s))` does not depend on the order in which the set is
      listed: any list holding each element of `s` exactly once sorts to
      `SortedList(s)`. */
  lemma IterationOrderIrrelevant(listing: seq<string>, s: set<string>)
    requires multiset(listing) == multiset(s)
    ensures Sort(listing) == SortedList(s)
  {
    StrictlyAscendingIsAscending(SortedList(s));
    AscendingPermutationUnique(Sort(listing), SortedList(s));
  }

  /** Any strictly ascending list of exactly the elements of `s` is `SortedList(s)`. */
  lemma SortedListCanonical(r: seq<string>, s: set<string>)
    requires StrictlyAscending(r) && multiset(r) == multiset(s)
    ensures SortedList(s) == r
  {
    StrictlyAscendingIsAscending(r);
    StrictlyAscendingIsAscending(SortedList(s));
    AscendingPermutationUnique(r, SortedList(s));
  }

  lemma SortedListElements(s: set<string>)
    ensures |SortedList(s)| == |s|
    ensures forall w :: w in SortedList(s) <==> w in s
  {
    var r := SortedList(s);
    assert |r| == |multiset(r)| == |multiset(s)| == |s|;
    forall w ensures w in r <==> w in s {
      assert w in r <==> w in multiset(r);
    }
  }
}
