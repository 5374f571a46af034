/** The order Python uses for `<` on `str`: code point by code point, and a
    proper prefix before any of its extensions. `sorted` on keyword lists
    relies on it being a strict total order, which the lemmas below establish. */
module StringOrder {

  /** `a` is a proper prefix of `b`. */
  predicate IsProperPrefix(a: string, b: string)
  {
    |a| < |b| && a == b[..|a|]
  }

  /** At the first position where `a` and `b` differ, `a` has the smaller
      code point. */
  predicate SmallerAtFirstDifference(a: string, b: string)
  {
    exists k :: 0 <= k < |a| && k < |b| && a[..k] == b[..k] && a[k] < b[k]
  }

  /** `a < b` on Python strings, compared from the first character on. It
      holds exactly when `a` is a proper prefix of `b` or has the smaller
      code point where the two first differ. */
  predicate Precedes(a: string, b: string)
    ensures Precedes(a, b) <==> IsProperPrefix(a, b) || SmallerAtFirstDifference(a, b)
    decreases |a|
  {
    if |a| == 0 then
      assert a == b[..0];
      |b| > 0
    else if |b| == 0 then false
    else if a[0] != b[0] then
      DifferentHeads(a, b);
      a[0] < b[0]
    else
      EqualHeads(a, b);
      Precedes(a[1..], b[1..])
  }

  /** Strings whose first characters differ are ordered by those characters. */
  lemma DifferentHeads(a: string, b: string)
    requires |a| > 0 && |b| > 0 && a[0] != b[0]
    ensures !IsProperPrefix(a, b)
    ensures SmallerAtFirstDifference(a, b) <==> a[0] < b[0]
  {
    assert |a| < |b| ==> b[..|a|][0] == b[0];
    forall k | 0 < k <= |a| && k <= |b|
      ensures a[..k] == b[..k] ==> a[0] == b[0]
    {
      assert a[..k][0] == a[0] && b[..k][0] == b[0];
    }
    assert a[..0] == b[..0];
  }

  /** Strings with the same first character are ordered as their tails. */
  lemma EqualHeads(a: string, b: string)
    requires |a| > 0 && |b| > 0 && a[0] == b[0]
    ensures IsProperPrefix(a, b) <==> IsProperPrefix(a[1..], b[1..])
    ensures SmallerAtFirstDifference(a, b) <==> SmallerAtFirstDifference(a[1..], b[1..])
  {
    assert a == [a[0]] + a[1..];
    assert |a| < |b| ==> b[..|a|] == [b[0]] + b[1..][..|a| - 1];
    if SmallerAtFirstDifference(a, b) {
      DifferenceMovesToTail(a, b);
    }
    if SmallerAtFirstDifference(a[1..], b[1..]) {
      DifferenceMovesToWhole(a, b);
    }
  }

  lemma DifferenceMovesToTail(a: string, b: string)
    requires |a| > 0 && |b| > 0 && a[0] == b[0] && SmallerAtFirstDifference(a, b)
    ensures SmallerAtFirstDifference(a[1..], b[1..])
  {
    var k :| 0 <= k < |a| && k < |b| && a[..k] == b[..k] && a[k] < b[k];
    assert k != 0;
    assert a[1..][..k - 1] == a[..k][1..];
    assert b[1..][..k - 1] == b[..k][1..];
    assert a[1..][k - 1] == a[k] && b[1..][k - 1] == b[k];
  }

  lemma DifferenceMovesToWhole(a: string, b: string)
    requires |a| > 0 && |b| > 0 && a[0] == b[0] && SmallerAtFirstDifference(a[1..], b[1..])
    ensures SmallerAtFirstDifference(a, b)
  {
    var k :| 0 <= k < |a| - 1 && k < |b| - 1 && a[1..][..k] == b[1..][..k] && a[1..][k] < b[1..][k];
    assert a[..k + 1] == [a[0]] + a[1..][..k];
    assert b[..k + 1] == [b[0]] + b[1..][..k];
    assert a[k + 1] == a[1..][k] && b[k + 1] == b[1..][k];
  }

  lemma {:induction false} Irreflexive(a: string)
    ensures !Precedes(a, a)
    decreases |a|
  {
    if |a| > 0 {
      Irreflexive(a[1..]);
    }
  }

  lemma {:induction false} Transitive(a: string, b: string, c: string)
    ensures Precedes(a, b) && Precedes(b, c) ==> Precedes(a, c)
    decreases |a|
  {
    if |a| > 0 && |b| > 0 && |c| > 0 && a[0] == b[0] && b[0] == c[0] {
      Transitive(a[1..], b[1..], c[1..]);
    }
  }

  /** Any two distinct strings are ordered one way or the other. */
  lemma {:induction false} Total(a: string, b: string)
    ensures a == b || Precedes(a, b) || Precedes(b, a)
    decreases |a|
  {
    if |a| > 0 && |b| > 0 && a[0] == b[0] {
      assert a == [a[0]] + a[1..];
      assert b == [b[0]] + b[1..];
      Total(a[1..], b[1..]);
    }
  }

  lemma Asymmetric(a: string, b: string)
    ensures Precedes(a, b) ==> !Precedes(b, a)
  {
    Transitive(a, b, a);
    Irreflexive(a);
  }

  /** "Not below" (that is, `<=`) is transitive. */
  lemma NotBelowTransitive(a: string, b: string, c: string)
    ensures !Precedes(b, a) && !Precedes(c, b) ==> !Precedes(c, a)
  {
    Total(a, b);
    Total(b, c);
    Transitive(a, b, c);
    Asymmetric(a, c);
  }
}
