/**
 * Insertion-ordered collections: Kotlin's `mutableSetOf` (a `LinkedHashSet`)
 * is a sequence without repetitions, `removeAll` keeps the other elements in
 * order, and dropping the oldest entries keeps a suffix.
 */
module Lists {

  predicate Distinct<T(==)>(s: seq<T>) {
    forall i, j :: 0 <= i < j < |s| ==> s[i] != s[j]
  }

  /** The members of a sequence. */
  ghost function Elements<T>(s: seq<T>): set<T> {
    set x | x in s
  }

  /** `toList()` of a set: its members, each once, in the order the set yields them. */
  method ListOf<T(==)>(s: set<T>) returns (r: seq<T>)
    ensures Distinct(r) && Elements(r) == s && |r| == |s|
  {
    r := [];
    var rest := s;
    while rest != {}
      invariant Distinct(r) && Elements(r) + rest == s && Elements(r) !! rest && |r| + |rest| == |s|
      decreases |rest|
    {
      var x :| x in rest;
      DistinctSnoc(r, x);
      assert Elements(r + [x]) == Elements(r) + {x};
      r := r + [x];
      rest := rest - {x};
    }
  }

  /** Appending a new element keeps a sequence free of repetitions. */
  lemma DistinctSnoc<T>(s: seq<T>, x: T)
    requires Distinct(s) && x !in s
    ensures Distinct(s + [x])
  {
    forall i, j | 0 <= i < j < |s| + 1
      ensures (s + [x])[i] != (s + [x])[j]
    {
      if j == |s| {
        assert s[i] in s;
      }
    }
  }

  /** `removeAll(gone)`: the elements of `s` outside `gone`, in their order. */
  function Without<T(==)>(s: seq<T>, gone: set<T>): (r: seq<T>)
    ensures |r| <= |s|
  {
    if |s| == 0 then []
    else if s[0] in gone then Without(s[1..], gone)
    else [s[0]] + Without(s[1..], gone)
  }

  /** `removeAll` keeps exactly the elements outside `gone`. */
  lemma {:induction false} WithoutMembers<T>(s: seq<T>, gone: set<T>, x: T)
    ensures x in Without(s, gone) <==> x in s && x !in gone
  {
    if |s| > 0 {
      WithoutMembers(s[1..], gone, x);
      assert x in s <==> x == s[0] || x in s[1..];
    }
  }

  /** `removeAll` on a set gives a set again: no repetitions appear. */
  lemma {:induction false} WithoutDistinct<T>(s: seq<T>, gone: set<T>)
    requires Distinct(s)
    ensures Distinct(Without(s, gone))
  {
    if |s| > 0 {
      WithoutDistinct(s[1..], gone);
      if s[0] !in gone {
        WithoutMembers(s[1..], gone, s[0]);
        forall j | 0 <= j < |s| - 1
          ensures s[1..][j] != s[0]
        {
          assert s[1..][j] == s[j + 1];
        }
      }
    }
  }

  /** Removing `a` and then `b` is removing both at once. */
  lemma {:induction false} WithoutTwice<T>(s: seq<T>, a: set<T>, b: set<T>)
    ensures Without(Without(s, a), b) == Without(s, a + b)
  {
    if |s| > 0 {
      WithoutTwice(s[1..], a, b);
      if s[0] !in a {
        assert Without(s, a) == [s[0]] + Without(s[1..], a);
        assert Without(s, a)[1..] == Without(s[1..], a);
      }
    }
  }

  /** Only the members of `s` that `gone` holds matter. */
  lemma {:induction false} WithoutSame<T>(s: seq<T>, a: set<T>, b: set<T>)
    requires forall x :: x in s ==> (x in a <==> x in b)
    ensures Without(s, a) == Without(s, b)
  {
    if |s| > 0 {
      assert s[0] in s;
      WithoutSame(s[1..], a, b);
    }
  }

  /** Removing no member of `s` leaves `s`. */
  lemma {:induction false} WithoutNone<T>(s: seq<T>, gone: set<T>)
    requires forall x :: x in s ==> x !in gone
    ensures Without(s, gone) == s
  {
    if |s| > 0 {
      assert s[0] in s;
      WithoutNone(s[1..], gone);
    }
  }

  /** Removing the first `k` elements of a repetition-free sequence, as a set, leaves the rest. */
  lemma {:induction false} WithoutPrefix<T>(s: seq<T>, k: nat)
    requires Distinct(s) && k <= |s|
    ensures Without(s, set x | x in s[..k]) == s[k..]
  {
    if k == 0 {
      WithoutNone(s, set x | x in s[..0]);
    } else {
      var gone := set x | x in s[..k];
      var tail := set x | x in s[1..k];
      assert s[1..][..k - 1] == s[1..k];
      assert s[0] in gone by { assert s[..k][0] == s[0]; }
      forall x | x in s[1..]
        ensures x in gone <==> x in tail
      {
        var j :| 0 <= j < |s[1..]| && s[1..][j] == x;
        assert x == s[j + 1];
        if x in gone {
          var i :| 0 <= i < k && s[..k][i] == x;
          assert s[i] == s[j + 1];
          assert i == j + 1;
          assert s[1..k][j] == x;
        }
        if x in tail {
          var i :| 0 <= i < k - 1 && s[1..k][i] == x;
          assert s[..k][i + 1] == x;
        }
      }
      WithoutSame(s[1..], gone, tail);
      WithoutPrefix(s[1..], k - 1);
      assert s[1..][k - 1..] == s[k..];
    }
  }

  /** In a sequence without repetitions, no element of the tail from `k` occurs before `k`. */
  lemma DisjointParts<T>(s: seq<T>, k: nat, x: T)
    requires Distinct(s) && k <= |s| && x in s[k..]
    ensures x !in s[..k]
  {
    var j :| 0 <= j < |s[k..]| && s[k..][j] == x;
    forall i | 0 <= i < k
      ensures s[..k][i] != x
    {
      assert s[..k][i] == s[i] && s[k + j] == x;
    }
  }

  /** The newest `cap` entries: what dropping the oldest surplus leaves. */
  function Newest<T>(s: seq<T>, cap: nat): (r: seq<T>)
    ensures |r| <= cap && |r| <= |s|
    ensures |s| <= cap ==> r == s
    ensures |s| > cap ==> |r| == cap
    ensures r == s[|s| - |r|..]
  {
    if |s| > cap then s[|s| - cap..] else s
  }
}
