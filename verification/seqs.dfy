/** Sequence helpers shared by the header, table and merge modules. */
module Seqs {

  /** No element occurs twice. */
  predicate Distinct<T(==)>(s: seq<T>)
  {
    forall i, j :: 0 <= i < j < |s| ==> s[i] != s[j]
  }

  /** Two duplicate-free sequences with no common member concatenate to a duplicate-free one. */
  lemma DistinctConcat<T>(a: seq<T>, b: seq<T>)
    requires Distinct(a) && Distinct(b)
    requires forall x :: x in a ==> x !in b
    ensures Distinct(a + b)
  {
    var r := a + b;
    forall i, j | 0 <= i < j < |r|
      ensures r[i] != r[j]
    {
      if i < |a| <= j {
        assert r[i] in a && r[j] == b[j - |a|];
      } else if |a| <= i {
        assert r[i] == b[i - |a|] && r[j] == b[j - |a|];
      }
    }
  }

  /** Number of occurrences of `x` in `s`, counted from the back so that
      prefixes `s[..i+1]` unfold onto `s[..i]`. */
  function Occ<T(==)>(s: seq<T>, x: T): nat
  {
    if s == [] then 0
    else Occ(s[..|s| - 1], x) + (if s[|s| - 1] == x then 1 else 0)
  }

  lemma {:induction false} OccConcat<T>(a: seq<T>, b: seq<T>, x: T)
    ensures Occ(a + b, x) == Occ(a, x) + Occ(b, x)
    decreases |b|
  {
    if b == [] {
      assert a + b == a;
    } else {
      assert (a + b)[..|a + b| - 1] == a + b[..|b| - 1];
      OccConcat(a, b[..|b| - 1], x);
    }
  }

  lemma {:induction false} OccPositive<T>(s: seq<T>, x: T)
    ensures Occ(s, x) > 0 <==> x in s
    decreases |s|
  {
    if s != [] {
      OccPositive(s[..|s| - 1], x);
      assert s == s[..|s| - 1] + [s[|s| - 1]];
    }
  }

  /** An element seen before position i occurs at least twice. */
  lemma OccBeforeMeansRepeated<T>(s: seq<T>, i: nat)
    requires i < |s| && Occ(s[..i], s[i]) > 0
    ensures Occ(s, s[i]) >= 2
  {
    assert s == s[..i] + s[i..];
    OccConcat(s[..i], s[i..], s[i]);
    assert s[i..][0] == s[i];
    OccPositive(s[i..], s[i]);
  }

  /** Two sequences that agree, position by position, on whether they hold `x`
      hold it equally often. */
  lemma {:induction false} OccAgree<T>(a: seq<T>, b: seq<T>, x: T)
    requires |a| == |b|
    requires forall j :: 0 <= j < |a| ==> (a[j] == x <==> b[j] == x)
    ensures Occ(a, x) == Occ(b, x)
    decreases |a|
  {
    if a != [] {
      OccAgree(a[..|a| - 1], b[..|b| - 1], x);
    }
  }

  /** Index of the first occurrence of `x`. */
  function IndexOf<T(==)>(s: seq<T>, x: T): (r: nat)
    requires x in s
    ensures r < |s| && s[r] == x
    ensures forall j :: 0 <= j < r ==> s[j] != x
  {
    if s[0] == x then 0 else 1 + IndexOf(s[1..], x)
  }

  /** The elements of `s` that satisfy `keep`, in their original order. */
  function Filter<T>(s: seq<T>, keep: T -> bool): (r: seq<T>)
    ensures |r| <= |s|
    ensures forall i :: 0 <= i < |r| ==> r[i] in s && keep(r[i])
    ensures forall i :: 0 <= i < |s| && keep(s[i]) ==> s[i] in r
  {
    if s == [] then []
    else (if keep(s[0]) then [s[0]] else []) + Filter(s[1..], keep)
  }

  /** `f` of every element `keep` admits, in their original order. */
  function MapKept<T(!new), U>(s: seq<T>, keep: T -> bool, f: T --> U): (r: seq<U>)
    requires forall x :: keep(x) ==> f.requires(x)
    ensures |r| == |Filter(s, keep)|
    ensures forall k :: 0 <= k < |r| ==> r[k] == f(Filter(s, keep)[k])
  {
    var kept := Filter(s, keep);
    seq(|kept|, k requires 0 <= k < |kept| => f(kept[k]))
  }

  /** One more element adds its image at the end when it is kept, and
      nothing otherwise. */
  lemma MapKeptAppend<T(!new), U>(s: seq<T>, x: T, keep: T -> bool, f: T --> U)
    requires forall y :: keep(y) ==> f.requires(y)
    ensures MapKept(s + [x], keep, f) == MapKept(s, keep, f) + if keep(x) then [f(x)] else []
  {
    FilterConcat(s, [x], keep);
    assert [x][1..] == [];
    var kept := Filter(s, keep);
    var a := MapKept(s, keep, f);
    var b := MapKept(s + [x], keep, f);
    var tail := if keep(x) then [f(x)] else [];
    forall k | 0 <= k < |b|
      ensures b[k] == (a + tail)[k]
    {
      if k < |a| {
        assert Filter(s + [x], keep)[k] == kept[k];
      } else {
        assert Filter(s + [x], keep)[k] == x;
      }
    }
  }

  /** The filter keeps nothing exactly when no element passes. */
  lemma FilterEmpty<T>(s: seq<T>, keep: T -> bool)
    ensures Filter(s, keep) == [] <==> forall i :: 0 <= i < |s| ==> !keep(s[i])
  {
    var r := Filter(s, keep);
    if r != [] {
      assert r[0] in s && keep(r[0]);
    }
  }

  /** Filtering distributes over concatenation; together with the singleton
      case this says the kept elements stay in their original order. */
  lemma {:induction false} FilterConcat<T>(a: seq<T>, b: seq<T>, keep: T -> bool)
    ensures Filter(a + b, keep) == Filter(a, keep) + Filter(b, keep)
    decreases |a|
  {
    if a == [] {
      assert a + b == b;
    } else {
      assert (a + b)[1..] == a[1..] + b;
      FilterConcat(a[1..], b, keep);
    }
  }

  lemma {:induction false} FilterAll<T>(s: seq<T>, keep: T -> bool)
    requires forall i :: 0 <= i < |s| ==> keep(s[i])
    ensures Filter(s, keep) == s
    decreases |s|
  {
    if s != [] {
      FilterAll(s[1..], keep);
    }
  }

  lemma {:induction false} FilterDistinct<T>(s: seq<T>, keep: T -> bool)
    ensures Distinct(s) ==> Distinct(Filter(s, keep))
    decreases |s|
  {
    if s != [] && Distinct(s) {
      FilterDistinct(s[1..], keep);
      var rest := Filter(s[1..], keep);
      assert s[0] !in s[1..];
      assert s[0] !in rest;
    }
  }

  lemma IndexOfTail<T>(s: seq<T>, x: T)
    requires |s| > 0 && x in s[1..] && x != s[0]
    ensures IndexOf(s, x) == 1 + IndexOf(s[1..], x)
  {
  }

  /** `r` lists elements of `s` in the order they have in `s`. */
  ghost predicate InOrderOf<T>(r: seq<T>, s: seq<T>)
  {
    && (forall i :: 0 <= i < |r| ==> r[i] in s)
    && (forall i, j :: 0 <= i < j < |r| ==> IndexOf(s, r[i]) < IndexOf(s, r[j]))
  }

  /** The first occurrence is the one with no equal element before it. */
  lemma IndexOfIs<T>(s: seq<T>, x: T, j: nat)
    requires j < |s| && s[j] == x
    requires forall i :: 0 <= i < j ==> s[i] != x
    ensures IndexOf(s, x) == j
  {
  }

  /** Extending `s` at the end keeps every first occurrence in `s`. */
  lemma IndexOfSnoc<T>(s: seq<T>, x: T, y: T)
    requires y in s
    ensures IndexOf(s + [x], y) == IndexOf(s, y) < |s|
  {
    IndexOfIs(s + [x], y, IndexOf(s, y));
  }

  /** Extending `s` at the end keeps an ordering of its elements, and a new
      element may join the ordering last. */
  lemma InOrderOfSnoc<T>(r: seq<T>, s: seq<T>, x: T)
    requires InOrderOf(r, s)
    ensures InOrderOf(r, s + [x])
    ensures x !in s ==> InOrderOf(r + [x], s + [x])
  {
    var t := s + [x];
    forall i | 0 <= i < |r|
      ensures IndexOf(t, r[i]) == IndexOf(s, r[i]) < |s|
    {
      IndexOfSnoc(s, x, r[i]);
    }
    if x !in s {
      IndexOfIs(t, x, |s|);
      var r' := r + [x];
      forall i, j | 0 <= i < j < |r'|
        ensures IndexOf(t, r'[i]) < IndexOf(t, r'[j])
      {
        assert r'[i] == r[i];
        if j < |r| {
          assert r'[j] == r[j];
        }
      }
    }
  }

  lemma InOrderOfTail<T>(r: seq<T>, s: seq<T>)
    requires |s| > 0 && s[0] !in s[1..]
    requires InOrderOf(r, s[1..])
    ensures InOrderOf(r, s)
    ensures forall i :: 0 <= i < |r| ==> IndexOf(s, r[i]) > 0
  {
    forall i | 0 <= i < |r|
      ensures IndexOf(s, r[i]) == 1 + IndexOf(s[1..], r[i])
    {
      IndexOfTail(s, r[i]);
    }
  }

  lemma InOrderOfCons<T>(r: seq<T>, s: seq<T>)
    requires |s| > 0
    requires InOrderOf(r, s)
    requires forall i :: 0 <= i < |r| ==> IndexOf(s, r[i]) > 0
    ensures InOrderOf([s[0]] + r, s)
  {
    var r' := [s[0]] + r;
    assert IndexOf(s, s[0]) == 0;
    forall i | 0 <= i < |r'|
      ensures r'[i] in s
      ensures i > 0 ==> r'[i] == r[i - 1]
    {
    }
    forall i, j | 0 <= i < j < |r'|
      ensures IndexOf(s, r'[i]) < IndexOf(s, r'[j])
    {
      var y := r[j - 1];
      assert r'[j] == y;
      if i > 0 {
        var x := r[i - 1];
        assert r'[i] == x;
        assert IndexOf(s, x) < IndexOf(s, y);
      } else {
        assert IndexOf(s, y) > 0;
      }
    }
  }

  /** In a sequence without repeats, what the filter keeps stays in the order
      of the original. */
  lemma {:induction false} FilterOrder<T>(s: seq<T>, keep: T -> bool)
    requires Distinct(s)
    ensures InOrderOf(Filter(s, keep), s)
    decreases |s|
  {
    if s != [] {
      var rest := Filter(s[1..], keep);
      FilterOrder(s[1..], keep);
      assert s[0] !in s[1..];
      InOrderOfTail(rest, s);
      if keep(s[0]) {
        InOrderOfCons(rest, s);
      }
    }
  }

  /** A duplicate-free list holding the same members as a duplicate-free
      list `s`, in the order of `s`, is `s`. */
  lemma {:induction false} SameMembersInOrder<T>(r: seq<T>, s: seq<T>)
    requires Distinct(r) && Distinct(s) && InOrderOf(r, s)
    requires forall c :: c in s ==> c in r
    ensures r == s
    decreases |s|
  {
    if s != [] {
      assert s[0] in r;
      assert r[0] == s[0] by {
        var j := IndexOf(r, s[0]);
        assert IndexOf(s, s[0]) == 0;
        assert j == 0;
      }
      var r', s' := r[1..], s[1..];
      forall i | 0 <= i < |r'|
        ensures r'[i] in s' && IndexOf(s, r'[i]) == 1 + IndexOf(s', r'[i])
      {
        assert r'[i] == r[i + 1] && r[i + 1] != r[0];
        assert IndexOf(s, r[0]) < IndexOf(s, r[i + 1]);
        IndexOfTail(s, r'[i]);
      }
      forall i, j | 0 <= i < j < |r'|
        ensures IndexOf(s', r'[i]) < IndexOf(s', r'[j])
      {
        assert IndexOf(s, r[i + 1]) < IndexOf(s, r[j + 1]);
      }
      forall c | c in s'
        ensures c in r'
      {
        assert c != s[0];
        var m := IndexOf(r, c);
        assert m != 0;
        assert r'[m - 1] == c;
      }
      SameMembersInOrder(r', s');
    }
  }

  /** A prefix of a suffix is a middle slice. */
  lemma SliceOfSlice<T>(s: seq<T>, a: nat, b: nat)
    requires a + b <= |s|
    ensures s[a..][..b] == s[a..a + b]
  {
  }
}
