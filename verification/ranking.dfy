/** Ranking of records by a natural-number key, largest first.
    Both stores rank games by their download count; the in-memory store uses
    Python's stable sort, so ties keep their original relative order. */
module Ranking {

  /** Non-increasing by `key`. */
  ghost predicate SortedDesc<T>(xs: seq<T>, key: T -> nat)
  {
    forall i, j :: 0 <= i < j < |xs| ==> key(xs[i]) >= key(xs[j])
  }

  /** Non-decreasing by `key`. */
  ghost predicate SortedAsc<T>(xs: seq<T>, key: T -> nat)
  {
    forall i, j :: 0 <= i < j < |xs| ==> key(xs[i]) <= key(xs[j])
  }

  /** No element occurs twice. */
  ghost predicate Distinct<T>(xs: seq<T>)
  {
    forall i, j :: 0 <= i < j < |xs| ==> xs[i] != xs[j]
  }

  /** The elements whose key is `d`, in their order of occurrence. A sort is
      stable exactly when it leaves every such subsequence as it was. */
  function Ties<T>(xs: seq<T>, key: T -> nat, d: nat): (r: seq<T>)
    ensures |r| <= |xs|
  {
    if xs == [] then []
    else (if key(xs[0]) == d then [xs[0]] else []) + Ties(xs[1..], key, d)
  }

  /** Places `x` in front of the first element whose key is not larger.
      Because `x` goes before its equals, inserting the elements of a list
      back to front keeps equal elements in their original order. */
  function Insert<T>(x: T, ys: seq<T>, key: T -> nat): (r: seq<T>)
    requires SortedDesc(ys, key)
    ensures multiset(r) == multiset(ys) + multiset{x}
    ensures |r| == |ys| + 1
    ensures SortedDesc(r, key)
  {
    if ys == [] || key(x) >= key(ys[0]) then
      ConsSorted(x, ys, key);
      [x] + ys
    else
      var rest := Insert(x, ys[1..], key);
      assert ys == [ys[0]] + ys[1..];
      HeadBoundsRest(ys, x, rest, key);
      ConsSorted(ys[0], rest, key);
      [ys[0]] + rest
  }

  /** Putting an element no smaller than the head in front keeps a list sorted. */
  lemma ConsSorted<T>(y: T, xs: seq<T>, key: T -> nat)
    requires SortedDesc(xs, key)
    requires xs == [] || key(y) >= key(xs[0])
    ensures SortedDesc([y] + xs, key)
  {
    var r := [y] + xs;
    forall i, j | 0 <= i < j < |r|
      ensures key(r[i]) >= key(r[j])
    {
      if i == 0 && j > 1 {
        assert r[j] == xs[j - 1] && key(xs[0]) >= key(xs[j - 1]);
      }
    }
  }

  /** When `x` ranks below the head of a sorted `ys`, inserting it into the
      tail yields only elements that rank no higher than that head. */
  lemma HeadBoundsRest<T>(ys: seq<T>, x: T, rest: seq<T>, key: T -> nat)
    requires SortedDesc(ys, key) && ys != [] && key(x) < key(ys[0])
    requires multiset(rest) == multiset(ys[1..]) + multiset{x}
    ensures forall k :: 0 <= k < |rest| ==> key(rest[k]) <= key(ys[0])
  {
    forall k | 0 <= k < |rest|
      ensures key(rest[k]) <= key(ys[0])
    {
      assert rest[k] in multiset(rest);
      if rest[k] != x {
        assert rest[k] in multiset(ys[1..]);
        var j :| 0 <= j < |ys[1..]| && ys[1..][j] == rest[k];
        assert ys[j + 1] == rest[k];
      }
    }
  }

  /** Stable sort, largest key first: the model of
      `list.sort(key=..., reverse=True)`, which Python documents as stable. */
  function SortDesc<T>(xs: seq<T>, key: T -> nat): (r: seq<T>)
    ensures multiset(r) == multiset(xs)
    ensures |r| == |xs|
    ensures SortedDesc(r, key)
  {
    if xs == [] then []
    else
      assert xs == [xs[0]] + xs[1..];
      Insert(xs[0], SortDesc(xs[1..], key), key)
  }

  lemma {:induction false} TiesOfInsert<T>(x: T, ys: seq<T>, key: T -> nat, d: nat)
    requires SortedDesc(ys, key)
    ensures Ties(Insert(x, ys, key), key, d)
         == (if key(x) == d then [x] else []) + Ties(ys, key, d)
  {
    if ys == [] || key(x) >= key(ys[0]) {
      assert ([x] + ys)[1..] == ys;
    } else {
      var y := ys[0];
      var rest := Insert(x, ys[1..], key);
      assert Insert(x, ys, key) == [y] + rest;
      assert ([y] + rest)[1..] == rest;
      TiesOfInsert(x, ys[1..], key, d);
      if key(y) == d {
        assert Ties([y] + rest, key, d) == [y] + Ties(rest, key, d);
        assert Ties(ys, key, d) == [y] + Ties(ys[1..], key, d);
      } else {
        assert Ties([y] + rest, key, d) == Ties(rest, key, d);
        assert Ties(ys, key, d) == Ties(ys[1..], key, d);
      }
    }
  }

  /** The sort is stable: for every key value, the elements carrying it come
      out in the order they went in. */
  lemma {:induction false} SortDescStable<T>(xs: seq<T>, key: T -> nat, d: nat)
    ensures Ties(SortDesc(xs, key), key, d) == Ties(xs, key, d)
  {
    if xs != [] {
      SortDescStable(xs[1..], key, d);
      TiesOfInsert(xs[0], SortDesc(xs[1..], key), key, d);
    }
  }

  lemma {:induction false} TiesMembers<T>(xs: seq<T>, key: T -> nat, d: nat)
    ensures forall y :: y in Ties(xs, key, d) ==> y in xs && key(y) == d
  {
    if xs != [] {
      TiesMembers(xs[1..], key, d);
    }
  }

  lemma TiesOfFirst<T>(xs: seq<T>, key: T -> nat)
    requires xs != []
    ensures Ties(xs, key, key(xs[0])) != []
  {
  }

  /** Cutting a list keeps, for every key value, a prefix of its ties. */
  lemma {:induction false} TiesOfPrefix<T>(xs: seq<T>, key: T -> nat, k: nat, d: nat)
    requires k <= |xs|
    ensures Ties(xs[..k], key, d) <= Ties(xs, key, d)
  {
    if k > 0 {
      assert xs[..k][1..] == xs[1..][..k - 1];
      assert xs[..k][0] == xs[0];
      TiesOfPrefix(xs[1..], key, k - 1, d);
    }
  }

  /** A non-increasing list is determined by its ties: two sorted lists with
      the same ties for every key value are equal. Together with
      `SortDescStable` this says `SortDesc` is THE stable descending sort. */
  lemma {:induction false} StableSortUnique<T>(a: seq<T>, b: seq<T>, key: T -> nat)
    requires SortedDesc(a, key) && SortedDesc(b, key)
    requires forall d :: Ties(a, key, d) == Ties(b, key, d)
    ensures a == b
  {
    if a == [] || b == [] {
      // one empty list has no ties at all, so neither has the other
      if a != [] {
        TiesOfFirst(a, key);
        assert false;
      }
      if b != [] {
        TiesOfFirst(b, key);
        assert false;
      }
    } else {
      var da, db := key(a[0]), key(b[0]);
      TiesMembers(a, key, db);
      TiesMembers(b, key, da);
      assert Ties(a, key, da)[0] == a[0];
      var y := Ties(b, key, da)[0];
      assert y in Ties(b, key, da);
      assert da <= db;
      assert Ties(b, key, db)[0] == b[0];
      var z := Ties(a, key, db)[0];
      assert z in Ties(a, key, db);
      assert db <= da;
      assert a[0] == b[0];
      forall d
        ensures Ties(a[1..], key, d) == Ties(b[1..], key, d)
      {
        if d == da {
          assert Ties(a, key, d) == [a[0]] + Ties(a[1..], key, d);
          assert Ties(b, key, d) == [b[0]] + Ties(b[1..], key, d);
          assert Ties(a[1..], key, d) == Ties(a, key, d)[1..];
          assert Ties(b[1..], key, d) == Ties(b, key, d)[1..];
        } else {
          assert Ties(a, key, d) == Ties(a[1..], key, d);
          assert Ties(b, key, d) == Ties(b[1..], key, d);
        }
      }
      StableSortUnique(a[1..], b[1..], key);
      assert a == [a[0]] + a[1..];
      assert b == [b[0]] + b[1..];
    }
  }

  /** Any stable, non-increasing rearrangement of `xs` is `SortDesc(xs)`. */
  lemma SortDescIsTheStableSort<T>(xs: seq<T>, r: seq<T>, key: T -> nat)
    requires SortedDesc(r, key)
    requires forall d :: Ties(r, key, d) == Ties(xs, key, d)
    ensures r == SortDesc(xs, key)
  {
    forall d
      ensures Ties(r, key, d) == Ties(SortDesc(xs, key), key, d)
    {
      SortDescStable(xs, key, d);
    }
    StableSortUnique(r, SortDesc(xs, key), key);
  }

  /** A prefix is part of the whole, and whatever it misses lies in the rest. */
  lemma PrefixAndRest<T>(xs: seq<T>, k: nat)
    requires k <= |xs|
    ensures multiset(xs[..k]) <= multiset(xs)
    ensures forall x :: x in xs && x !in xs[..k] ==> x in xs[k..]
  {
    assert xs == xs[..k] + xs[k..];
  }

  /** Permutations have the same members. */
  lemma SameMembers<T>(xs: seq<T>, ys: seq<T>)
    requires multiset(xs) == multiset(ys)
    ensures forall x :: x in xs ==> x in ys
  {
    forall x | x in xs
      ensures x in ys
    {
      assert x in multiset(xs);
    }
  }

  /** In a non-increasing list, an element outside the first `k` ranks no
      higher than any element inside them. */
  lemma PrefixDominates<T>(xs: seq<T>, key: T -> nat, k: nat)
    requires SortedDesc(xs, key) && k <= |xs|
    ensures forall x, y :: x in xs[k..] && y in xs[..k] ==> key(x) <= key(y)
  {
    forall x, y | x in xs[k..] && y in xs[..k]
      ensures key(x) <= key(y)
    {
      var j :| 0 <= j < |xs[k..]| && xs[k..][j] == x;
      var i :| 0 <= i < k && xs[..k][i] == y;
      assert xs[i] == y && xs[k + j] == x;
    }
  }

  /** Taking the elements of one key keeps any order the whole list has. */
  lemma {:induction false} TiesKeepAscending<T>(xs: seq<T>, key: T -> nat, d: nat, order: T -> nat)
    requires SortedAsc(xs, order)
    ensures SortedAsc(Ties(xs, key, d), order)
  {
    if xs != [] {
      TiesKeepAscending(xs[1..], key, d, order);
      TiesMembers(xs[1..], key, d);
      var rest := Ties(xs[1..], key, d);
      forall y | y in rest
        ensures order(xs[0]) <= order(y)
      {
        var j :| 0 <= j < |xs[1..]| && xs[1..][j] == y;
        assert xs[j + 1] == y;
      }
    }
  }

  /** A prefix of an ordered list is ordered. */
  lemma PrefixAscending<T>(xs: seq<T>, ys: seq<T>, order: T -> nat)
    requires SortedAsc(ys, order) && xs <= ys
    ensures SortedAsc(xs, order)
  {
    assert forall i :: 0 <= i < |xs| ==> xs[i] == ys[i];
  }
}
