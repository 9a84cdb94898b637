/**
 * Generic operations on tables held as sequences of rows: `WHERE` filters,
 * `.get()` lookups, `MAX` aggregates, and the counting facts that UNIQUE
 * constraints give.
 */
module Rows {
  import opened Wrappers

  /** The rows of `s` that satisfy `p`, in table order (a `WHERE` clause with `.all()`). */
  function Filter<T(!new)>(s: seq<T>, p: T -> bool): (r: seq<T>)
    ensures |r| <= |s|
    ensures forall x :: x in r <==> x in s && p(x)
    decreases |s|
  {
    if |s| == 0 then []
    else
      var init := s[..|s| - 1];
      assert s == init + [s[|s| - 1]];
      Filter(init, p) + (if p(s[|s| - 1]) then [s[|s| - 1]] else [])
  }

  /** The first row of `s` that satisfies `p` (a `WHERE` clause with `.get()`). */
  function Find<T>(s: seq<T>, p: T -> bool): (r: Option<T>)
    ensures r.None? <==> forall i :: 0 <= i < |s| ==> !p(s[i])
    ensures r.Some? ==> exists i :: 0 <= i < |s| && s[i] == r.value && p(s[i]) &&
                                    forall j :: 0 <= j < i ==> !p(s[j])
    decreases |s|
  {
    if |s| == 0 then None
    else if p(s[0]) then Some(s[0])
    else
      var r := Find(s[1..], p);
      assert r.Some? ==> exists i :: 1 <= i < |s| && s[i] == r.value && p(s[i]) &&
                                     forall j :: 0 <= j < i ==> !p(s[j]) by {
        if r.Some? {
          var i :| 0 <= i < |s| - 1 && s[1..][i] == r.value && p(s[1..][i]) &&
                   forall j :: 0 <= j < i ==> !p(s[1..][j]);
          assert s[i + 1] == r.value;
          assert forall j :: 1 <= j < i + 1 ==> s[j] == s[1..][j - 1];
        }
      }
      r
  }

  /** At most one row per key: what a UNIQUE constraint guarantees. */
  ghost predicate Unique<T, K>(s: seq<T>, key: T -> K) {
    forall i, j :: 0 <= i < j < |s| ==> key(s[i]) != key(s[j])
  }

  /** Appending a row whose key is new keeps the keys distinct. */
  lemma UniqueSnoc<T, K>(s: seq<T>, x: T, key: T -> K)
    requires Unique(s, key)
    requires forall i :: 0 <= i < |s| ==> key(s[i]) != key(x)
    ensures Unique(s + [x], key)
  {
  }

  /** The distinct keys occurring in `s`. */
  ghost function Keys<T, K>(s: seq<T>, key: T -> K): set<K> {
    set x | x in s :: key(x)
  }

  /** `COALESCE(MAX(x), 0)`: the largest element, or 0 when there are no rows. */
  function MaxOrZero(xs: seq<int>): (m: int)
    ensures |xs| == 0 ==> m == 0
    ensures |xs| > 0 ==> m in xs
    ensures forall x :: x in xs ==> x <= m
    decreases |xs|
  {
    if |xs| == 0 then 0
    else if |xs| == 1 then xs[0]
    else
      var rest := MaxOrZero(xs[1..]);
      assert forall x :: x in xs ==> x == xs[0] || x in xs[1..];
      if xs[0] < rest then rest else xs[0]
  }

  /** Filtering after appending one row filters the old rows and then that row. */
  lemma FilterSnoc<T(!new)>(s: seq<T>, x: T, p: T -> bool)
    ensures Filter(s + [x], p) == Filter(s, p) + (if p(x) then [x] else [])
  {
    assert (s + [x])[..|s|] == s;
  }

  /** There are never more distinct keys than rows. */
  lemma {:induction false} KeysCard<T, K>(s: seq<T>, key: T -> K)
    ensures |Keys(s, key)| <= |s|
    decreases |s|
  {
    if |s| > 0 {
      var init := s[..|s| - 1];
      KeysCard(init, key);
      assert s == init + [s[|s| - 1]];
      assert Keys(s, key) == Keys(init, key) + {key(s[|s| - 1])};
    }
  }

  /** Under a UNIQUE constraint, counting rows counts distinct keys. */
  lemma {:induction false} UniqueKeysCard<T, K>(s: seq<T>, key: T -> K)
    requires Unique(s, key)
    ensures |Keys(s, key)| == |s|
    decreases |s|
  {
    if |s| > 0 {
      var init := s[..|s| - 1];
      var last := s[|s| - 1];
      assert Unique(init, key) by {
        forall i, j | 0 <= i < j < |init| ensures key(init[i]) != key(init[j]) {
          assert init[i] == s[i] && init[j] == s[j];
        }
      }
      UniqueKeysCard(init, key);
      assert s == init + [last];
      assert Keys(s, key) == Keys(init, key) + {key(last)};
      assert key(last) !in Keys(init, key) by {
        forall x | x in init ensures key(x) != key(last) {
          var i :| 0 <= i < |init| && init[i] == x;
          assert s[i] == x;
        }
      }
    }
  }

  /** A filtered table keeps the UNIQUE constraints of the table. */
  lemma {:induction false} FilterUnique<T(!new), K>(s: seq<T>, p: T -> bool, key: T -> K)
    requires Unique(s, key)
    ensures Unique(Filter(s, p), key)
    decreases |s|
  {
    if |s| > 0 {
      var init := s[..|s| - 1];
      var last := s[|s| - 1];
      assert Unique(init, key) by {
        forall i, j | 0 <= i < j < |init| ensures key(init[i]) != key(init[j]) {
          assert init[i] == s[i] && init[j] == s[j];
        }
      }
      FilterUnique(init, p, key);
      var f := Filter(init, p);
      if p(last) {
        forall i, j | 0 <= i < j < |f| + 1
          ensures key((f + [last])[i]) != key((f + [last])[j])
        {
          if j == |f| {
            assert f[i] in init;
            var k :| 0 <= k < |init| && init[k] == f[i];
            assert s[k] == f[i];
          }
        }
      }
    }
  }

  /** A subset has no more elements than its superset. */
  lemma {:induction false} SubsetCard<K>(a: set<K>, b: set<K>)
    requires a <= b
    ensures |a| <= |b|
    decreases b
  {
    if a != {} {
      var x :| x in a;
      SubsetCard(a - {x}, b - {x});
    }
  }

  /** A subset as large as its superset is the whole superset. */
  lemma SubsetSameCard<K>(a: set<K>, b: set<K>)
    requires a <= b && |a| == |b|
    ensures a == b
  {
    var d := b - a;
    assert a * d == {};
    assert b == a + d;
    assert |d| == 0;
    assert d == {};
  }

  /** Filtering keeps every element exactly when all of them satisfy the predicate. */
  lemma {:induction false} FilterAll<T(!new)>(s: seq<T>, p: T -> bool)
    ensures |Filter(s, p)| == |s| <==> forall i :: 0 <= i < |s| ==> p(s[i])
    decreases |s|
  {
    if |s| > 0 {
      var init := s[..|s| - 1];
      assert s == init + [s[|s| - 1]];
      FilterSnoc(init, s[|s| - 1], p);
      FilterAll(init, p);
      assert forall i :: 0 <= i < |init| ==> init[i] == s[i];
    }
  }

  /** Filtering keeps nothing exactly when no element satisfies the predicate. */
  lemma {:induction false} FilterNone<T(!new)>(s: seq<T>, p: T -> bool)
    ensures |Filter(s, p)| == 0 <==> forall i :: 0 <= i < |s| ==> !p(s[i])
    decreases |s|
  {
    if |s| > 0 {
      var init := s[..|s| - 1];
      assert s == init + [s[|s| - 1]];
      FilterSnoc(init, s[|s| - 1], p);
      FilterNone(init, p);
      assert forall i :: 0 <= i < |init| ==> init[i] == s[i];
    }
  }

  /** A filter by a stronger predicate absorbs a filter by a weaker one. */
  lemma {:induction false} FilterFilter<T(!new)>(s: seq<T>, p: T -> bool, q: T -> bool)
    requires forall x :: q(x) ==> p(x)
    ensures Filter(Filter(s, p), q) == Filter(s, q)
    decreases |s|
  {
    if |s| > 0 {
      var init := s[..|s| - 1];
      var x := s[|s| - 1];
      assert s == init + [x];
      FilterSnoc(init, x, p);
      FilterSnoc(init, x, q);
      FilterFilter(init, p, q);
      if p(x) {
        assert Filter(s, p) == Filter(init, p) + [x];
        FilterSnoc(Filter(init, p), x, q);
      } else {
        assert Filter(s, p) == Filter(init, p);
        assert !q(x);
      }
    }
  }

  /** The defined images of `s` under `f`, last element first. */
  function RevPick<T, U>(s: seq<T>, f: T -> Option<U>): (r: seq<U>)
    ensures |r| <= |s|
    decreases |s|
  {
    if |s| == 0 then []
    else
      var rest := RevPick(s[..|s| - 1], f);
      match f(s[|s| - 1])
      case None => rest
      case Some(y) => [y] + rest
  }

  /** Every picked image comes from some element of `s`. */
  lemma {:induction false} RevPickSound<T, U>(s: seq<T>, f: T -> Option<U>, j: int)
    requires 0 <= j < |RevPick(s, f)|
    ensures exists k :: 0 <= k < |s| && f(s[k]) == Some(RevPick(s, f)[j])
    decreases |s|
  {
    var init := s[..|s| - 1];
    var last := s[|s| - 1];
    if f(last).Some? && j == 0 {
      assert f(s[|s| - 1]) == Some(RevPick(s, f)[0]);
    } else {
      var j' := if f(last).Some? then j - 1 else j;
      assert RevPick(s, f)[j] == RevPick(init, f)[j'];
      RevPickSound(init, f, j');
      var k :| 0 <= k < |init| && f(init[k]) == Some(RevPick(init, f)[j']);
      assert init[k] == s[k];
    }
  }

  /** When `f` is defined everywhere on `s`, nothing is dropped and the order is reversed. */
  lemma {:induction false} RevPickTotal<T, U>(s: seq<T>, f: T -> Option<U>)
    requires forall k :: 0 <= k < |s| ==> f(s[k]).Some?
    ensures |RevPick(s, f)| == |s|
    ensures forall k :: 0 <= k < |s| ==> RevPick(s, f)[k] == f(s[|s| - 1 - k]).value
    decreases |s|
  {
    if |s| > 0 {
      var init := s[..|s| - 1];
      assert forall k :: 0 <= k < |init| ==> init[k] == s[k];
      RevPickTotal(init, f);
      var r := RevPick(s, f);
      assert r == [f(s[|s| - 1]).value] + RevPick(init, f);
      forall k | 1 <= k < |s| ensures r[k] == f(s[|s| - 1 - k]).value {
        assert r[k] == RevPick(init, f)[k - 1];
        assert init[|init| - 1 - (k - 1)] == s[|s| - 1 - k];
      }
    }
  }

  /** The k-th pick of a total `f` is the image of the k-th element from the end. */
  lemma RevPickAt<T, U>(s: seq<T>, f: T -> Option<U>, k: int)
    requires forall j :: 0 <= j < |s| ==> f(s[j]).Some?
    requires 0 <= k < |s|
    ensures |RevPick(s, f)| == |s|
    ensures RevPick(s, f)[k] == f(s[|s| - 1 - k]).value
  {
    RevPickTotal(s, f);
  }

  /** The first two rows of a sequence with distinct keys have different keys. */
  lemma UniqueHeads<T, K>(s: seq<T>, key: T -> K)
    requires Unique(s, key) && |s| >= 2
    ensures key(s[0]) != key(s[1])
  {
  }

  /** When exactly the row at `i` satisfies `p`, `.get()` returns that row. */
  lemma FindOnly<T>(s: seq<T>, p: T -> bool, i: int)
    requires 0 <= i < |s| && p(s[i])
    requires forall j :: 0 <= j < |s| && p(s[j]) ==> j == i
    ensures Find(s, p) == Some(s[i])
  {
  }

  /** A prefix of a prefix is a prefix. */
  lemma PrefixOfPrefix<T>(a: seq<T>, b: seq<T>, c: seq<T>)
    requires |a| <= |b| && b[..|a|] == a
    requires |b| <= |c| && c[..|b|] == b
    ensures c[..|a|] == a
  {
    assert c[..|a|] == c[..|b|][..|a|];
  }
}
