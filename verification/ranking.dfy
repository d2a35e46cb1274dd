/**
 * The ordering of `printRankingByDepartment`: `sort.SliceStable` with the
 * comparison `totals[a] > totals[b]`, modelled as a stable insertion sort
 * that puts higher totals first.
 */
module Ranking {
  import opened MapSums

  /** No department is followed by one with a higher total. */
  predicate SortedByTotal(s: seq<string>, totals: map<string, int>) {
    forall i, j :: 0 <= i < j < |s| ==> Get(totals, s[i]) >= Get(totals, s[j])
  }

  /** The departments of `s` whose total is `v`, in the order of `s`. */
  function WithTotal(s: seq<string>, totals: map<string, int>, v: int): seq<string>
    decreases |s|
  {
    if |s| == 0 then []
    else (if Get(totals, s[0]) == v then [s[0]] else []) + WithTotal(s[1..], totals, v)
  }

  /** Inserts `x` after every element whose total is at least its own. */
  function Insert(x: string, s: seq<string>, totals: map<string, int>): seq<string>
    decreases |s|
  {
    if |s| == 0 then [x]
    else if Get(totals, s[0]) >= Get(totals, x) then [s[0]] + Insert(x, s[1..], totals)
    else [x] + s
  }

  /** Insertion sort of the department keys, highest total first. */
  function SortByTotal(keys: seq<string>, totals: map<string, int>): seq<string>
    decreases |keys|
  {
    if |keys| == 0 then []
    else Insert(keys[|keys| - 1], SortByTotal(keys[..|keys| - 1], totals), totals)
  }

  lemma {:induction false} InsertPermutation(x: string, s: seq<string>, totals: map<string, int>)
    ensures multiset(Insert(x, s, totals)) == multiset(s) + multiset{x}
    decreases |s|
  {
    if |s| > 0 && Get(totals, s[0]) >= Get(totals, x) {
      InsertPermutation(x, s[1..], totals);
      assert s == [s[0]] + s[1..];
    }
  }

  /** Inserting keeps every total under a bound that `x` and all of `s` respect. */
  lemma {:induction false} InsertBounded(x: string, s: seq<string>, totals: map<string, int>, bound: int)
    requires Get(totals, x) <= bound
    requires forall i :: 0 <= i < |s| ==> Get(totals, s[i]) <= bound
    ensures forall i :: 0 <= i < |Insert(x, s, totals)| ==> Get(totals, Insert(x, s, totals)[i]) <= bound
    decreases |s|
  {
    if |s| > 0 && Get(totals, s[0]) >= Get(totals, x) {
      InsertBounded(x, s[1..], totals, bound);
      var r, rest := Insert(x, s, totals), Insert(x, s[1..], totals);
      assert r == [s[0]] + rest;
      forall i | 0 < i < |r|
        ensures Get(totals, r[i]) <= bound
      {
        assert r[i] == rest[i - 1];
      }
    }
  }

  lemma {:induction false} InsertSorted(x: string, s: seq<string>, totals: map<string, int>)
    requires SortedByTotal(s, totals)
    ensures SortedByTotal(Insert(x, s, totals), totals)
    decreases |s|
  {
    if |s| > 0 && Get(totals, s[0]) >= Get(totals, x) {
      var rest := Insert(x, s[1..], totals);
      InsertSorted(x, s[1..], totals);
      InsertBounded(x, s[1..], totals, Get(totals, s[0]));
      var r := Insert(x, s, totals);
      assert r == [s[0]] + rest;
      forall i, j | 0 <= i < j < |r|
        ensures Get(totals, r[i]) >= Get(totals, r[j])
      {
        assert r[j] == rest[j - 1];
        if i > 0 {
          assert r[i] == rest[i - 1];
        }
      }
    } else if |s| > 0 {
      var r := Insert(x, s, totals);
      assert r == [x] + s;
      forall i, j | 0 <= i < j < |r|
        ensures Get(totals, r[i]) >= Get(totals, r[j])
      {
        assert r[j] == s[j - 1];
        if i > 0 {
          assert r[i] == s[i - 1];
        }
      }
    }
  }

  lemma {:induction false} WithTotalAppend(a: seq<string>, b: seq<string>, totals: map<string, int>, v: int)
    ensures WithTotal(a + b, totals, v) == WithTotal(a, totals, v) + WithTotal(b, totals, v)
    decreases |a|
  {
    if |a| == 0 {
      assert a + b == b;
    } else {
      assert (a + b)[1..] == a[1..] + b;
      WithTotalAppend(a[1..], b, totals, v);
    }
  }

  lemma {:induction false} WithTotalNone(s: seq<string>, totals: map<string, int>, v: int)
    requires forall i :: 0 <= i < |s| ==> Get(totals, s[i]) < v
    ensures WithTotal(s, totals, v) == []
    decreases |s|
  {
    if |s| > 0 {
      WithTotalNone(s[1..], totals, v);
    }
  }

  lemma WithTotalCons(a: string, s: seq<string>, totals: map<string, int>, v: int)
    ensures WithTotal([a] + s, totals, v) == (if Get(totals, a) == v then [a] else []) + WithTotal(s, totals, v)
  {
    assert ([a] + s)[0] == a && ([a] + s)[1..] == s;
  }

  /** Inserting into a sorted sequence places `x` after every element with its total. */
  lemma {:induction false} InsertStable(x: string, s: seq<string>, totals: map<string, int>, v: int)
    requires SortedByTotal(s, totals)
    ensures WithTotal(Insert(x, s, totals), totals, v)
         == WithTotal(s, totals, v) + (if Get(totals, x) == v then [x] else [])
    decreases |s|
  {
    if |s| == 0 {
      assert Insert(x, s, totals) == [x] + s;
      WithTotalCons(x, s, totals, v);
    } else if Get(totals, s[0]) >= Get(totals, x) {
      var rest := s[1..];
      assert s == [s[0]] + rest;
      assert Insert(x, s, totals) == [s[0]] + Insert(x, rest, totals);
      InsertStable(x, rest, totals, v);
      WithTotalCons(s[0], Insert(x, rest, totals), totals, v);
      WithTotalCons(s[0], rest, totals, v);
    } else {
      assert Insert(x, s, totals) == [x] + s;
      WithTotalCons(x, s, totals, v);
      if Get(totals, x) == v {
        WithTotalNone(s, totals, v);
      }
    }
  }

  /** The ranking holds the same departments as its input, as often as they occur there. */
  lemma {:induction false} SortPermutation(keys: seq<string>, totals: map<string, int>)
    ensures multiset(SortByTotal(keys, totals)) == multiset(keys)
    decreases |keys|
  {
    if |keys| > 0 {
      var prefix := keys[..|keys| - 1];
      SortPermutation(prefix, totals);
      InsertPermutation(keys[|keys| - 1], SortByTotal(prefix, totals), totals);
      assert keys == prefix + [keys[|keys| - 1]];
    }
  }

  /** The ranking never puts a lower total before a higher one. */
  lemma {:induction false} SortSorted(keys: seq<string>, totals: map<string, int>)
    ensures SortedByTotal(SortByTotal(keys, totals), totals)
    decreases |keys|
  {
    if |keys| > 0 {
      SortSorted(keys[..|keys| - 1], totals);
      InsertSorted(keys[|keys| - 1], SortByTotal(keys[..|keys| - 1], totals), totals);
    }
  }

  /** Departments with equal totals keep their input order. */
  lemma {:induction false} SortStable(keys: seq<string>, totals: map<string, int>, v: int)
    ensures WithTotal(SortByTotal(keys, totals), totals, v) == WithTotal(keys, totals, v)
    decreases |keys|
  {
    if |keys| > 0 {
      var prefix, x := keys[..|keys| - 1], keys[|keys| - 1];
      SortStable(prefix, totals, v);
      SortSorted(prefix, totals);
      InsertStable(x, SortByTotal(prefix, totals), totals, v);
      assert keys == prefix + [x];
      WithTotalAppend(prefix, [x], totals, v);
      assert WithTotal([x], totals, v) == (if Get(totals, x) == v then [x] else []) + WithTotal([], totals, v);
    }
  }
}
