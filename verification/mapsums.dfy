/**
 * Go's `map[string]int` as used for counting: a missing key reads as 0 and
 * `m[k] += v` inserts `k` when it was missing. `Sum` adds up all values.
 */
module MapSums {

  /** `m[k]` in Go: the stored value, or the zero value when `k` is missing. */
  function Get(m: map<string, int>, k: string): int {
    if k in m then m[k] else 0
  }

  /** `m[k] += v` in Go. */
  function AddTo(m: map<string, int>, k: string, v: int): map<string, int> {
    m[k := Get(m, k) + v]
  }

  /** Adds every entry of `delta` into `m`, as a sequence of `m[k] += delta[k]`. */
  function MergeAdd(m: map<string, int>, delta: map<string, int>): map<string, int> {
    map k | k in m.Keys + delta.Keys :: Get(m, k) + Get(delta, k)
  }

  /** `m[k] += v` inserts `k`, adds `v` at `k` and changes nothing else. */
  lemma AddToEntries(m: map<string, int>, k: string, v: int)
    ensures AddTo(m, k, v).Keys == m.Keys + {k}
    ensures Get(AddTo(m, k, v), k) == Get(m, k) + v
    ensures forall j :: j != k ==> Get(AddTo(m, k, v), j) == Get(m, j)
  {
  }

  /** Merging adds pointwise, and the keys are those of either side. */
  lemma MergeAddEntries(m: map<string, int>, delta: map<string, int>)
    ensures MergeAdd(m, delta).Keys == m.Keys + delta.Keys
    ensures forall k :: Get(MergeAdd(m, delta), k) == Get(m, k) + Get(delta, k)
  {
  }

  /** The sum of all values of `m`. */
  ghost function Sum(m: map<string, int>): int
    decreases |m|
  {
    if m == map[] then 0
    else
      var k :| k in m;
      m[k] + Sum(m - {k})
  }

  /** Any entry can be taken out of the sum first. */
  lemma {:induction false} SumRemove(m: map<string, int>, k: string)
    requires k in m
    ensures Sum(m) == m[k] + Sum(m - {k})
    decreases |m|
  {
    var j :| j in m && Sum(m) == m[j] + Sum(m - {j});
    if j != k {
      var mj, mk := m - {j}, m - {k};
      assert mj.Keys == m.Keys - {j};
      assert mk.Keys == m.Keys - {k};
      SumRemove(mj, k);
      SumRemove(mk, j);
      assert mj - {k} == mk - {j};
    }
  }

  lemma RemoveSize(m: map<string, int>, k: string)
    requires k in m
    ensures |m - {k}| == |m| - 1
  {
    assert (m - {k}).Keys == m.Keys - {k};
  }

  /** `m[k] += v` adds exactly `v` to the sum. */
  lemma SumAddTo(m: map<string, int>, k: string, v: int)
    ensures Sum(AddTo(m, k, v)) == Sum(m) + v
  {
    var r := AddTo(m, k, v);
    SumRemove(r, k);
    if k in m {
      SumRemove(m, k);
      assert r - {k} == m - {k};
    } else {
      assert r - {k} == m;
    }
  }

  /** Adding a map of increments adds its sum. */
  lemma {:induction false} SumMergeAdd(m: map<string, int>, delta: map<string, int>)
    ensures Sum(MergeAdd(m, delta)) == Sum(m) + Sum(delta)
    decreases |delta|
  {
    if delta != map[] {
      var k :| k in delta;
      var rest := delta - {k};
      var m' := AddTo(m, k, delta[k]);
      RemoveSize(delta, k);
      MergeAddStep(m, delta, k);
      SumMergeAdd(m', rest);
      SumAddTo(m, k, delta[k]);
      SumRemove(delta, k);
    } else {
      assert MergeAdd(m, delta) == m;
    }
  }

  /** Applying one increment first leaves the rest to be merged. */
  lemma MergeAddStep(m: map<string, int>, delta: map<string, int>, k: string)
    requires k in delta
    ensures MergeAdd(m, delta) == MergeAdd(AddTo(m, k, delta[k]), delta - {k})
  {
    var l, r := MergeAdd(m, delta), MergeAdd(AddTo(m, k, delta[k]), delta - {k});
    assert l.Keys == r.Keys;
    forall j | j in l
      ensures l[j] == r[j]
    {
      assert Get(l, j) == Get(r, j);
    }
  }

  /** Inserting a fresh key adds its value to the sum. */
  lemma SumInsert(m: map<string, int>, k: string, v: int)
    requires k !in m
    ensures Sum(m[k := v]) == Sum(m) + v
  {
    assert m[k := v] == AddTo(m, k, v);
    SumAddTo(m, k, v);
  }

  /** Merging one more fresh increment is one more `m[k] += v`. */
  lemma MergeAddInsert(m: map<string, int>, delta: map<string, int>, k: string, v: int)
    requires k !in delta
    ensures MergeAdd(m, delta[k := v]) == AddTo(MergeAdd(m, delta), k, v)
  {
    var l, r := MergeAdd(m, delta[k := v]), AddTo(MergeAdd(m, delta), k, v);
    assert l.Keys == r.Keys;
    forall j | j in l
      ensures l[j] == r[j]
    {
      assert Get(l, j) == Get(r, j);
    }
  }
}
