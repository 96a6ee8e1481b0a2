/** The JavaScript array operations the dashboard's derived views are built
    from: `filter`, `map`, `slice`, `[...new Set(xs)]` and the default `sort`
    on strings. */
module ArrayOps {
  import opened Text

  /** `s.filter(keep)`: the elements `keep` accepts, in their original order. */
  function Filter<T(!new)>(s: seq<T>, keep: T -> bool): (r: seq<T>)
    ensures |r| <= |s|
    ensures forall x :: x in r <==> x in s && keep(x)
  {
    if s == [] then []
    else
      assert s == [s[0]] + s[1..];
      (if keep(s[0]) then [s[0]] else []) + Filter(s[1..], keep)
  }

  /** `idx` lists, in increasing order, the positions of `s` whose elements make
      up `r`, and it lists every position whose element `keep` accepts: `r` is
      the subsequence of `s` that `keep` selects. */
  ghost predicate SelectedBy<T>(s: seq<T>, r: seq<T>, keep: T -> bool, idx: seq<int>)
  {
    && |idx| == |r|
    && (forall k :: 0 <= k < |idx| ==> 0 <= idx[k] < |s| && r[k] == s[idx[k]])
    && (forall k, k' :: 0 <= k < k' < |idx| ==> idx[k] < idx[k'])
    && (forall i :: 0 <= i < |s| && keep(s[i]) ==> i in idx)
  }

  /** Every position shifted up by one. */
  function ShiftUp(idx: seq<int>): (r: seq<int>)
    ensures |r| == |idx|
    ensures forall k :: 0 <= k < |idx| ==> r[k] == idx[k] + 1
  {
    seq(|idx|, k requires 0 <= k < |idx| => idx[k] + 1)
  }

  /** Putting the first element back in front of the selection made from the rest
      of `s`, when `keep` accepts it, gives the selection made from `s`. */
  lemma SelectedByCons<T>(s: seq<T>, keep: T -> bool, tail: seq<T>, rest: seq<int>) returns (idx: seq<int>)
    requires s != [] && SelectedBy(s[1..], tail, keep, rest)
    ensures SelectedBy(s, (if keep(s[0]) then [s[0]] else []) + tail, keep, idx)
  {
    var r := (if keep(s[0]) then [s[0]] else []) + tail;
    var head := if keep(s[0]) then [0] else [];
    idx := head + ShiftUp(rest);
    ConsPositions(s, keep, tail, rest, r, head, idx);
    ConsIncreasing(rest, head, idx);
    ConsComplete(s, keep, tail, rest, head, idx);
  }

  lemma ConsPositions<T>(s: seq<T>, keep: T -> bool, tail: seq<T>, rest: seq<int>, r: seq<T>, head: seq<int>, idx: seq<int>)
    requires s != [] && SelectedBy(s[1..], tail, keep, rest)
    requires r == (if keep(s[0]) then [s[0]] else []) + tail
    requires head == (if keep(s[0]) then [0] else []) && idx == head + ShiftUp(rest)
    ensures forall k :: 0 <= k < |idx| ==> 0 <= idx[k] < |s| && r[k] == s[idx[k]]
  {
    forall k | 0 <= k < |idx|
      ensures 0 <= idx[k] < |s| && r[k] == s[idx[k]]
    {
      if k >= |head| {
        var k' := k - |head|;
        assert idx[k] == rest[k'] + 1;
        assert r[k] == tail[k'] == s[1..][rest[k']];
      }
    }
  }

  lemma ConsIncreasing(rest: seq<int>, head: seq<int>, idx: seq<int>)
    requires forall k, k' :: 0 <= k < k' < |rest| ==> rest[k] < rest[k']
    requires forall k :: 0 <= k < |rest| ==> 0 <= rest[k]
    requires head == [] || head == [0]
    requires idx == head + ShiftUp(rest)
    ensures forall k, k' :: 0 <= k < k' < |idx| ==> idx[k] < idx[k']
  {
    var shifted := ShiftUp(rest);
    assert forall k, k' :: 0 <= k < k' < |shifted| ==> shifted[k] < shifted[k'];
    if head == [0] {
      assert forall k :: 0 < k < |idx| ==> idx[k] == shifted[k - 1] > 0;
    }
  }

  lemma ConsComplete<T>(s: seq<T>, keep: T -> bool, tail: seq<T>, rest: seq<int>, head: seq<int>, idx: seq<int>)
    requires s != [] && SelectedBy(s[1..], tail, keep, rest)
    requires head == (if keep(s[0]) then [0] else []) && idx == head + ShiftUp(rest)
    ensures forall i :: 0 <= i < |s| && keep(s[i]) ==> i in idx
  {
    forall i | 0 <= i < |s| && keep(s[i])
      ensures i in idx
    {
      if i > 0 {
        assert s[1..][i - 1] == s[i];
        assert i - 1 in rest;
        var k :| 0 <= k < |rest| && rest[k] == i - 1;
        assert idx[|head| + k] == i;
      }
    }
  }

  /** `filter` keeps order: its result is the subsequence of kept positions. */
  lemma {:induction false} FilterSelects<T(!new)>(s: seq<T>, keep: T -> bool) returns (idx: seq<int>)
    ensures SelectedBy(s, Filter(s, keep), keep, idx)
  {
    if s == [] {
      idx := [];
    } else {
      var rest := FilterSelects(s[1..], keep);
      idx := SelectedByCons(s, keep, Filter(s[1..], keep), rest);
    }
  }

  /** `filter` keeps every accepted element as often as it occurs, and no other. */
  lemma {:induction false} FilterCounts<T(!new)>(s: seq<T>, keep: T -> bool, x: T)
    ensures multiset(Filter(s, keep))[x] == if keep(x) then multiset(s)[x] else 0
  {
    if s != [] {
      FilterCounts(s[1..], keep, x);
      assert s == [s[0]] + s[1..];
    }
  }

  /** A filter that keeps everything returns its input. */
  lemma {:induction false} FilterKeepsAll<T(!new)>(s: seq<T>, keep: T -> bool)
    requires forall x :: x in s ==> keep(x)
    ensures Filter(s, keep) == s
  {
    if s != [] {
      FilterKeepsAll(s[1..], keep);
    }
  }

  /** A filter that keeps nothing returns nothing. */
  lemma {:induction false} FilterKeepsNone<T(!new)>(s: seq<T>, keep: T -> bool)
    requires forall x :: x in s ==> !keep(x)
    ensures Filter(s, keep) == []
  {
    if s != [] {
      FilterKeepsNone(s[1..], keep);
    }
  }

  /** Filtering distributes over concatenation. */
  lemma {:induction false} FilterAppend<T(!new)>(a: seq<T>, b: seq<T>, keep: T -> bool)
    ensures Filter(a + b, keep) == Filter(a, keep) + Filter(b, keep)
  {
    if a != [] {
      assert (a + b)[1..] == a[1..] + b;
      FilterAppend(a[1..], b, keep);
    } else {
      assert a + b == b;
    }
  }

  /** Two tests that agree on every element select the same elements. */
  lemma {:induction false} FilterCongruent<T(!new)>(s: seq<T>, p: T -> bool, q: T -> bool)
    requires forall x :: x in s ==> p(x) == q(x)
    ensures Filter(s, p) == Filter(s, q)
  {
    if s != [] {
      FilterCongruent(s[1..], p, q);
    }
  }

  /** `s.map(f)`. */
  function Map<T, U>(s: seq<T>, f: T -> U): (r: seq<U>)
    ensures |r| == |s|
    ensures forall i :: 0 <= i < |s| ==> r[i] == f(s[i])
  {
    if s == [] then [] else [f(s[0])] + Map(s[1..], f)
  }

  /** A value occurs in `s.map(f)` exactly when it is the image of an element of `s`. */
  lemma MapMembership<T, U>(s: seq<T>, f: T -> U, y: U)
    ensures y in Map(s, f) <==> exists x :: x in s && f(x) == y
  {
    var r := Map(s, f);
    if y in r {
      var i :| 0 <= i < |r| && r[i] == y;
      assert s[i] in s && f(s[i]) == y;
    }
    if exists x :: x in s && f(x) == y {
      var x :| x in s && f(x) == y;
      var i :| 0 <= i < |s| && s[i] == x;
      assert r[i] == y;
    }
  }

  /** Where a `slice` bound lands in a sequence of length `n`: a negative bound
      counts back from the end, and every bound is clamped to `[0, n]`. */
  function SliceBound(i: int, n: nat): (r: nat)
    ensures r <= n
    ensures 0 <= i <= n ==> r == i
  {
    if i < 0 then (if n + i < 0 then 0 else n + i)
    else if i < n then i
    else n
  }

  /** `s.slice(start, end)`. */
  function Slice<T>(s: seq<T>, start: int, end: int): (r: seq<T>)
    ensures start <= end ==> |r| <= end - start
    ensures 0 <= start <= end ==> r == if start <= |s| then s[start..if end <= |s| then end else |s|] else []
  {
    var a, b := SliceBound(start, |s|), SliceBound(end, |s|);
    if a < b then s[a..b] else []
  }

  predicate NoDuplicates<T(==)>(s: seq<T>)
  {
    forall i, j :: 0 <= i < j < |s| ==> s[i] != s[j]
  }

  /** `[...new Set(xs)]`: each value of `xs` once. */
  function Distinct<T(==,!new)>(xs: seq<T>): (r: seq<T>)
    ensures forall x :: x in r <==> x in xs
    ensures NoDuplicates(r)
  {
    if xs == [] then []
    else
      var r := Distinct(xs[..|xs| - 1]);
      var x := xs[|xs| - 1];
      assert xs == xs[..|xs| - 1] + [x];
      if x in r then r else r + [x]
  }

  /** Ascending in the default string order. */
  predicate Sorted(s: seq<string>)
  {
    forall i, j :: 0 <= i < j < |s| ==> StrLe(s[i], s[j])
  }

  /** Inserts `x` in front of the first element that is not below it. */
  function Insert(x: string, s: seq<string>): (r: seq<string>)
    ensures multiset(r) == multiset(s) + multiset{x}
  {
    if s == [] || StrLe(x, s[0]) then [x] + s
    else
      assert s == [s[0]] + s[1..];
      [s[0]] + Insert(x, s[1..])
  }

  lemma {:induction false} InsertSorted(x: string, s: seq<string>)
    requires Sorted(s)
    ensures Sorted(Insert(x, s))
  {
    if s == [] || StrLe(x, s[0]) {
      var r := [x] + s;
      forall i, j | 0 <= i < j < |r|
        ensures StrLe(r[i], r[j])
      {
        if i == 0 {
          if j > 1 {
            StrLeTransitive(x, s[0], s[j - 1]);
          }
        }
      }
    } else {
      StrLeTotal(x, s[0]);
      InsertSorted(x, s[1..]);
      var tail := Insert(x, s[1..]);
      var r := [s[0]] + tail;
      forall i, j | 0 <= i < j < |r|
        ensures StrLe(r[i], r[j])
      {
        if i == 0 {
          assert r[j] in multiset(tail);
          assert r[j] == x || r[j] in s[1..];
        }
      }
    }
  }

  lemma {:induction false} InsertNoDuplicates(x: string, s: seq<string>)
    requires NoDuplicates(s) && x !in s
    ensures NoDuplicates(Insert(x, s))
  {
    if s != [] && !StrLe(x, s[0]) {
      InsertNoDuplicates(x, s[1..]);
      var tail := Insert(x, s[1..]);
      assert s[0] !in multiset(tail);
    }
  }

  /** The default `sort` on strings, as an insertion sort. */
  function Sort(xs: seq<string>): (r: seq<string>)
    ensures multiset(r) == multiset(xs)
  {
    if xs == [] then []
    else
      assert xs == [xs[0]] + xs[1..];
      Insert(xs[0], Sort(xs[1..]))
  }

  lemma {:induction false} SortSorted(xs: seq<string>)
    ensures Sorted(Sort(xs))
  {
    if xs != [] {
      SortSorted(xs[1..]);
      InsertSorted(xs[0], Sort(xs[1..]));
    }
  }

  lemma {:induction false} SortNoDuplicates(xs: seq<string>)
    requires NoDuplicates(xs)
    ensures NoDuplicates(Sort(xs))
  {
    if xs != [] {
      SortNoDuplicates(xs[1..]);
      assert xs[0] !in multiset(Sort(xs[1..]));
      InsertNoDuplicates(xs[0], Sort(xs[1..]));
    }
  }

  lemma HeadIn<T>(s: seq<T>)
    requires s != []
    ensures s[0] in s
  {
  }

  /** A sorted, duplicate-free list is fixed by the values it holds, so any
      correct sorting routine yields the same option list as `Sort`. */
  lemma {:induction false} SortedDistinctDetermined(a: seq<string>, b: seq<string>)
    requires Sorted(a) && NoDuplicates(a) && Sorted(b) && NoDuplicates(b)
    requires forall x :: x in a <==> x in b
    ensures a == b
  {
    if a == [] {
      if b != [] {
        HeadIn(b);
      }
    } else {
      assert a[0] in b;
      assert b != [] && b[0] in a;
      var i :| 0 <= i < |a| && a[i] == b[0];
      var j :| 0 <= j < |b| && b[j] == a[0];
      if i > 0 {
        assert StrLe(a[0], b[0]);
      } else {
        StrLeReflexive(a[0]);
      }
      if j > 0 {
        assert StrLe(b[0], a[0]);
      } else {
        StrLeReflexive(b[0]);
      }
      StrLeAntisymmetric(a[0], b[0]);
      forall x
        ensures x in a[1..] <==> x in b[1..]
      {
        assert a == [a[0]] + a[1..];
        assert b == [b[0]] + b[1..];
        if x in a[1..] {
          var k :| 0 <= k < |a[1..]| && a[1..][k] == x;
          assert a[k + 1] == x && x != a[0];
          assert x in b;
          var m :| 0 <= m < |b| && b[m] == x;
          assert m != 0 && b[1..][m - 1] == x;
        }
        if x in b[1..] {
          var k :| 0 <= k < |b[1..]| && b[1..][k] == x;
          assert b[k + 1] == x && x != b[0];
          assert x in a;
          var m :| 0 <= m < |a| && a[m] == x;
          assert m != 0 && a[1..][m - 1] == x;
        }
      }
      SortedDistinctDetermined(a[1..], b[1..]);
      assert a == [a[0]] + a[1..];
      assert b == [b[0]] + b[1..];
    }
  }

  /** `[...new Set(values)].sort()`: the option list behind a filter dropdown. */
  function OptionList(values: seq<string>): (r: seq<string>)
    ensures Sorted(r) && NoDuplicates(r)
    ensures forall v :: v in r <==> v in values
  {
    var d := Distinct(values);
    SortSorted(d);
    SortNoDuplicates(d);
    assert forall v :: v in Sort(d) <==> v in multiset(Sort(d));
    Sort(d)
  }
}
