/** The handful of queryset shapes the backend uses, over tables held as
    sequences in insertion order: `.filter(...)`, `.order_by('-key')`,
    `.order_by('-key').first()`, `.get(...)` and Python's `sum(...)`. */
module Queries {
  import opened Results

  /** `.filter(p)`: the rows satisfying `p`, in table order. */
  function Filter<T>(xs: seq<T>, p: T -> bool): (r: seq<T>)
    ensures |r| <= |xs|
    ensures forall i | 0 <= i < |r| :: r[i] in xs && p(r[i])
    ensures forall i | 0 <= i < |xs| && p(xs[i]) :: xs[i] in r
    ensures multiset(r) <= multiset(xs)
  {
    if |xs| == 0 then []
    else
      assert xs == [xs[0]] + xs[1..];
      if p(xs[0]) then [xs[0]] + Filter(xs[1..], p)
      else Filter(xs[1..], p)
  }

  /** `.get(p)`: the first row satisfying `p`, or `None` (`DoesNotExist`). */
  function Find<T>(xs: seq<T>, p: T -> bool): (r: Option<T>)
    ensures r.None? <==> forall i | 0 <= i < |xs| :: !p(xs[i])
    ensures r.Some? ==> r.value in xs && p(r.value)
  {
    if |xs| == 0 then None
    else if p(xs[0]) then Some(xs[0])
    else Find(xs[1..], p)
  }

  /** Python's `sum(...)` of `f` over the rows. */
  function Sum<T>(xs: seq<T>, f: T -> int): int
  {
    if |xs| == 0 then 0 else f(xs[0]) + Sum(xs[1..], f)
  }

  /** The value of a fallible per-row amount, or zero where it fails. */
  function OrZero<T, E>(f: T -> Result<int, E>): T -> int
  {
    x => if f(x).Success? then f(x).value else 0
  }

  /** A loop that accumulates `f` over the rows and is aborted by the first
      row whose amount raises. */
  function SumAll<T, E(==)>(xs: seq<T>, f: T -> Result<int, E>): (r: Result<int, E>)
    ensures r.Success? <==> forall i | 0 <= i < |xs| :: f(xs[i]).Success?
    ensures r.Success? ==> r.value == Sum(xs, OrZero(f))
    ensures r.Failure? ==>
      exists i | 0 <= i < |xs| ::
        && f(xs[i]) == Failure(r.error)
        && forall j | 0 <= j < i :: f(xs[j]).Success?
  {
    if |xs| == 0 then Success(0)
    else
      match f(xs[0])
      case Failure(e) => Failure(e)
      case Success(v) =>
        match SumAll(xs[1..], f)
        case Failure(e) =>
          assert exists i | 0 <= i < |xs[1..]| ::
            && f(xs[1..][i]) == Failure(e)
            && forall j | 0 <= j < i :: f(xs[1..][j]).Success?;
          var i :| 0 <= i < |xs[1..]| &&
            f(xs[1..][i]) == Failure(e) && forall j | 0 <= j < i :: f(xs[1..][j]).Success?;
          assert f(xs[i + 1]) == Failure(e);
          assert forall j | 0 <= j < i + 1 :: f(xs[j]).Success? by {
            forall j | 0 <= j < i + 1 ensures f(xs[j]).Success? {
              if j > 0 { assert xs[j] == xs[1..][j - 1]; }
            }
          }
          Failure(e)
        case Success(s) => Success(v + s)
  }

  lemma {:induction false} SumConcat<T>(a: seq<T>, b: seq<T>, f: T -> int)
    ensures Sum(a + b, f) == Sum(a, f) + Sum(b, f)
  {
    if |a| == 0 {
      assert a + b == b;
    } else {
      assert (a + b)[1..] == a[1..] + b;
      SumConcat(a[1..], b, f);
    }
  }

  /** Removing the row at `i` takes its amount out of the sum. */
  lemma {:induction false} SumRemove<T>(b: seq<T>, i: nat, f: T -> int)
    requires i < |b|
    ensures Sum(b, f) == f(b[i]) + Sum(b[..i] + b[i + 1..], f)
    ensures multiset(b[..i] + b[i + 1..]) == multiset(b) - multiset{b[i]}
  {
    var c := [b[i]] + b[i + 1..];
    assert b == b[..i] + c;
    SumConcat(b[..i], c, f);
    assert c[1..] == b[i + 1..];
    SumConcat(b[..i], b[i + 1..], f);
    assert multiset(c) == multiset{b[i]} + multiset(b[i + 1..]);
  }

  /** Summation does not depend on the order the rows are visited in. */
  lemma {:induction false} SumPermutation<T>(a: seq<T>, b: seq<T>, f: T -> int)
    requires multiset(a) == multiset(b)
    ensures Sum(a, f) == Sum(b, f)
  {
    if |a| == 0 {
      assert |b| == |multiset(b)| == 0;
    } else {
      var x, restA := a[0], a[1..];
      assert multiset(restA) == multiset(a) - multiset{x} by {
        assert a == [x] + restA;
      }
      var restB := PickOut(b, x, f);
      SumPermutation(restA, restB, f);
    }
  }

  /** Takes one occurrence of `x` out of `b`, keeping the rest of the sum. */
  lemma PickOut<T>(b: seq<T>, x: T, f: T -> int) returns (rest: seq<T>)
    requires x in multiset(b)
    ensures |rest| == |b| - 1
    ensures multiset(rest) == multiset(b) - multiset{x}
    ensures Sum(b, f) == f(x) + Sum(rest, f)
  {
    var i :| 0 <= i < |b| && b[i] == x;
    SumRemove(b, i, f);
    rest := b[..i] + b[i + 1..];
  }

  predicate SortedDesc<T>(xs: seq<T>, key: T -> int)
  {
    forall i, j | 0 <= i < j < |xs| :: key(xs[i]) >= key(xs[j])
  }

  /** Inserts `x` before the first row whose key it reaches. */
  function Insert<T>(x: T, xs: seq<T>, key: T -> int): (r: seq<T>)
    ensures |r| == |xs| + 1
  {
    if |xs| == 0 then [x]
    else if key(x) >= key(xs[0]) then [x] + xs
    else [xs[0]] + Insert(x, xs[1..], key)
  }

  lemma {:induction false} InsertMultiset<T>(x: T, xs: seq<T>, key: T -> int)
    ensures multiset(Insert(x, xs, key)) == multiset(xs) + multiset{x}
  {
    if |xs| > 0 && key(x) < key(xs[0]) {
      InsertMultiset(x, xs[1..], key);
      assert xs == [xs[0]] + xs[1..];
    }
  }

  /** A bound on every key survives insertion of a row within the bound. */
  lemma {:induction false} InsertBounded<T>(x: T, xs: seq<T>, key: T -> int, b: int)
    requires key(x) <= b
    requires forall k | 0 <= k < |xs| :: key(xs[k]) <= b
    ensures forall k | 0 <= k < |Insert(x, xs, key)| :: key(Insert(x, xs, key)[k]) <= b
  {
    if |xs| > 0 && key(x) < key(xs[0]) {
      InsertBounded(x, xs[1..], key, b);
      var r := Insert(x, xs, key);
      forall k | 0 <= k < |r| ensures key(r[k]) <= b {
        if k > 0 { assert r[k] == Insert(x, xs[1..], key)[k - 1]; }
      }
    }
  }

  lemma {:induction false} InsertSorted<T>(x: T, xs: seq<T>, key: T -> int)
    requires SortedDesc(xs, key)
    ensures SortedDesc(Insert(x, xs, key), key)
  {
    if |xs| > 0 && key(x) < key(xs[0]) {
      var tail := Insert(x, xs[1..], key);
      InsertSorted(x, xs[1..], key);
      InsertBounded(x, xs[1..], key, key(xs[0]));
      var r := Insert(x, xs, key);
      assert r == [xs[0]] + tail;
      forall i, j | 0 <= i < j < |r| ensures key(r[i]) >= key(r[j]) {
        assert r[j] == tail[j - 1];
        if i > 0 { assert r[i] == tail[i - 1]; }
      }
    }
  }

  /** `.order_by('-key')`: a stable sort, newest (largest key) first. */
  function SortDesc<T>(xs: seq<T>, key: T -> int): (r: seq<T>)
    ensures SortedDesc(r, key)
    ensures multiset(r) == multiset(xs)
    ensures |r| == |xs|
  {
    if |xs| == 0 then []
    else
      var rest := SortDesc(xs[1..], key);
      InsertSorted(xs[0], rest, key);
      InsertMultiset(xs[0], rest, key);
      assert xs == [xs[0]] + xs[1..];
      Insert(xs[0], rest, key)
  }

  /** `.filter(belongs).order_by('-key').first()`: a row of largest key, the
      earliest one in table order when several tie. */
  function Latest<T>(xs: seq<T>, belongs: T -> bool, key: T -> int): (r: Option<T>)
    ensures r.None? <==> forall i | 0 <= i < |xs| :: !belongs(xs[i])
    ensures r.Some? ==> r.value in xs && belongs(r.value)
    ensures r.Some? ==> forall i | 0 <= i < |xs| && belongs(xs[i]) :: key(xs[i]) <= key(r.value)
  {
    if |xs| == 0 then None
    else
      var rest := Latest(xs[..|xs| - 1], belongs, key);
      var last := xs[|xs| - 1];
      if !belongs(last) then rest
      else if rest.None? || key(last) > key(rest.value) then Some(last)
      else rest
  }

  /** A row appended for someone else leaves their newest row alone. */
  lemma LatestAppendOther<T>(xs: seq<T>, x: T, belongs: T -> bool, key: T -> int)
    requires !belongs(x)
    ensures Latest(xs + [x], belongs, key) == Latest(xs, belongs, key)
  {
    assert (xs + [x])[..|xs|] == xs;
  }

  /** A row appended with a strictly larger key than all theirs becomes the newest. */
  lemma LatestAppendNewer<T>(xs: seq<T>, x: T, belongs: T -> bool, key: T -> int)
    requires belongs(x)
    requires forall i | 0 <= i < |xs| && belongs(xs[i]) :: key(xs[i]) < key(x)
    ensures Latest(xs + [x], belongs, key) == Some(x)
  {
    assert (xs + [x])[..|xs|] == xs;
  }

  /** The filtered rows depend only on the rows that satisfy the filter. */
  lemma {:induction false} FilterFrame<T>(xs: seq<T>, ys: seq<T>, p: T -> bool)
    requires |xs| == |ys|
    requires forall i | 0 <= i < |xs| :: p(xs[i]) == p(ys[i])
    requires forall i | 0 <= i < |xs| && p(xs[i]) :: xs[i] == ys[i]
    ensures Filter(xs, p) == Filter(ys, p)
  {
    if |xs| > 0 {
      FilterFrame(xs[1..], ys[1..], p);
    }
  }

  /** Filtering a table with a row appended filters the table, then the row. */
  lemma {:induction false} FilterAppend<T>(xs: seq<T>, x: T, p: T -> bool)
    ensures p(x) ==> Filter(xs + [x], p) == Filter(xs, p) + [x]
    ensures !p(x) ==> Filter(xs + [x], p) == Filter(xs, p)
  {
    var ys := xs + [x];
    if |xs| == 0 {
      assert ys[1..] == [];
    } else {
      assert ys[0] == xs[0] && ys[1..] == xs[1..] + [x];
      FilterAppend(xs[1..], x, p);
      if p(xs[0]) {
        assert Filter(xs, p) == [xs[0]] + Filter(xs[1..], p);
      } else {
        assert Filter(xs, p) == Filter(xs[1..], p);
      }
    }
  }

  /** A key that strictly increases along a sequence. */
  predicate Increasing<T>(xs: seq<T>, key: T -> int)
  {
    forall i, j | 0 <= i < j < |xs| :: key(xs[i]) < key(xs[j])
  }

  /** A row below every key of an increasing sequence can head it. */
  lemma IncreasingCons<T>(x: T, rest: seq<T>, key: T -> int)
    requires Increasing(rest, key)
    requires forall k | 0 <= k < |rest| :: key(x) < key(rest[k])
    ensures Increasing([x] + rest, key)
  {
    var r := [x] + rest;
    forall i, j | 0 <= i < j < |r| ensures key(r[i]) < key(r[j]) {
      assert r[j] == rest[j - 1];
      if i > 0 {
        assert r[i] == rest[i - 1];
      }
    }
  }

  /** Filtering keeps table order: a key that strictly increases along the
      table strictly increases along the filtered rows. */
  lemma {:induction false} FilterIncreasing<T>(xs: seq<T>, p: T -> bool, key: T -> int)
    requires Increasing(xs, key)
    ensures Increasing(Filter(xs, p), key)
  {
    if |xs| > 0 {
      var tail := xs[1..];
      assert Increasing(tail, key) by {
        forall i, j | 0 <= i < j < |tail| ensures key(tail[i]) < key(tail[j]) {
          assert tail[i] == xs[i + 1] && tail[j] == xs[j + 1];
        }
      }
      FilterIncreasing(tail, p, key);
      var rest := Filter(tail, p);
      if p(xs[0]) {
        assert forall k | 0 <= k < |rest| :: key(xs[0]) < key(rest[k]) by {
          forall k | 0 <= k < |rest| ensures key(xs[0]) < key(rest[k]) {
            var m :| 0 <= m < |tail| && tail[m] == rest[k];
            assert xs[m + 1] == rest[k];
          }
        }
        IncreasingCons(xs[0], rest, key);
        assert Filter(xs, p) == [xs[0]] + rest;
      } else {
        assert Filter(xs, p) == rest;
      }
    }
  }

  /** `Latest` over a table with one more row at the end. */
  lemma LatestSnoc<T>(ys: seq<T>, y: T, belongs: T -> bool, key: T -> int)
    ensures Latest(ys + [y], belongs, key) ==
      if !belongs(y) then Latest(ys, belongs, key)
      else if Latest(ys, belongs, key).None? || key(y) > key(Latest(ys, belongs, key).value) then Some(y)
      else Latest(ys, belongs, key)
  {
    assert (ys + [y])[..|ys|] == ys;
  }

  /** Dropping rows that cannot belong leaves the newest row unchanged. */
  lemma {:induction false} LatestOfFilter<T>(xs: seq<T>, q: T -> bool, belongs: T -> bool, key: T -> int)
    requires forall i | 0 <= i < |xs| && belongs(xs[i]) :: q(xs[i])
    ensures Latest(Filter(xs, q), belongs, key) == Latest(xs, belongs, key)
  {
    if |xs| > 0 {
      var init, last := xs[..|xs| - 1], xs[|xs| - 1];
      assert xs == init + [last];
      assert forall i | 0 <= i < |init| && belongs(init[i]) :: q(init[i]) by {
        forall i | 0 <= i < |init| && belongs(init[i]) ensures q(init[i]) {
          assert init[i] == xs[i];
        }
      }
      LatestOfFilter(init, q, belongs, key);
      FilterAppend(init, last, q);
      LatestSnoc(init, last, belongs, key);
      if q(last) {
        LatestSnoc(Filter(init, q), last, belongs, key);
      }
    }
  }

  /** The newest row depends only on the rows that belong. */
  lemma {:induction false} LatestFrame<T>(xs: seq<T>, ys: seq<T>, belongs: T -> bool, key: T -> int)
    requires |xs| == |ys|
    requires forall i | 0 <= i < |xs| :: belongs(xs[i]) == belongs(ys[i])
    requires forall i | 0 <= i < |xs| && belongs(xs[i]) :: xs[i] == ys[i]
    ensures Latest(xs, belongs, key) == Latest(ys, belongs, key)
  {
    if |xs| > 0 {
      LatestFrame(xs[..|xs| - 1], ys[..|ys| - 1], belongs, key);
    }
  }

  /** The first row of the sorted view has the same key as `Latest`. */
  lemma LatestHeadsSorted<T>(xs: seq<T>, belongs: T -> bool, key: T -> int)
    ensures Latest(xs, belongs, key).Some? <==> |SortDesc(Filter(xs, belongs), key)| > 0
    ensures Latest(xs, belongs, key).Some? ==>
      key(Latest(xs, belongs, key).value) == key(SortDesc(Filter(xs, belongs), key)[0])
  {
    var f := Filter(xs, belongs);
    var s := SortDesc(f, key);
    var r := Latest(xs, belongs, key);
    if r.Some? {
      assert r.value in f;
      assert r.value in multiset(s);
      var k :| 0 <= k < |s| && s[k] == r.value;
      assert s[0] in multiset(f);
      assert s[0] in f;
      var m :| 0 <= m < |xs| && xs[m] == s[0];
      assert key(s[0]) >= key(s[k]);
    }
  }

  /** A property holds of every row of a reordering of `.filter(p)` exactly
      when it holds of every row of the table that satisfies `p`. */
  lemma AllOnPermutedFilter<T>(xs: seq<T>, ys: seq<T>, p: T -> bool, g: T -> bool)
    requires multiset(ys) == multiset(Filter(xs, p))
    ensures (forall i | 0 <= i < |ys| :: g(ys[i])) <==> (forall i | 0 <= i < |xs| && p(xs[i]) :: g(xs[i]))
  {
    var f := Filter(xs, p);
    if forall i | 0 <= i < |xs| && p(xs[i]) :: g(xs[i]) {
      forall i | 0 <= i < |ys| ensures g(ys[i]) {
        assert ys[i] in multiset(ys);
        assert ys[i] in f;
        var k :| 0 <= k < |xs| && xs[k] == ys[i];
      }
    }
    if forall i | 0 <= i < |ys| :: g(ys[i]) {
      forall i | 0 <= i < |xs| && p(xs[i]) ensures g(xs[i]) {
        assert xs[i] in f;
        assert xs[i] in multiset(ys);
        var k :| 0 <= k < |ys| && ys[k] == xs[i];
      }
    }
  }
}
