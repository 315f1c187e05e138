/** ext/klib/ksort.h, ks_mergesort: bottom-up merge sort between two buffers, stable for any strict weak order. */
module MergeSort {
  import opened Powers

  ghost predicate StrictWeak<T(!new)>(lt: (T, T) -> bool) {
    && (forall x :: !lt(x, x))
    && (forall x, y, z :: lt(x, y) && lt(y, z) ==> lt(x, z))
    // being below is decided alike for elements that are equivalent
    && (forall x, y, z :: lt(x, y) && !lt(z, y) ==> lt(x, z))
  }

  // ---- the stable sort as a function ------------------------------------------

  /** Put `x` behind everything that is not above it. */
  function Insert<T>(lt: (T, T) -> bool, x: T, s: seq<T>): (r: seq<T>)
    ensures |r| == |s| + 1
  {
    if s == [] || lt(x, s[0]) then [x] + s else [s[0]] + Insert(lt, x, s[1..])
  }

  /** Insert the elements one by one, in the order given. */
  function StableSort<T>(lt: (T, T) -> bool, s: seq<T>): (r: seq<T>)
    ensures |r| == |s|
  {
    if s == [] then [] else Insert(lt, s[|s| - 1], StableSort(lt, s[..|s| - 1]))
  }

  /** Merge two sequences, the first one going first among equivalent elements. */
  function Merge<T>(lt: (T, T) -> bool, a: seq<T>, b: seq<T>): (r: seq<T>)
    ensures |r| == |a| + |b|
    decreases |a| + |b|
  {
    if a == [] then b
    else if b == [] then a
    else if lt(b[0], a[0]) then [b[0]] + Merge(lt, a, b[1..])
    else [a[0]] + Merge(lt, a[1..], b)
  }

  lemma {:induction false} MergeInsert<T(!new)>(lt: (T, T) -> bool, a: seq<T>, b: seq<T>, x: T)
    requires StrictWeak(lt)
    ensures Merge(lt, a, Insert(lt, x, b)) == Insert(lt, x, Merge(lt, a, b))
    decreases |a| + |b|
  {
    if a == [] {
    } else if b == [] {
      if !lt(x, a[0]) {
        MergeInsert(lt, a[1..], b, x);
        assert Insert(lt, x, b) == [x];
      }
    } else if lt(b[0], a[0]) {
      if lt(x, b[0]) {
        assert ([x] + b)[1..] == b;
      } else {
        MergeInsert(lt, a, b[1..], x);
        assert Insert(lt, x, b)[1..] == Insert(lt, x, b[1..]);
      }
    } else if lt(x, a[0]) {
      assert ([x] + b)[1..] == b;
    } else {
      MergeInsert(lt, a[1..], b, x);
    }
  }

  /** Merging two sorted halves is sorting the whole. */
  lemma {:induction false} MergeSorted<T(!new)>(lt: (T, T) -> bool, a: seq<T>, b: seq<T>)
    requires StrictWeak(lt)
    ensures Merge(lt, StableSort(lt, a), StableSort(lt, b)) == StableSort(lt, a + b)
    decreases |b|
  {
    if b == [] {
      assert a + b == a;
    } else {
      var m := |b| - 1;
      assert (a + b)[..|a| + m] == a + b[..m];
      MergeSorted(lt, a, b[..m]);
      MergeInsert(lt, StableSort(lt, a), StableSort(lt, b[..m]), b[m]);
    }
  }

  // ---- what the function promises ---------------------------------------------

  ghost predicate Sorted<T>(lt: (T, T) -> bool, s: seq<T>) {
    forall i, j :: 0 <= i < j < |s| ==> !lt(s[j], s[i])
  }

  /** The elements equivalent to `e`, in order. */
  function Equivalents<T>(lt: (T, T) -> bool, e: T, s: seq<T>): seq<T> {
    if s == [] then []
    else (if !lt(e, s[0]) && !lt(s[0], e) then [s[0]] else []) + Equivalents(lt, e, s[1..])
  }

  lemma {:induction false} InsertPermutes<T>(lt: (T, T) -> bool, x: T, s: seq<T>)
    ensures multiset(Insert(lt, x, s)) == multiset(s) + multiset{x}
  {
    if s != [] && !lt(x, s[0]) {
      InsertPermutes(lt, x, s[1..]);
      assert s == [s[0]] + s[1..];
    }
  }

  lemma {:induction false} InsertMembers<T>(lt: (T, T) -> bool, x: T, s: seq<T>, y: T)
    requires y in Insert(lt, x, s)
    ensures y == x || y in s
  {
    if s != [] && !lt(x, s[0]) && y != s[0] {
      InsertMembers(lt, x, s[1..], y);
    }
  }

  lemma {:induction false} InsertSorted<T(!new)>(lt: (T, T) -> bool, x: T, s: seq<T>)
    requires StrictWeak(lt) && Sorted(lt, s)
    ensures Sorted(lt, Insert(lt, x, s))
  {
    if s == [] {
    } else if lt(x, s[0]) {
      SortedCons(lt, x, s);
    } else {
      InsertSorted(lt, x, s[1..]);
      var r := Insert(lt, x, s[1..]);
      forall y | y in r
        ensures !lt(y, s[0])
      {
        InsertMembers(lt, x, s[1..], y);
      }
      SortedBelow(lt, s[0], r);
    }
  }

  lemma SortedCons<T(!new)>(lt: (T, T) -> bool, x: T, s: seq<T>)
    requires StrictWeak(lt) && Sorted(lt, s) && s != [] && lt(x, s[0])
    ensures Sorted(lt, [x] + s)
  {
    forall i | 0 <= i < |s|
      ensures !lt(s[i], x)
    {
      assert i > 0 ==> !lt(s[i], s[0]);
    }
  }

  lemma SortedBelow<T(!new)>(lt: (T, T) -> bool, x: T, s: seq<T>)
    requires Sorted(lt, s) && forall y :: y in s ==> !lt(y, x)
    ensures Sorted(lt, [x] + s)
  {
  }

  lemma {:induction false} InsertStable<T(!new)>(lt: (T, T) -> bool, e: T, x: T, s: seq<T>)
    requires StrictWeak(lt) && Sorted(lt, s)
    ensures Equivalents(lt, e, Insert(lt, x, s)) == Equivalents(lt, e, s) + Equivalents(lt, e, [x])
  {
    if s == [] {
      assert [x][1..] == [];
    } else if lt(x, s[0]) {
      assert ([x] + s)[1..] == s;
      assert [x][1..] == [];
      if !lt(e, x) && !lt(x, e) {
        NoneAbove(lt, e, s);
      }
    } else {
      InsertStable(lt, e, x, s[1..]);
    }
  }

  lemma {:induction false} NoneAbove<T(!new)>(lt: (T, T) -> bool, e: T, s: seq<T>)
    requires StrictWeak(lt) && Sorted(lt, s) && (s != [] ==> lt(e, s[0]))
    ensures Equivalents(lt, e, s) == []
  {
    if |s| > 1 {
      assert !lt(s[1], s[0]);
      NoneAbove(lt, e, s[1..]);
    }
  }

  lemma {:induction false} EquivalentsSnoc<T>(lt: (T, T) -> bool, e: T, s: seq<T>, x: T)
    ensures Equivalents(lt, e, s + [x]) == Equivalents(lt, e, s) + Equivalents(lt, e, [x])
  {
    if s != [] {
      assert (s + [x])[1..] == s[1..] + [x];
      EquivalentsSnoc(lt, e, s[1..], x);
    } else {
      assert s + [x] == [x];
    }
  }

  /** The function yields a sorted permutation in which equivalent elements keep their order. */
  lemma {:induction false} StableSortCorrect<T(!new)>(lt: (T, T) -> bool, s: seq<T>)
    requires StrictWeak(lt)
    ensures Sorted(lt, StableSort(lt, s))
    ensures multiset(StableSort(lt, s)) == multiset(s)
    ensures forall e :: Equivalents(lt, e, StableSort(lt, s)) == Equivalents(lt, e, s)
  {
    if s != [] {
      var m := |s| - 1;
      StableSortCorrect(lt, s[..m]);
      assert s == s[..m] + [s[m]];
      InsertPermutes(lt, s[m], StableSort(lt, s[..m]));
      InsertSorted(lt, s[m], StableSort(lt, s[..m]));
      forall e
        ensures Equivalents(lt, e, StableSort(lt, s)) == Equivalents(lt, e, s)
      {
        InsertStable(lt, e, s[m], StableSort(lt, s[..m]));
        EquivalentsSnoc(lt, e, s[..m], s[m]);
      }
    }
  }

  // ---- the passes -------------------------------------------------------------

  function Min(a: nat, b: nat): nat { if a < b then a else b }

  /** The blocks of length `step` from position `from` on, each one sorted. */
  function Blocks<T>(lt: (T, T) -> bool, s: seq<T>, from: nat, step: nat): (r: seq<T>)
    requires step > 0
    ensures |r| == if from < |s| then |s| - from else 0
    decreases |s| - from
  {
    if from >= |s| then []
    else StableSort(lt, s[from..Min(from + step, |s|)]) + Blocks(lt, s, from + step, step)
  }

  lemma {:induction false} BlocksOfOne<T>(lt: (T, T) -> bool, s: seq<T>, from: nat)
    requires from <= |s|
    ensures Blocks(lt, s, from, 1) == s[from..]
    decreases |s| - from
  {
    if from < |s| {
      assert s[from..from + 1] == [s[from]];
      assert [s[from]][..0] == [];
      BlocksOfOne(lt, s, from + 1);
    }
  }

  lemma BlocksWhole<T>(lt: (T, T) -> bool, s: seq<T>, step: nat)
    requires step > 0 && step >= |s|
    ensures Blocks(lt, s, 0, step) == StableSort(lt, s)
  {
    assert s[0..|s|] == s;
  }

  lemma SortNothing<T>(lt: (T, T) -> bool, s: seq<T>)
    requires s == []
    ensures StableSort(lt, s) == []
  {
  }

  /** Two neighbouring blocks, merged, are the block of double length. */
  lemma BlocksMerge<T(!new)>(lt: (T, T) -> bool, s: seq<T>, from: nat, step: nat)
    requires StrictWeak(lt) && step > 0 && from < |s|
    ensures var mid, hi := Min(from + step, |s|), Min(from + 2 * step, |s|);
      && Blocks(lt, s, from, step) == StableSort(lt, s[from..mid]) + StableSort(lt, s[mid..hi]) + Blocks(lt, s, from + 2 * step, step)
      && Merge(lt, StableSort(lt, s[from..mid]), StableSort(lt, s[mid..hi])) == StableSort(lt, s[from..hi])
      && Blocks(lt, s, from, 2 * step) == StableSort(lt, s[from..hi]) + Blocks(lt, s, from + 2 * step, 2 * step)
  {
    hide StableSort, Merge, StrictWeak;
    var mid, hi := Min(from + step, |s|), Min(from + 2 * step, |s|);
    assert s[from..mid] + s[mid..hi] == s[from..hi];
    MergeSorted(lt, s[from..mid], s[mid..hi]);
    if from + step >= |s| {
      assert s[mid..hi] == [];
      SortNothing(lt, s[mid..hi]);
    } else {
      assert from + step + step == from + 2 * step;
      assert Blocks(lt, s, from + step, step) == StableSort(lt, s[mid..hi]) + Blocks(lt, s, from + 2 * step, step);
    }
  }

  function Run<T>(a: seq<T>, start: nat, e: nat): seq<T>
    requires e <= |a|
  {
    if start < e then a[start..e] else []
  }

  /** `while (j < e) *p++ = *j++`. */
  method CopyRun<T>(a: array<T>, start: nat, e: nat, b: array<T>, at: nat) returns (p: nat)
    requires a != b && e <= a.Length && at + |Run(a[..], start, e)| <= b.Length
    modifies b
    ensures p == at + |Run(a[..], start, e)|
    ensures b[..p] == old(b[..at]) + Run(a[..], start, e)
  {
    var j := start;
    p := at;
    while j < e
      invariant start < e ==> start <= j <= e && p == at + (j - start)
      invariant start >= e ==> j == start && p == at
      invariant b[..p] == old(b[..at]) + if start < e then a[start..j] else []
    {
      ghost var done := b[..p];
      b[p] := a[j];
      p, j := p + 1, j + 1;
      assert b[..p] == done + [a[j - 1]];
      assert a[start..j] == a[start..j - 1] + [a[j - 1]];
    }
  }

  /** The three loops that merge the runs [j0, ea) and [k0, eb) of `a` into `b` from `p0` on. */
  method MergeTwo<T>(lt: (T, T) -> bool, a: array<T>, j0: nat, ea: nat, k0: nat, eb: nat, b: array<T>, p0: nat)
    requires a != b && ea <= a.Length && eb <= a.Length
    requires p0 + |Run(a[..], j0, ea)| + |Run(a[..], k0, eb)| <= b.Length
    modifies b
    ensures var hi := p0 + |Run(a[..], j0, ea)| + |Run(a[..], k0, eb)|;
      b[..hi] == old(b[..p0]) + Merge(lt, Run(a[..], j0, ea), Run(a[..], k0, eb))
  {
    hide Merge, Run;
    ghost var s := a[..];
    ghost var hi := p0 + |Run(s, j0, ea)| + |Run(s, k0, eb)|;
    ghost var all := b[..p0] + Merge(lt, Run(s, j0, ea), Run(s, k0, eb));
    var j: nat, k: nat, p: nat := j0, k0, p0;
    while j < ea && k < eb
      invariant p + |Run(s, j, ea)| + |Run(s, k, eb)| == hi
      invariant b[..p] + Merge(lt, Run(s, j, ea), Run(s, k, eb)) == all
    {
      MergeHead(lt, s, j, ea, k, eb);
      ghost var done := b[..p];
      var x;
      if lt(a[k], a[j]) {
        x := a[k];
        k := k + 1;
      } else {
        x := a[j];
        j := j + 1;
      }
      b[p] := x;
      p := p + 1;
      assert b[..p] == done + [x];
      MoveHead(done, x, Merge(lt, Run(s, j, ea), Run(s, k, eb)));
    }
    MergeEnd(lt, s, j, ea, k, eb);
    p := CopyRun(a, j, ea, b, p);
    p := CopyRun(a, k, eb, b, p);
  }

  /** Merge the runs [i, i + step) and [i + step, i + 2 step) of `a`, cut off at `n`, into `b`. */
  method MergeRuns<T>(lt: (T, T) -> bool, a: array<T>, b: array<T>, n: nat, i: nat, step: nat)
    requires a != b && n <= a.Length && n <= b.Length && i < n && step > 0
    modifies b
    ensures b[..Min(i + 2 * step, n)] ==
            old(b[..i]) + Merge(lt, a[i..Min(i + step, n)], a[Min(i + step, n)..Min(i + 2 * step, n)])
  {
    hide Merge;
    var ea, eb;
    if n < i + step {
      ea, eb := n, 0;
    } else {
      ea := i + step;
      eb := if n < i + 2 * step then n else i + 2 * step;
    }
    assert Run(a[..], i, ea) == a[i..Min(i + step, n)];
    assert Run(a[..], i + step, eb) == a[Min(i + step, n)..Min(i + 2 * step, n)];
    MergeTwo(lt, a, i, ea, i + step, eb, b, i);
  }

  lemma MoveHead<T>(done: seq<T>, x: T, rest: seq<T>)
    ensures done + ([x] + rest) == done + [x] + rest
  {
  }

  lemma MergeHead<T>(lt: (T, T) -> bool, s: seq<T>, j: nat, ea: nat, k: nat, eb: nat)
    requires j < ea <= |s| && k < eb <= |s|
    ensures |Run(s, j, ea)| == 1 + |Run(s, j + 1, ea)| && |Run(s, k, eb)| == 1 + |Run(s, k + 1, eb)|
    ensures Merge(lt, Run(s, j, ea), Run(s, k, eb)) ==
            if lt(s[k], s[j]) then [s[k]] + Merge(lt, Run(s, j, ea), Run(s, k + 1, eb))
            else [s[j]] + Merge(lt, Run(s, j + 1, ea), Run(s, k, eb))
  {
    assert s[j..ea][1..] == Run(s, j + 1, ea) && s[k..eb][1..] == Run(s, k + 1, eb);
  }

  lemma MergeEnd<T>(lt: (T, T) -> bool, s: seq<T>, j: nat, ea: nat, k: nat, eb: nat)
    requires ea <= |s| && eb <= |s| && (j >= ea || k >= eb)
    ensures Merge(lt, Run(s, j, ea), Run(s, k, eb)) == Run(s, j, ea) + Run(s, k, eb)
  {
  }

  lemma SliceOfSuffix<T>(a: seq<T>, i: nat, lo: nat, hi: nat)
    requires i <= lo <= hi <= |a|
    ensures a[lo..hi] == a[i..][lo - i..hi - i]
  {
  }

  lemma SliceOfPrefix<T>(a: array<T>, n: nat, lo: nat, hi: nat)
    requires lo <= hi <= n <= a.Length
    ensures a[..n][lo..hi] == a[lo..hi]
  {
  }

  lemma SplitThree<T>(a: seq<T>, x: seq<T>, y: seq<T>, z: seq<T>)
    requires a == x + y + z
    ensures a[..|x|] == x && a[|x|..|x| + |y|] == y && a[|x| + |y|..] == z
  {
  }

  /** What one merge of neighbouring runs does for the pass. */
  lemma PassStep<T(!new)>(lt: (T, T) -> bool, s: seq<T>, a: seq<T>, done: seq<T>, i: nat, step: nat)
    requires StrictWeak(lt) && step > 0 && i < |s| == |a|
    requires a[i..] == Blocks(lt, s, i, step)
    requires done + Blocks(lt, s, i, 2 * step) == Blocks(lt, s, 0, 2 * step)
    ensures var mid, hi := Min(i + step, |s|), Min(i + 2 * step, |s|);
      && done + Merge(lt, a[i..mid], a[mid..hi]) + Blocks(lt, s, i + 2 * step, 2 * step) == Blocks(lt, s, 0, 2 * step)
      && a[hi..] == Blocks(lt, s, i + 2 * step, step)
  {
    hide StableSort, Merge, StrictWeak, Blocks;
    var mid, hi := Min(i + step, |s|), Min(i + 2 * step, |s|);
    BlocksMerge(lt, s, i, step);
    SplitThree(a[i..], StableSort(lt, s[i..mid]), StableSort(lt, s[mid..hi]), Blocks(lt, s, i + 2 * step, step));
    SliceOfSuffix(a, i, i, mid);
    SliceOfSuffix(a, i, mid, hi);
    SliceOfSuffix(a, i, hi, |a|);
  }

  /** One pass with runs of length `step`; the source writes the pass with `step` 1 out, with the same effect. */
  method MergePass<T(!new)>(lt: (T, T) -> bool, a: array<T>, b: array<T>, n: nat, step: nat, ghost s: seq<T>)
    requires StrictWeak(lt) && step > 0 && |s| == n
    requires a != b && n <= a.Length && n <= b.Length
    requires a[..n] == Blocks(lt, s, 0, step)
    modifies b
    ensures b[..n] == Blocks(lt, s, 0, 2 * step)
  {
    hide Blocks, Merge, StrictWeak;
    var i := 0;
    BlocksBeyond(lt, s, n, 2 * step);
    while i < n
      invariant b[..Min(i, n)] + Blocks(lt, s, i, 2 * step) == Blocks(lt, s, 0, 2 * step)
      invariant a[..n][Min(i, n)..] == Blocks(lt, s, i, step)
    {
      PassStep(lt, s, a[..n], b[..i], i, step);
      SliceOfPrefix(a, n, i, Min(i + step, n));
      SliceOfPrefix(a, n, Min(i + step, n), Min(i + 2 * step, n));
      MergeRuns(lt, a, b, n, i, step);
      i := i + 2 * step;
    }
    BlocksBeyond(lt, s, i, 2 * step);
  }

  lemma BlocksBeyond<T>(lt: (T, T) -> bool, s: seq<T>, i: nat, step: nat)
    requires step > 0 && i >= |s|
    ensures Blocks(lt, s, i, step) == []
  {
  }

  /** The pass with runs of length 1: order every pair. */
  method PairPass<T(!new)>(lt: (T, T) -> bool, a: array<T>, b: array<T>, n: nat, ghost s: seq<T>)
    requires StrictWeak(lt) && |s| == n
    requires a != b && n <= a.Length && n <= b.Length
    requires a[..n] == s
    modifies b
    ensures b[..n] == Blocks(lt, s, 0, 2)
  {
    hide Blocks, StrictWeak;
    BlocksBeyond(lt, s, n, 2);
    var i := 0;
    while i < n
      invariant b[..Min(i, n)] + Blocks(lt, s, i, 2) == Blocks(lt, s, 0, 2)
    {
      PairBlock(lt, s, i);
      assert a[i] == s[i] && (i + 1 < n ==> a[i + 1] == s[i + 1]);
      ghost var done := b[..i];
      if i == n - 1 {
        b[i] := a[i];
        assert b[..i + 1] == done + [s[i]];
      } else if lt(a[i + 1], a[i]) {
        b[i] := a[i + 1];
        b[i + 1] := a[i];
        assert b[..i + 2] == done + [s[i + 1], s[i]];
      } else {
        b[i] := a[i];
        b[i + 1] := a[i + 1];
        assert b[..i + 2] == done + [s[i], s[i + 1]];
      }
      i := i + 2;
    }
    BlocksBeyond(lt, s, i, 2);
  }

  lemma SortPair<T>(lt: (T, T) -> bool, x: T, y: T)
    ensures StableSort(lt, [x, y]) == if lt(y, x) then [y, x] else [x, y]
  {
    assert [x, y][..1] == [x] && [x][..0] == [] && [x][1..] == [];
    assert StableSort(lt, [x]) == Insert(lt, x, StableSort(lt, [])) == [x];
    assert Insert(lt, y, [x]) == if lt(y, x) then [y, x] else [x, y];
  }

  lemma PairBlock<T>(lt: (T, T) -> bool, s: seq<T>, i: nat)
    requires i < |s|
    ensures Blocks(lt, s, i, 2) == (if i == |s| - 1 then [s[i]] else if lt(s[i + 1], s[i]) then [s[i + 1], s[i]] else [s[i], s[i + 1]])
                                   + Blocks(lt, s, i + 2, 2)
  {
    if i == |s| - 1 {
      assert s[i..i + 1] == [s[i]] && [s[i]][..0] == [];
    } else {
      assert s[i..i + 2] == [s[i], s[i + 1]];
      SortPair(lt, s[i], s[i + 1]);
    }
  }

  /** `ks_mergesort`: the array is sorted stably; a scratch buffer may be passed in. */
  method Sort<T(0,!new)>(lt: (T, T) -> bool, arr: array<T>, temp: array?<T>)
    requires StrictWeak(lt)
    requires temp != null ==> temp != arr && temp.Length >= arr.Length
    modifies arr, temp
    ensures arr[..] == StableSort(lt, old(arr[..]))
  {
    hide Blocks, StrictWeak, StableSort;
    var n := arr.Length;
    ghost var s := arr[..];
    var a, b := arr, arr;
    if temp == null {
      b := new T[n];
    } else {
      b := temp;
    }
    var other := b;
    var shift: nat := 0;
    BlocksOfOne(lt, s, 0);
    assert arr[..n] == s;
    while Pow2(shift) < n
      invariant (a == arr && b == other) || (a == other && b == arr)
      invariant a[..n] == Blocks(lt, s, 0, Pow2(shift))
      decreases n - Pow2(shift)
    {
      var step := Pow2(shift);
      if shift == 0 {
        assert a[..n] == s;
        PairPass(lt, a, b, n, s);
      } else {
        MergePass(lt, a, b, n, step, s);
      }
      a, b := b, a;
      shift := shift + 1;
    }
    BlocksWhole(lt, s, Pow2(shift));
    if a != arr {
      var i := CopyRun(a, 0, n, arr, 0);
    }
    assert arr[..n] == arr[..];
  }
}
