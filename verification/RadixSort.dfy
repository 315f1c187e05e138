/** ext/klib/ksort.h, rs_sort: in-place MSD radix sort whose distribution step follows the cycles of the permutation. */
module RadixSort {
  import opened Powers
  import opened Sums

  const RS_MIN_SIZE := 64
  const RS_MAX_BITS := 8

  ghost predicate SortedBy<T>(key: T -> nat, s: seq<T>) {
    forall i, j :: 0 <= i < j < |s| ==> key(s[i]) <= key(s[j])
  }

  // ---- counting digits --------------------------------------------------------

  /** How many elements have a digit below `q`. */
  ghost function CountBelow<T>(s: seq<T>, digit: T -> nat, q: nat): (c: nat)
    ensures c <= |s|
  {
    if s == [] then 0 else CountBelow(s[..|s| - 1], digit, q) + Below(s[|s| - 1], digit, q)
  }

  ghost function Below<T>(x: T, digit: T -> nat, q: nat): nat {
    if digit(x) < q then 1 else 0
  }

  lemma {:induction false} CountBelowMonotone<T>(s: seq<T>, digit: T -> nat, q: nat, r: nat)
    requires q <= r
    ensures CountBelow(s, digit, q) <= CountBelow(s, digit, r)
  {
    if s != [] {
      CountBelowMonotone(s[..|s| - 1], digit, q, r);
    }
  }

  lemma {:induction false} CountBelowAll<T>(s: seq<T>, digit: T -> nat, q: nat)
    requires forall i :: 0 <= i < |s| ==> digit(s[i]) < q
    ensures CountBelow(s, digit, q) == |s|
  {
    if s != [] {
      CountBelowAll(s[..|s| - 1], digit, q);
    }
  }

  lemma {:induction false} CountBelowZero<T>(s: seq<T>, digit: T -> nat)
    ensures CountBelow(s, digit, 0) == 0
  {
    if s != [] {
      CountBelowZero(s[..|s| - 1], digit);
    }
  }

  lemma {:induction false} CountBelowUpdate<T>(s: seq<T>, digit: T -> nat, q: nat, i: nat, x: T)
    requires i < |s|
    ensures CountBelow(s[i := x], digit, q) == CountBelow(s, digit, q) - Below(s[i], digit, q) + Below(x, digit, q)
  {
    var m := |s| - 1;
    if i < m {
      CountBelowUpdate(s[..m], digit, q, i, x);
      assert s[i := x][..m] == s[..m][i := x];
    } else {
      assert s[i := x][..m] == s[..m];
    }
  }

  lemma {:induction false} CountBelowConcat<T>(a: seq<T>, b: seq<T>, digit: T -> nat, q: nat)
    ensures CountBelow(a + b, digit, q) == CountBelow(a, digit, q) + CountBelow(b, digit, q)
  {
    if b == [] {
      assert a + b == a;
    } else {
      var m := |b| - 1;
      assert (a + b)[..|a| + m] == a + b[..m];
      CountBelowConcat(a, b[..m], digit, q);
    }
  }

  /** How many elements have digit `q`. */
  ghost function Count<T>(s: seq<T>, digit: T -> nat, q: nat): nat {
    CountBelowMonotone(s, digit, q, q + 1);
    CountBelow(s, digit, q + 1) - CountBelow(s, digit, q)
  }

  lemma CountSplit<T>(a: seq<T>, b: seq<T>, digit: T -> nat, q: nat)
    ensures Count(a + b, digit, q) == Count(a, digit, q) + Count(b, digit, q)
  {
    CountBelowConcat(a, b, digit, q);
    CountBelowConcat(a, b, digit, q + 1);
  }

  lemma {:induction false} CountAll<T>(s: seq<T>, digit: T -> nat, q: nat)
    requires forall i :: 0 <= i < |s| ==> digit(s[i]) == q
    ensures Count(s, digit, q) == |s|
  {
    if s != [] {
      CountAll(s[..|s| - 1], digit, q);
    }
  }

  lemma CountOne<T>(x: T, digit: T -> nat, q: nat)
    ensures Count([x], digit, q) == if digit(x) == q then 1 else 0
  {
    assert [x][..0] == [];
  }

  lemma CountSome<T>(s: seq<T>, digit: T -> nat, q: nat, h: nat)
    requires h < |s| && digit(s[h]) == q
    ensures Count(s, digit, q) >= 1
  {
    assert s == s[..h] + ([s[h]] + s[h + 1..]);
    CountSplit(s[..h], [s[h]] + s[h + 1..], digit, q);
    CountSplit([s[h]], s[h + 1..], digit, q);
    CountOne(s[h], digit, q);
  }

  /** A full stretch of digit `q` and one more `q` elsewhere are more than the stretch is long. */
  lemma CountBeyond<T>(s: seq<T>, digit: T -> nat, q: nat, lo: nat, hi: nat, h: nat)
    requires lo <= hi <= |s| && forall i :: lo <= i < hi ==> digit(s[i]) == q
    requires h < |s| && !(lo <= h < hi) && digit(s[h]) == q
    ensures Count(s, digit, q) > hi - lo
  {
    hide Count;
    var a, b, c := s[..lo], s[lo..hi], s[hi..];
    assert s == a + (b + c);
    CountSplit(a, b + c, digit, q);
    CountSplit(b, c, digit, q);
    CountAll(b, digit, q);
    if h < lo {
      CountSome(a, digit, q, h);
    } else {
      CountSome(c, digit, q, h - hi);
    }
  }

  // ---- the distribution in progress -------------------------------------------

  /** Where bucket `q` starts; the next bucket's start is its end. */
  ghost function Start<T>(s: seq<T>, digit: T -> nat, q: nat): (c: nat)
    ensures c <= |s|
  {
    CountBelow(s, digit, q)
  }

  /**
   `v` is a rearrangement of `s` in which the part of every bucket `q` before `cur[q]`
   holds elements of digit `q`.
   */
  ghost predicate Placing<T>(s: seq<T>, v: seq<T>, digit: T -> nat, cur: seq<nat>) {
    && |v| == |s| && multiset(v) == multiset(s)
    && (forall q: nat :: SameCount(s, v, digit, q))
    && (forall q :: 0 <= q < |cur| ==> Start(s, digit, q) <= cur[q] <= Start(s, digit, q + 1))
    && (forall q :: 0 <= q < |cur| ==> PlacedUpTo(s, v, digit, q, cur[q]))
    && (forall i :: 0 <= i < |v| ==> digit(v[i]) < |cur|)
  }

  /** Bucket `q` holds elements of digit `q` up to position `c`. */
  ghost predicate PlacedUpTo<T>(s: seq<T>, v: seq<T>, digit: T -> nat, q: nat, c: nat) {
    forall i :: Start(s, digit, q) <= i < c && i < |v| ==> digit(v[i]) == q
  }

  ghost predicate BucketDone<T>(s: seq<T>, v: seq<T>, digit: T -> nat, q: nat) {
    PlacedUpTo(s, v, digit, q, Start(s, digit, q + 1))
  }

  ghost predicate SameCount<T>(s: seq<T>, v: seq<T>, digit: T -> nat, q: nat) {
    CountBelow(v, digit, q) == CountBelow(s, digit, q)
  }

  /** An unplaced element of digit `l` means that bucket `l` has room. */
  lemma PlacingRoom<T>(s: seq<T>, v: seq<T>, digit: T -> nat, cur: seq<nat>, h: nat, l: nat)
    requires Placing(s, v, digit, cur) && h < |v| && digit(v[h]) == l
    requires !(Start(s, digit, l) <= h < cur[l])
    ensures l < |cur| && cur[l] < Start(s, digit, l + 1) <= |v|
  {
    assert SameCount(s, v, digit, l) && SameCount(s, v, digit, l + 1);
    if cur[l] == Start(s, digit, l + 1) {
      CountBeyond(v, digit, l, Start(s, digit, l), cur[l], h);
    }
  }

  ghost function Swap<T>(v: seq<T>, i: nat, j: nat): (r: seq<T>)
    requires i < |v| && j < |v|
    ensures |r| == |v|
  {
    v[i := v[j]][j := v[i]]
  }

  lemma SwapKeeps<T>(v: seq<T>, i: nat, j: nat, digit: T -> nat, q: nat)
    requires i < |v| && j < |v|
    ensures CountBelow(Swap(v, i, j), digit, q) == CountBelow(v, digit, q)
    ensures multiset(Swap(v, i, j)) == multiset(v)
  {
    CountBelowUpdate(v, digit, q, i, v[j]);
    CountBelowUpdate(v[i := v[j]], digit, q, j, v[i]);
  }

  lemma BucketsApart<T>(s: seq<T>, digit: T -> nat, q: nat, r: nat)
    requires q != r
    ensures Start(s, digit, q + 1) <= Start(s, digit, r) || Start(s, digit, r + 1) <= Start(s, digit, q)
  {
    if q < r {
      CountBelowMonotone(s, digit, q + 1, r);
    } else {
      CountBelowMonotone(s, digit, r + 1, q);
    }
  }

  lemma SwapOutside<T>(s: seq<T>, v: seq<T>, digit: T -> nat, q: nat, c: nat, i: nat, j: nat)
    requires PlacedUpTo(s, v, digit, q, c) && i < |v| && j < |v|
    requires !(Start(s, digit, q) <= i < c) && !(Start(s, digit, q) <= j < c)
    ensures PlacedUpTo(s, Swap(v, i, j), digit, q, c)
  {
  }

  lemma SwapCounts<T>(s: seq<T>, v: seq<T>, digit: T -> nat, i: nat, j: nat)
    requires i < |v| && j < |v| && forall q: nat :: SameCount(s, v, digit, q)
    ensures multiset(Swap(v, i, j)) == multiset(v)
    ensures forall q: nat :: SameCount(s, Swap(v, i, j), digit, q)
  {
    SwapKeeps(v, i, j, digit, 0);
    forall q: nat
      ensures SameCount(s, Swap(v, i, j), digit, q)
    {
      assert SameCount(s, v, digit, q);
      SwapKeeps(v, i, j, digit, q);
    }
  }

  lemma MovePlaced<T>(s: seq<T>, v: seq<T>, digit: T -> nat, cur: seq<nat>, k: nat, l: nat, q: nat)
    requires forall q :: 0 <= q < |cur| ==> Start(s, digit, q) <= cur[q] <= Start(s, digit, q + 1)
    requires forall q :: 0 <= q < |cur| ==> PlacedUpTo(s, v, digit, q, cur[q])
    requires q < |cur| && k < |cur| && l < |cur| && l != k
    requires cur[k] < Start(s, digit, k + 1) && cur[k] < |v| && cur[l] < Start(s, digit, l + 1) && cur[l] < |v|
    requires digit(v[cur[k]]) == l
    ensures PlacedUpTo(s, Swap(v, cur[l], cur[k]), digit, q, if q == l then cur[l] + 1 else cur[q])
  {
    hide Start;
    if q != l {
      BucketsApart(s, digit, q, l);
    }
    if q != k {
      BucketsApart(s, digit, q, k);
    }
    SwapOutside(s, v, digit, q, cur[q], cur[l], cur[k]);
    if q == l {
      assert Swap(v, cur[l], cur[k])[cur[l]] == v[cur[k]];
    }
  }

  /** One link of a cycle: the element in hand, of digit `l`, takes the next free place of its bucket, whose element comes to hand. */
  lemma PlacingMove<T>(s: seq<T>, v: seq<T>, digit: T -> nat, cur: seq<nat>, k: nat, l: nat)
    requires Placing(s, v, digit, cur) && k < |cur| && cur[k] < Start(s, digit, k + 1) && cur[k] < |v|
    requires digit(v[cur[k]]) == l && l != k
    ensures l < |cur| && cur[l] < Start(s, digit, l + 1) && cur[l] < |v| && cur[l] != cur[k]
    ensures Placing(s, Swap(v, cur[l], cur[k]), digit, cur[l := cur[l] + 1])
  {
    hide Start, PlacedUpTo;
    BucketsApart(s, digit, k, l);
    PlacingRoom(s, v, digit, cur, cur[k], l);
    var w, cur' := Swap(v, cur[l], cur[k]), cur[l := cur[l] + 1];
    SwapCounts(s, v, digit, cur[l], cur[k]);
    forall q | 0 <= q < |cur'|
      ensures PlacedUpTo(s, w, digit, q, cur'[q])
    {
      MovePlaced(s, v, digit, cur, k, l, q);
    }
  }

  /** The element at the front of bucket `k` belongs there. */
  lemma PlacingFill<T>(s: seq<T>, v: seq<T>, digit: T -> nat, cur: seq<nat>, k: nat)
    requires Placing(s, v, digit, cur) && k < |cur| && cur[k] < Start(s, digit, k + 1) && cur[k] < |v|
    requires digit(v[cur[k]]) == k
    ensures Placing(s, v, digit, cur[k := cur[k] + 1])
  {
  }

  /** The places still to be filled. */
  ghost function Unfilled<T>(s: seq<T>, digit: T -> nat, cur: seq<nat>): (r: seq<nat>)
    ensures |r| == |cur|
  {
    seq(|cur|, q requires 0 <= q < |cur| => if cur[q] <= Start(s, digit, q + 1) then Start(s, digit, q + 1) - cur[q] else 0)
  }

  lemma FillingDescends<T>(s: seq<T>, digit: T -> nat, cur: seq<nat>, l: nat)
    requires l < |cur| && cur[l] < Start(s, digit, l + 1)
    ensures Sum(Unfilled(s, digit, cur[l := cur[l] + 1])) < Sum(Unfilled(s, digit, cur))
  {
    var u := Unfilled(s, digit, cur);
    assert Unfilled(s, digit, cur[l := cur[l] + 1]) == u[l := u[l] - 1];
    SumUpdate(u, l, u[l] - 1);
  }

  // ---- rs_sort ----------------------------------------------------------------

  /** The counting loops: `b` and `e` become the starts and ends of the buckets, relative to the start of the range. */
  method CountBuckets<T>(a: array<T>, beg: nat, end: nat, digit: T -> nat, b: array<nat>, e: array<nat>)
    requires beg <= end <= a.Length && b != e && b.Length == e.Length > 0
    requires forall i :: beg <= i < end ==> digit(a[i]) < b.Length
    requires a as object != b && a as object != e
    modifies b, e
    ensures forall q :: 0 <= q < b.Length ==> b[q] == Start(a[beg..end], digit, q) && e[q] == Start(a[beg..end], digit, q + 1)
  {
    ghost var s := a[beg..end];
    CountDigits(a, beg, end, digit, b, e);
    CountBelowZero(s, digit);
    var k := 1;
    while k < b.Length
      invariant 1 <= k <= b.Length
      invariant forall q :: 0 <= q < k ==> b[q] == Start(s, digit, q) && e[q] == Start(s, digit, q + 1)
      invariant forall q :: k <= q < b.Length ==> e[q] == Count(s, digit, q)
    {
      e[k] := e[k] + e[k - 1];
      b[k] := e[k - 1];
      k := k + 1;
    }
  }

  method CountDigits<T>(a: array<T>, beg: nat, end: nat, digit: T -> nat, b: array<nat>, e: array<nat>)
    requires beg <= end <= a.Length && b != e && b.Length == e.Length > 0
    requires forall i :: beg <= i < end ==> digit(a[i]) < b.Length
    requires a as object != b && a as object != e
    modifies b, e
    ensures forall q :: 0 <= q < b.Length ==> b[q] == 0 && e[q] == Count(a[beg..end], digit, q)
  {
    hide Count;
    ghost var s := a[beg..end];
    var k := 0;
    while k < b.Length
      invariant 0 <= k <= b.Length && forall q :: 0 <= q < k ==> b[q] == 0 && e[q] == 0
    {
      b[k], e[k] := 0, 0;
      k := k + 1;
    }
    NothingCounted(s[..0], digit);
    var i := beg;
    while i < end
      invariant beg <= i <= end && forall q :: 0 <= q < b.Length ==> b[q] == 0
      invariant forall q :: 0 <= q < b.Length ==> e[q] == Count(s[..i - beg], digit, q)
    {
      var d := digit(a[i]);
      CountSnoc(s, i - beg, digit);
      e[d] := e[d] + 1;
      i := i + 1;
    }
    assert s[..end - beg] == s;
  }

  lemma NothingCounted<T>(s: seq<T>, digit: T -> nat)
    requires s == []
    ensures forall q: nat :: Count(s, digit, q) == 0
  {
  }

  lemma CountSnoc<T>(s: seq<T>, i: nat, digit: T -> nat)
    requires i < |s|
    ensures forall q: nat :: Count(s[..i + 1], digit, q) == Count(s[..i], digit, q) + if digit(s[i]) == q then 1 else 0
  {
    forall q: nat
      ensures Count(s[..i + 1], digit, q) == Count(s[..i], digit, q) + if digit(s[i]) == q then 1 else 0
    {
      assert s[..i + 1] == s[..i] + [s[i]];
      CountSplit(s[..i], [s[i]], digit, q);
      CountOne(s[i], digit, q);
    }
  }

  /** Follow one cycle: carry elements to their buckets until one for bucket `k` turns up. */
  method FollowCycle<T>(a: array<T>, beg: nat, digit: T -> nat, b: array<nat>, k: nat, ghost s: seq<T>)
    requires a as object != b && k < b.Length && beg + |s| <= a.Length
    requires Placing(s, a[beg..beg + |s|], digit, b[..])
    requires b[k] < Start(s, digit, k + 1) && b[k] < |s| && digit(a[beg + b[k]]) != k
    modifies a, b
    ensures Placing(s, a[beg..beg + |s|], digit, b[..])
    ensures a[..beg] == old(a[..beg]) && a[beg + |s|..] == old(a[beg + |s|..])
    ensures forall q :: 0 <= q < b.Length ==> b[q] >= old(b[q])
    ensures Sum(Unfilled(s, digit, b[..])) < old(Sum(Unfilled(s, digit, b[..])))
  {
    hide Placing, Sum, Unfilled, CountBelow;
    var h: nat := b[k];
    var tmp := a[beg + h];
    var l := digit(tmp);
    ghost var v := a[beg..beg + |s|];
    assert v[h := tmp] == v;
    while l != k
      invariant l == digit(tmp) && b[k] == h < |v| == |s| && v[h] == tmp
      invariant a[beg..beg + |s|][h := tmp] == v && Placing(s, v, digit, b[..])
      invariant a[..beg] == old(a[..beg]) && a[beg + |s|..] == old(a[beg + |s|..])
      invariant forall q :: 0 <= q < b.Length ==> b[q] >= old(b[q])
      invariant Sum(Unfilled(s, digit, b[..])) <= old(Sum(Unfilled(s, digit, b[..])))
      decreases Sum(Unfilled(s, digit, b[..]))
    {
      PlacingMove(s, v, digit, b[..], k, l);
      FillingDescends(s, digit, b[..], l);
      ghost var i: nat, b0, r0 := b[l], b[..], a[beg..beg + |s|];
      var swap := tmp;
      tmp := a[beg + b[l]];
      a[beg + b[l]] := swap;
      b[l] := b[l] + 1;
      assert b[..] == b0[l := b0[l] + 1];
      assert a[beg..beg + |s|] == r0[i := swap];
      v := Swap(v, i, h);
      l := digit(tmp);
    }
    PlacingFill(s, v, digit, b[..], k);
    FillingDescends(s, digit, b[..], k);
    ghost var b0, r0 := b[..], a[beg..beg + |s|];
    a[beg + b[k]] := tmp;
    b[k] := b[k] + 1;
    assert b[..] == b0[k := b0[k] + 1];
    assert a[beg..beg + |s|] == r0[h := tmp];
  }

  /** The distribution: afterwards every bucket holds exactly the elements of its digit. */
  method Distribute<T>(a: array<T>, beg: nat, end: nat, digit: T -> nat, b: array<nat>, e: array<nat>)
    requires beg <= end <= a.Length && b != e && b.Length == e.Length > 0
    requires forall i :: beg <= i < end ==> digit(a[i]) < b.Length
    requires a as object != b && a as object != e
    requires forall q :: 0 <= q < b.Length ==> b[q] == Start(a[beg..end], digit, q) && e[q] == Start(a[beg..end], digit, q + 1)
    modifies a, b
    ensures a[..beg] == old(a[..beg]) && a[end..] == old(a[end..])
    ensures multiset(a[beg..end]) == multiset(old(a[beg..end]))
    ensures forall q :: 0 <= q < b.Length ==> BucketDone(old(a[beg..end]), a[beg..end], digit, q)
  {
    hide Sum, Unfilled, CountBelow, Placing;
    ghost var s := a[beg..end];
    PlacingStart(s, digit, b[..]);
    var k := 0;
    while k != b.Length
      invariant 0 <= k <= b.Length
      invariant Placing(s, a[beg..end], digit, b[..])
      invariant forall q :: 0 <= q < k ==> b[q] >= e[q]
      invariant a[..beg] == old(a[..beg]) && a[end..] == old(a[end..])
      decreases Sum(Unfilled(s, digit, b[..])), b.Length - k
    {
      PlacingBounds(s, a[beg..end], digit, b[..], k);
      if b[k] != e[k] {
        var l := digit(a[beg + b[k]]);
        if l != k {
          FollowCycle(a, beg, digit, b, k, s);
        } else {
          PlacingFill(s, a[beg..end], digit, b[..], k);
          FillingDescends(s, digit, b[..], k);
          ghost var b0 := b[..];
          b[k] := b[k] + 1;
          assert b[..] == b0[k := b0[k] + 1];
        }
      } else {
        k := k + 1;
      }
    }
    PlacingDone(s, a[beg..end], digit, b[..]);
  }

  lemma PlacingStart<T>(s: seq<T>, digit: T -> nat, cur: seq<nat>)
    requires forall q :: 0 <= q < |cur| ==> cur[q] == Start(s, digit, q)
    requires forall i :: 0 <= i < |s| ==> digit(s[i]) < |cur|
    ensures Placing(s, s, digit, cur)
  {
    forall q: nat
      ensures Start(s, digit, q) <= Start(s, digit, q + 1)
    {
      CountBelowMonotone(s, digit, q, q + 1);
    }
  }

  lemma PlacingBounds<T>(s: seq<T>, v: seq<T>, digit: T -> nat, cur: seq<nat>, k: nat)
    requires Placing(s, v, digit, cur) && k < |cur|
    ensures |v| == |s| && cur[k] <= Start(s, digit, k + 1) <= |s|
  {
  }

  lemma PlacingDone<T>(s: seq<T>, v: seq<T>, digit: T -> nat, cur: seq<nat>)
    requires Placing(s, v, digit, cur) && forall q :: 0 <= q < |cur| ==> cur[q] >= Start(s, digit, q + 1)
    ensures |v| == |s| && multiset(v) == multiset(s)
    ensures forall q :: 0 <= q < |cur| ==> BucketDone(s, v, digit, q)
  {
  }

  // ---- buckets of buckets -----------------------------------------------------

  /** All keys agree above their low `t` bits. */
  ghost predicate Agree<T>(key: T -> nat, s: seq<T>, t: nat) {
    forall i, j :: 0 <= i < |s| && 0 <= j < |s| ==> ShiftRight(key(s[i]), t) == ShiftRight(key(s[j]), t)
  }

  /** The digit of `nBits` bits above the low `shift` bits. */
  function Digit<T(!new)>(key: T -> nat, shift: nat, nBits: nat): (digit: T -> nat)
    ensures forall x :: digit(x) == LowBits(ShiftRight(key(x), shift), nBits) < Pow2(nBits)
  {
    (x: T) => LowBits(ShiftRight(key(x), shift), nBits)
  }

  /** Keys that agree above a digit are ordered by the digit first; keys with equal digits agree above less. */
  lemma DigitDecides(x: nat, y: nat, shift: nat, nBits: nat)
    requires ShiftRight(x, shift + nBits) == ShiftRight(y, shift + nBits)
    ensures LowBits(ShiftRight(x, shift), nBits) < LowBits(ShiftRight(y, shift), nBits) ==> x < y
    ensures LowBits(ShiftRight(x, shift), nBits) == LowBits(ShiftRight(y, shift), nBits) ==> ShiftRight(x, shift) == ShiftRight(y, shift)
  {
    ShiftRightTwice(x, shift, nBits);
    ShiftRightTwice(y, shift, nBits);
    LowBitsDecide(ShiftRight(x, shift), ShiftRight(y, shift), nBits);
    ShiftRightMonotone(x, y, shift);
  }

  function NextShift(shift: nat, nBits: nat): nat {
    if shift > nBits then shift - nBits else 0
  }

  /** The elements of one bucket agree as far as the recursive call needs it. */
  lemma BucketAgrees<T(!new)>(key: T -> nat, s: seq<T>, shift: nat, nBits: nat, q: nat)
    requires Agree(key, s, shift + nBits)
    requires forall i :: 0 <= i < |s| ==> Digit(key, shift, nBits)(s[i]) == q
    ensures Agree(key, s, NextShift(shift, nBits) + nBits) && Agree(key, s, shift)
  {
    hide ShiftRight, LowBits;
    var t := NextShift(shift, nBits) + nBits;
    forall i, j | 0 <= i < |s| && 0 <= j < |s|
      ensures ShiftRight(key(s[i]), t) == ShiftRight(key(s[j]), t)
      ensures ShiftRight(key(s[i]), shift) == ShiftRight(key(s[j]), shift)
    {
      DigitDecides(key(s[i]), key(s[j]), shift, nBits);
      ShiftRightTwice(key(s[i]), shift, t - shift);
      ShiftRightTwice(key(s[j]), shift, t - shift);
    }
  }

  lemma AgreeMembers<T>(key: T -> nat, s: seq<T>, t: nat, part: seq<T>)
    requires Agree(key, s, t) && forall x :: x in part ==> x in s
    ensures Agree(key, part, t)
  {
    forall i, j | 0 <= i < |part| && 0 <= j < |part|
      ensures ShiftRight(key(part[i]), t) == ShiftRight(key(part[j]), t)
    {
      assert part[i] in s && part[j] in s;
    }
  }

  ghost function Bucket<T>(s: seq<T>, v: seq<T>, digit: T -> nat, q: nat): (r: seq<T>)
    requires |v| == |s|
    ensures Start(s, digit, q) <= Start(s, digit, q + 1) && r == v[Start(s, digit, q)..Start(s, digit, q + 1)]
  {
    CountBelowMonotone(s, digit, q, q + 1);
    v[Start(s, digit, q)..Start(s, digit, q + 1)]
  }

  /** The range is distributed, and the first `k` buckets are sorted as well. */
  ghost predicate SortedBuckets<T>(key: T -> nat, s: seq<T>, v: seq<T>, digit: T -> nat, size: nat, k: nat) {
    && |v| == |s| && multiset(v) == multiset(s)
    && (forall q: nat :: q < size ==> BucketDone(s, v, digit, q))
    && (forall q: nat :: q < k ==> SortedBy(key, Bucket(s, v, digit, q)))
  }

  /** Rearranging bucket `k` disturbs no other bucket. */
  lemma SortOneBucket<T>(key: T -> nat, s: seq<T>, v: seq<T>, digit: T -> nat, size: nat, k: nat, x: seq<T>)
    requires SortedBuckets(key, s, v, digit, size, k) && k < size
    requires multiset(x) == multiset(Bucket(s, v, digit, k)) && SortedBy(key, x)
    ensures |x| == |Bucket(s, v, digit, k)|
    ensures SortedBuckets(key, s, v[..Start(s, digit, k)] + x + v[Start(s, digit, k + 1)..], digit, size, k + 1)
  {
    hide Start, SortedBy;
    var lo, hi := Start(s, digit, k), Start(s, digit, k + 1);
    var old_ := Bucket(s, v, digit, k);
    var w := v[..lo] + x + v[hi..];
    assert |x| == |multiset(x)| == |old_|;
    assert v == v[..lo] + old_ + v[hi..];
    forall q: nat | q < size
      ensures BucketDone(s, w, digit, q) && (q != k ==> Bucket(s, w, digit, q) == Bucket(s, v, digit, q))
    {
      OneBucketDone(s, v, w, digit, k, q);
    }
    assert Bucket(s, w, digit, k) == x;
  }

  lemma OneBucketDone<T>(s: seq<T>, v: seq<T>, w: seq<T>, digit: T -> nat, k: nat, q: nat)
    requires |v| == |s| == |w| && BucketDone(s, v, digit, k) && BucketDone(s, v, digit, q)
    requires multiset(Bucket(s, w, digit, k)) == multiset(Bucket(s, v, digit, k))
    requires w[..Start(s, digit, k)] == v[..Start(s, digit, k)] && w[Start(s, digit, k + 1)..] == v[Start(s, digit, k + 1)..]
    ensures BucketDone(s, w, digit, q)
    ensures q != k ==> Bucket(s, w, digit, q) == Bucket(s, v, digit, q)
  {
    hide Start;
    var lo, hi := Start(s, digit, k), Start(s, digit, k + 1);
    if q == k {
      forall i | lo <= i < hi
        ensures digit(w[i]) == k
      {
        assert w[i] == Bucket(s, w, digit, k)[i - lo];
        assert w[i] in multiset(Bucket(s, v, digit, k));
      }
    } else {
      BucketsApart(s, digit, q, k);
      CountBelowMonotone(s, digit, q, q + 1);
      forall i | Start(s, digit, q) <= i < Start(s, digit, q + 1) && i < |w|
        ensures w[i] == v[i]
      {
        assert i < lo ==> w[i] == w[..lo][i] && v[i] == v[..lo][i];
        assert i >= hi ==> w[i] == w[hi..][i - hi] && v[i] == v[hi..][i - hi];
      }
    }
  }

  /** Every position lies in a bucket. */
  lemma {:induction false} FindBucket<T>(s: seq<T>, digit: T -> nat, size: nat, i: nat) returns (q: nat)
    requires size > 0 && i < CountBelow(s, digit, size)
    ensures q < size && Start(s, digit, q) <= i < Start(s, digit, q + 1)
  {
    CountBelowZero(s, digit);
    if Start(s, digit, size - 1) <= i {
      q := size - 1;
    } else {
      q := FindBucket(s, digit, size - 1, i);
    }
  }

  /** Sorted buckets in digit order are a sorted whole. */
  lemma WholeSorted<T(!new)>(key: T -> nat, s: seq<T>, v: seq<T>, shift: nat, nBits: nat)
    requires Agree(key, s, shift + nBits)
    requires SortedBuckets(key, s, v, Digit(key, shift, nBits), Pow2(nBits), Pow2(nBits))
    ensures SortedBy(key, v)
  {
    hide ShiftRight, LowBits, Pow2, CountBelow;
    var digit, size := Digit(key, shift, nBits), Pow2(nBits);
    CountBelowAll(s, digit, size);
    forall x | x in v
      ensures x in s
    {
      assert x in multiset(v);
    }
    AgreeMembers(key, s, shift + nBits, v);
    forall i, j | 0 <= i < j < |v|
      ensures key(v[i]) <= key(v[j])
    {
      var p := FindBucket(s, digit, size, i);
      var q := FindBucket(s, digit, size, j);
      assert BucketDone(s, v, digit, p) && BucketDone(s, v, digit, q);
      if p == q {
        var b := Bucket(s, v, digit, p);
        assert v[i] == b[i - Start(s, digit, p)] && v[j] == b[j - Start(s, digit, p)];
      } else {
        BucketsApart(s, digit, p, q);
        if p > q {
          CountBelowMonotone(s, digit, q + 1, p);
        }
        DigitDecides(key(v[i]), key(v[j]), shift, nBits);
      }
    }
  }

  /** Without bits below the digit, a bucket holds equal keys only. */
  lemma LastDigitSorted<T>(key: T -> nat, b: seq<T>)
    requires Agree(key, b, 0)
    ensures SortedBy(key, b)
  {
  }

  // ---- the sorts --------------------------------------------------------------

  /** Move `a[i]` down to its place in the sorted stretch before it. */
  method InsertOne<T>(a: array<T>, beg: nat, i: nat, end: nat, key: T -> nat)
    requires beg < i < end <= a.Length && SortedBy(key, a[beg..i])
    modifies a
    ensures a[..beg] == old(a[..beg]) && a[end..] == old(a[end..])
    ensures multiset(a[beg..end]) == multiset(old(a[beg..end]))
    ensures SortedBy(key, a[beg..i + 1])
  {
    hide SortedBy;
    ghost var u := a[..];
    var tmp := a[i];
    var j := i;
    while j > beg && key(tmp) < key(a[j - 1])
      invariant beg <= j <= i
      invariant forall k :: 0 <= k < j ==> a[k] == u[k]
      invariant forall k :: j < k <= i ==> a[k] == u[k - 1]
      invariant forall k :: i < k < a.Length ==> a[k] == u[k]
      invariant forall k :: j <= k < i ==> key(tmp) < key(u[k])
    {
      a[j] := a[j - 1];
      j := j - 1;
    }
    a[j] := tmp;
    Inserted(key, u, a[..], beg, j, i, end);
  }

  /** The element at `i` has moved down to `j`, the ones between up by one. */
  lemma Inserted<T>(key: T -> nat, u: seq<T>, w: seq<T>, beg: nat, j: nat, i: nat, end: nat)
    requires beg <= j <= i < end <= |u| == |w|
    requires forall k :: 0 <= k < j ==> w[k] == u[k]
    requires forall k :: j < k <= i ==> w[k] == u[k - 1]
    requires forall k :: i < k < |u| ==> w[k] == u[k]
    requires w[j] == u[i] && SortedBy(key, u[beg..i])
    requires forall k :: j <= k < i ==> key(u[i]) < key(u[k])
    requires j > beg ==> key(u[j - 1]) <= key(u[i])
    ensures w[..beg] == u[..beg] && w[end..] == u[end..]
    ensures multiset(w[beg..end]) == multiset(u[beg..end])
    ensures SortedBy(key, w[beg..i + 1])
  {
    hide SortedBy;
    SliceMoved(w, u, 0, beg, 0);
    SliceMoved(w, u, end, |u|, 0);
    InsertedMultiset(u, w, beg, j, i, end);
    InsertedOrder(key, u, w, beg, j, i);
  }

  lemma InsertedMultiset<T>(u: seq<T>, w: seq<T>, beg: nat, j: nat, i: nat, end: nat)
    requires beg <= j <= i < end <= |u| == |w|
    requires forall k :: 0 <= k < j ==> w[k] == u[k]
    requires forall k :: j < k <= i ==> w[k] == u[k - 1]
    requires forall k :: i < k < |u| ==> w[k] == u[k]
    requires w[j] == u[i]
    ensures multiset(w[beg..end]) == multiset(u[beg..end])
  {
    var s, p, x, rest := u[beg..i], j - beg, u[i], u[i + 1..end];
    InsertedWhole(u, w, beg, j, i, end);
    assert u[beg..end] == s + [x] + rest by {
      JoinThree(u, beg, i, end);
    }
    InsertedPermutes(w[beg..end], u[beg..end], s, p, x, rest);
  }

  lemma InsertedWhole<T>(u: seq<T>, w: seq<T>, beg: nat, j: nat, i: nat, end: nat)
    requires beg <= j <= i < end <= |u| == |w|
    requires forall k :: 0 <= k < j ==> w[k] == u[k]
    requires forall k :: j < k <= i ==> w[k] == u[k - 1]
    requires forall k :: i < k < |u| ==> w[k] == u[k]
    requires w[j] == u[i]
    ensures w[beg..end] == u[beg..i][..j - beg] + [u[i]] + u[beg..i][j - beg..] + u[i + 1..end]
  {
    InsertedPrefix(u, w, beg, j, i);
    SliceMoved(w, u, i + 1, end, 0);
    JoinTwo(w, beg, i + 1, end);
  }

  lemma InsertedOrder<T>(key: T -> nat, u: seq<T>, w: seq<T>, beg: nat, j: nat, i: nat)
    requires beg <= j <= i < |u| == |w| && SortedBy(key, u[beg..i])
    requires forall k :: 0 <= k < j ==> w[k] == u[k]
    requires forall k :: j < k <= i ==> w[k] == u[k - 1]
    requires w[j] == u[i]
    requires forall k :: j <= k < i ==> key(u[i]) < key(u[k])
    requires j > beg ==> key(u[j - 1]) <= key(u[i])
    ensures SortedBy(key, w[beg..i + 1])
  {
    hide SortedBy;
    var s, p := u[beg..i], j - beg;
    assert p > 0 ==> s[p - 1] == u[j - 1];
    forall k | p <= k < |s|
      ensures key(u[i]) < key(s[k])
    {
      assert s[k] == u[beg + k];
    }
    InsertedPrefix(u, w, beg, j, i);
    InsertedSorted(key, s, p, u[i]);
  }

  lemma InsertedPrefix<T>(u: seq<T>, w: seq<T>, beg: nat, j: nat, i: nat)
    requires beg <= j <= i < |u| == |w|
    requires forall k :: 0 <= k < j ==> w[k] == u[k]
    requires forall k :: j < k <= i ==> w[k] == u[k - 1]
    requires w[j] == u[i]
    ensures w[beg..i + 1] == u[beg..i][..j - beg] + [u[i]] + u[beg..i][j - beg..]
  {
    assert w[beg..j] == u[beg..j] by { SliceMoved(w, u, beg, j, 0); }
    assert w[j + 1..i + 1] == u[j..i] by { SliceMoved(w, u, j + 1, i + 1, 1); }
    JoinThree(w, beg, j, i + 1);
    SplitAt(u, beg, j, i);
  }

  lemma JoinTwo<T>(a: seq<T>, beg: nat, i: nat, end: nat)
    requires beg <= i <= end <= |a|
    ensures a[beg..end] == a[beg..i] + a[i..end]
  {
  }

  lemma SliceMoved<T>(w: seq<T>, u: seq<T>, lo: nat, hi: nat, d: nat)
    requires d <= lo <= hi <= |w| && hi - d <= |u|
    requires forall k :: lo <= k < hi ==> w[k] == u[k - d]
    ensures w[lo..hi] == u[lo - d..hi - d]
  {
  }

  lemma SplitAt<T>(u: seq<T>, beg: nat, j: nat, i: nat)
    requires beg <= j <= i <= |u|
    ensures u[beg..i][..j - beg] == u[beg..j] && u[beg..i][j - beg..] == u[j..i]
    ensures forall k :: 0 <= k < i - beg ==> u[beg..i][k] == u[beg + k]
  {
  }

  lemma JoinThree<T>(a: seq<T>, beg: nat, i: nat, end: nat)
    requires beg <= i < end <= |a|
    ensures a[beg..end] == a[beg..i] + [a[i]] + a[i + 1..end]
  {
  }

  lemma InsertedPermutes<T>(w: seq<T>, u: seq<T>, s: seq<T>, p: nat, x: T, rest: seq<T>)
    requires p <= |s| && w == s[..p] + [x] + s[p..] + rest && u == s + [x] + rest
    ensures multiset(w) == multiset(u)
  {
    assert s == s[..p] + s[p..];
  }

  lemma InsertedSorted<T>(key: T -> nat, s: seq<T>, p: nat, x: T)
    requires SortedBy(key, s) && p <= |s| && (p > 0 ==> key(s[p - 1]) <= key(x))
    requires forall k :: p <= k < |s| ==> key(x) < key(s[k])
    ensures SortedBy(key, s[..p] + [x] + s[p..])
  {
  }

  /** `rs_insertsort` */
  method InsertSort<T>(a: array<T>, beg: nat, end: nat, key: T -> nat)
    requires beg <= end <= a.Length
    modifies a
    ensures a[..beg] == old(a[..beg]) && a[end..] == old(a[end..])
    ensures multiset(a[beg..end]) == multiset(old(a[beg..end]))
    ensures SortedBy(key, a[beg..end])
  {
    hide SortedBy;
    OneSorted(key, if beg < end then a[beg..beg + 1] else a[beg..end]);
    var i := beg + 1;
    while i < end
      invariant beg < i && (beg < end ==> i <= end)
      invariant a[..beg] == old(a[..beg]) && a[end..] == old(a[end..])
      invariant multiset(a[beg..end]) == multiset(old(a[beg..end]))
      invariant beg < end ==> SortedBy(key, a[beg..i])
    {
      if key(a[i]) < key(a[i - 1]) {
        InsertOne(a, beg, i, end, key);
      } else {
        assert a[beg..i + 1] == a[beg..i] + [a[i]];
        assert a[beg..i][i - 1 - beg] == a[i - 1];
        SortedSnoc(key, a[beg..i], a[i]);
      }
      i := i + 1;
    }
  }

  lemma OneSorted<T>(key: T -> nat, s: seq<T>)
    requires |s| <= 1
    ensures SortedBy(key, s)
  {
  }

  lemma SortedSnoc<T>(key: T -> nat, s: seq<T>, x: T)
    requires SortedBy(key, s) && (s != [] ==> key(s[|s| - 1]) <= key(x))
    ensures SortedBy(key, s + [x])
  {
  }

  /** How the recursion treats one bucket. */
  method SortBucket<T(!new)>(a: array<T>, beg: nat, end: nat, nBits: nat, shift: nat, key: T -> nat)
    requires beg <= end <= a.Length && 0 < nBits <= RS_MAX_BITS
    requires Agree(key, a[beg..end], shift + nBits)
    modifies a
    ensures a[..beg] == old(a[..beg]) && a[end..] == old(a[end..])
    ensures multiset(a[beg..end]) == multiset(old(a[beg..end])) && SortedBy(key, a[beg..end])
    decreases shift, 1
  {
    hide Agree;
    if end - beg > RS_MIN_SIZE {
      Sort(a, beg, end, nBits, shift, key);
    } else if end - beg > 1 {
      InsertSort(a, beg, end, key);
    }
  }

  /** `rs_sort`: distribute by the digit at `shift`, then sort every bucket by the bits below. */
  method Sort<T(!new)>(a: array<T>, beg: nat, end: nat, nBits: nat, shift: nat, key: T -> nat)
    requires beg <= end <= a.Length && 0 < nBits <= RS_MAX_BITS
    requires Agree(key, a[beg..end], shift + nBits)
    modifies a
    ensures a[..beg] == old(a[..beg]) && a[end..] == old(a[end..])
    ensures multiset(a[beg..end]) == multiset(old(a[beg..end])) && SortedBy(key, a[beg..end])
    decreases shift, 0
  {
    hide Agree, CountBelow, SortedBuckets, SortedBy, ShiftRight, LowBits, Start, Digit, Pow2;
    ghost var s := a[beg..end];
    var b, e := IntoBuckets(a, beg, end, nBits, shift, key);
    if shift > 0 {
      SortBuckets(a, beg, end, nBits, shift, key, b, e, s);
    } else {
      LastDigit(key, s, a[beg..end], nBits);
    }
    WholeSorted(key, s, a[beg..end], shift, nBits);
    Permuted(key, s, a[beg..end], Digit(key, shift, nBits), Pow2(nBits), Pow2(nBits));
  }

  /** The first half of `rs_sort`: count, distribute, and set the starts of the buckets again. */
  method IntoBuckets<T(!new)>(a: array<T>, beg: nat, end: nat, nBits: nat, shift: nat, key: T -> nat)
    returns (b: array<nat>, e: array<nat>)
    requires beg <= end <= a.Length && 0 < nBits <= RS_MAX_BITS
    modifies a
    ensures fresh(b) && fresh(e) && b.Length == e.Length == Pow2(nBits)
    ensures a[..beg] == old(a[..beg]) && a[end..] == old(a[end..])
    ensures SortedBuckets(key, old(a[beg..end]), a[beg..end], Digit(key, shift, nBits), Pow2(nBits), 0)
    ensures forall q :: 0 <= q < b.Length ==>
              && b[q] == Start(old(a[beg..end]), Digit(key, shift, nBits), q)
              && e[q] == Start(old(a[beg..end]), Digit(key, shift, nBits), q + 1)
  {
    hide CountBelow, SortedBuckets, SortedBy, ShiftRight, LowBits;
    var digit := Digit(key, shift, nBits);
    var size := Pow2(nBits);
    b, e := NewBuckets(size);
    ghost var s := a[beg..end];
    CountBuckets(a, beg, end, digit, b, e);
    Distribute(a, beg, end, digit, b, e);
    DistributedBuckets(key, s, a[beg..end], digit, size);
    CountBelowZero(s, digit);
    ResetStarts(b, e);
  }

  method NewBuckets(size: nat) returns (b: array<nat>, e: array<nat>)
    ensures fresh(b) && fresh(e) && b != e && b.Length == e.Length == size
  {
    b := new nat[size];
    e := new nat[size];
  }

  /** Every bucket starts where the one before it ends. */
  method ResetStarts(b: array<nat>, e: array<nat>)
    requires b != e && b.Length == e.Length > 0
    modifies b
    ensures b[0] == 0 && forall q :: 0 < q < b.Length ==> b[q] == e[q - 1]
  {
    b[0] := 0;
    var k := 1;
    while k < b.Length
      invariant 1 <= k <= b.Length && b[0] == 0
      invariant forall q :: 0 < q < k ==> b[q] == e[q - 1]
    {
      b[k] := e[k - 1];
      k := k + 1;
    }
  }

  lemma Permuted<T>(key: T -> nat, s: seq<T>, v: seq<T>, digit: T -> nat, size: nat, k: nat)
    requires SortedBuckets(key, s, v, digit, size, k)
    ensures multiset(v) == multiset(s) && |v| == |s|
  {
  }

  lemma DistributedBuckets<T>(key: T -> nat, s: seq<T>, v: seq<T>, digit: T -> nat, size: nat)
    requires |v| == |s| && multiset(v) == multiset(s)
    requires forall q :: 0 <= q < size ==> BucketDone(s, v, digit, q)
    ensures SortedBuckets(key, s, v, digit, size, 0)
  {
  }

  /** The elements of a bucket, as the recursive call finds them. */
  lemma BucketReady<T(!new)>(key: T -> nat, s: seq<T>, v: seq<T>, shift: nat, nBits: nat, k: nat, q: nat)
    requires Agree(key, s, shift + nBits) && q < Pow2(nBits)
    requires SortedBuckets(key, s, v, Digit(key, shift, nBits), Pow2(nBits), k)
    ensures |v| == |s|
    ensures Agree(key, Bucket(s, v, Digit(key, shift, nBits), q), NextShift(shift, nBits) + nBits)
    ensures Agree(key, Bucket(s, v, Digit(key, shift, nBits), q), shift)
  {
    hide Agree, CountBelow, ShiftRight, LowBits, Pow2;
    var digit := Digit(key, shift, nBits);
    var b := Bucket(s, v, digit, q);
    forall x | x in b
      ensures x in s
    {
      assert x in v;
      assert x in multiset(v);
    }
    AgreeMembers(key, s, shift + nBits, b);
    assert BucketDone(s, v, digit, q);
    BucketAgrees(key, b, shift, nBits, q);
  }

  lemma LastDigit<T(!new)>(key: T -> nat, s: seq<T>, v: seq<T>, nBits: nat)
    requires Agree(key, s, nBits)
    requires SortedBuckets(key, s, v, Digit(key, 0, nBits), Pow2(nBits), 0)
    ensures SortedBuckets(key, s, v, Digit(key, 0, nBits), Pow2(nBits), Pow2(nBits))
  {
    hide Agree, Pow2, SortedBy;
    forall q: nat | q < Pow2(nBits)
      ensures SortedBy(key, Bucket(s, v, Digit(key, 0, nBits), q))
    {
      BucketReady(key, s, v, 0, nBits, 0, q);
      LastDigitSorted(key, Bucket(s, v, Digit(key, 0, nBits), q));
    }
  }

  /** What a change inside [beg + lo, beg + hi) leaves of the range and of what lies around it. */
  lemma RangesKept<T>(u: seq<T>, w: seq<T>, beg: nat, lo: nat, hi: nat, end: nat)
    requires |w| == |u| && lo <= hi && beg + hi <= end <= |u|
    requires w[..beg + lo] == u[..beg + lo] && w[beg + hi..] == u[beg + hi..]
    ensures w[beg..end] == u[beg..end][..lo] + w[beg + lo..beg + hi] + u[beg..end][hi..]
    ensures w[..beg] == u[..beg] && w[end..] == u[end..]
  {
    assert w[..beg] == w[..beg + lo][..beg] && u[..beg] == u[..beg + lo][..beg];
    assert w[end..] == w[beg + hi..][end - beg - hi..] && u[end..] == u[beg + hi..][end - beg - hi..];
    assert w[beg..beg + lo] == w[..beg + lo][beg..] && u[beg..beg + lo] == u[..beg + lo][beg..];
    assert w[beg + hi..end] == w[beg + hi..][..end - beg - hi] && u[beg + hi..end] == u[beg + hi..][..end - beg - hi];
    assert u[beg..end][..lo] == u[beg..beg + lo] && u[beg..end][hi..] == u[beg + hi..end];
    assert w[beg..end] == w[beg..beg + lo] + w[beg + lo..beg + hi] + w[beg + hi..end];
  }

  lemma SliceOfSlice<T>(u: seq<T>, beg: nat, end: nat, lo: nat, hi: nat)
    requires beg <= end <= |u| && lo <= hi <= end - beg
    ensures u[beg..end][lo..hi] == u[beg + lo..beg + hi]
  {
    var x, y := u[beg..end][lo..hi], u[beg + lo..beg + hi];
    forall k | 0 <= k < hi - lo
      ensures x[k] == y[k]
    {
      assert x[k] == u[beg..end][lo + k] == u[beg + (lo + k)];
    }
  }

  /** Bucket `k` is sorted; the others stay as they are. */
  method SortBucketAt<T(!new)>(a: array<T>, beg: nat, end: nat, nBits: nat, shift: nat, key: T -> nat,
                               b: array<nat>, e: array<nat>, ghost s: seq<T>, k: nat)
    requires beg <= end <= a.Length && 0 < nBits <= RS_MAX_BITS && shift > 0 && k < Pow2(nBits)
    requires a as object != b && a as object != e && b.Length == e.Length == Pow2(nBits)
    requires Agree(key, s, shift + nBits)
    requires SortedBuckets(key, s, a[beg..end], Digit(key, shift, nBits), Pow2(nBits), k)
    requires b[k] == Start(s, Digit(key, shift, nBits), k) && e[k] == Start(s, Digit(key, shift, nBits), k + 1)
    modifies a
    ensures a[..beg] == old(a[..beg]) && a[end..] == old(a[end..])
    ensures SortedBuckets(key, s, a[beg..end], Digit(key, shift, nBits), Pow2(nBits), k + 1)
    decreases NextShift(shift, nBits), 2
  {
    hide Agree, SortedBuckets, SortedBy, CountBelow, Start, ShiftRight, LowBits, Pow2;
    ghost var digit := Digit(key, shift, nBits);
    BucketReady(key, s, a[beg..end], shift, nBits, k, k);
    ghost var u, v := a[..], a[beg..end];
    ghost var lo, hi := b[k], e[k];
    assert Bucket(s, v, digit, k) == v[lo..hi];
    SliceOfSlice(u, beg, end, lo, hi);
    SortBucket(a, beg + b[k], beg + e[k], nBits, NextShift(shift, nBits), key);
    ghost var x := a[beg + lo..beg + hi];
    RangesKept(u, a[..], beg, lo, hi, end);
    SortOneBucket(key, s, v, digit, Pow2(nBits), k, x);
  }

  /** The loop over the buckets. */
  method SortBuckets<T(!new)>(a: array<T>, beg: nat, end: nat, nBits: nat, shift: nat, key: T -> nat,
                              b: array<nat>, e: array<nat>, ghost s: seq<T>)
    requires beg <= end <= a.Length && 0 < nBits <= RS_MAX_BITS && shift > 0
    requires a as object != b && a as object != e && b.Length == e.Length == Pow2(nBits)
    requires Agree(key, s, shift + nBits)
    requires SortedBuckets(key, s, a[beg..end], Digit(key, shift, nBits), Pow2(nBits), 0)
    requires forall q :: 0 <= q < b.Length ==>
               b[q] == Start(s, Digit(key, shift, nBits), q) && e[q] == Start(s, Digit(key, shift, nBits), q + 1)
    modifies a
    ensures a[..beg] == old(a[..beg]) && a[end..] == old(a[end..])
    ensures SortedBuckets(key, s, a[beg..end], Digit(key, shift, nBits), Pow2(nBits), Pow2(nBits))
    decreases NextShift(shift, nBits), 3
  {
    hide Agree, SortedBuckets, SortedBy, CountBelow, Start, ShiftRight, LowBits, Pow2;
    ghost var digit := Digit(key, shift, nBits);
    var k := 0;
    while k < b.Length
      invariant 0 <= k <= b.Length
      invariant SortedBuckets(key, s, a[beg..end], digit, Pow2(nBits), k)
      invariant a[..beg] == old(a[..beg]) && a[end..] == old(a[end..])
    {
      SortBucketAt(a, beg, end, nBits, shift, key, b, e, s, k);
      k := k + 1;
    }
  }

  /** `radix_sort` for keys of `bytes` bytes. */
  method RadixSort<T(!new)>(a: array<T>, key: T -> nat, bytes: nat)
    requires bytes > 0 && forall i :: 0 <= i < a.Length ==> key(a[i]) < Pow2(8 * bytes)
    modifies a
    ensures multiset(a[..]) == multiset(old(a[..])) && SortedBy(key, a[..])
  {
    hide Agree, SortedBy;
    assert a[0..a.Length] == a[..];
    if a.Length <= RS_MIN_SIZE {
      InsertSort(a, 0, a.Length, key);
    } else {
      SmallKeysAgree(key, a[..], 8 * bytes);
      Sort(a, 0, a.Length, RS_MAX_BITS, (bytes - 1) * RS_MAX_BITS, key);
    }
    assert a[0..a.Length] == a[..];
  }

  lemma SmallKeysAgree<T>(key: T -> nat, s: seq<T>, bits: nat)
    requires forall i :: 0 <= i < |s| ==> key(s[i]) < Pow2(bits)
    ensures Agree(key, s, bits)
  {
    forall i | 0 <= i < |s|
      ensures ShiftRight(key(s[i]), bits) == 0
    {
      ShiftRightBound(key(s[i]), bits, 0);
    }
  }
}
