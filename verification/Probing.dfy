/**
 Open addressing, independent of which table uses it: probe sequences, the keys a
 table stores, and the invariant that lets a search stop at the first free bucket.
 */
module Probing {
  import opened Powers

  datatype Scheme = Linear | Triangular

  /** 1 + 2 + ... + s, the offset reached by adding a step that grows by one each time. */
  function Tri(s: nat): nat {
    if s == 0 then 0 else Tri(s - 1) + s
  }

  /** `x & (n - 1)` for a power of two n and x below 2n. */
  function Wrap(x: nat, n: nat): (i: nat)
    requires x < 2 * n
    ensures i < n
  {
    if x < n then x else x - n
  }

  /** The bucket looked at after `s` steps from bucket `h` of `n`. */
  function Probe(sch: Scheme, h: nat, s: nat, n: nat): (i: nat)
    requires h < n && s <= n
    ensures i < n
  {
    if s == 0 then h else Wrap(Probe(sch, h, s - 1, n) + (if sch.Linear? then 1 else s), n)
  }

  function Offset(sch: Scheme, s: nat): nat {
    if sch.Linear? then s else Tri(s)
  }

  lemma {:induction false} ProbeClosedForm(sch: Scheme, h: nat, s: nat, n: nat)
    requires h < n && s <= n
    ensures Probe(sch, h, s, n) == (h + Offset(sch, s)) % n
  {
    if s == 0 {
      SmallResidue(h, n);
    } else {
      var step := if sch.Linear? then 1 else s;
      ProbeClosedForm(sch, h, s - 1, n);
      WrapMod(Probe(sch, h, s - 1, n) + step, n);
      ModAddLeft(h + Offset(sch, s - 1), step, n);
    }
  }

  lemma SmallResidue(x: nat, n: nat)
    requires x < n
    ensures x % n == x
  {
  }

  lemma WrapMod(x: nat, n: nat)
    requires x < 2 * n
    ensures Wrap(x, n) == x % n
  {
    if x >= n {
      ModEqual(x, x - n, n);
      MultipleMod(1, n);
      SmallResidue(x - n, n);
    }
  }

  ghost predicate GoodSize(sch: Scheme, n: nat) {
    n > 0 && (sch.Triangular? ==> IsPow2(n))
  }

  // ---- every bucket is visited ------------------------------------------------

  lemma ModEqual(a: int, b: int, n: int)
    requires n > 0
    ensures a % n == b % n <==> (a - b) % n == 0
  {
    var q, r := a / n - b / n, a % n - b % n;
    assert a - b == q * n + r by {
      assert a == (a / n) * n + a % n && b == (b / n) * n + b % n;
    }
    if r == 0 {
      MultipleMod(q, n);
    }
    if (a - b) % n == 0 {
      ExactMultiple((a - b) / n, q, r, n);
    }
  }

  lemma ExactMultiple(q: int, q': int, r: int, n: int)
    requires n > 0 && -n < r < n && q * n == q' * n + r
    ensures r == 0
  {
    assert (q - q') * n == r;
    assert q - q' >= 1 ==> (q - q') * n >= n;
    assert q - q' <= -1 ==> (q - q') * n <= -n;
  }

  lemma ModAddLeft(a: int, b: int, n: int)
    requires n > 0
    ensures (a % n + b) % n == (a + b) % n
  {
    ModEqual(a % n + b, a + b, n);
    assert (a % n + b) - (a + b) == -(a / n) * n;
    MultipleMod(-(a / n), n);
  }

  lemma SmallMod(a: int, n: int)
    requires n > 0 && a % n == 0 && -n < a < n
    ensures a == 0
  {
  }

  lemma TriangularInjective(h: nat, a: nat, b: nat, k: nat)
    requires b < a < Pow2(k) && h < Pow2(k)
    ensures Probe(Triangular, h, a, Pow2(k)) != Probe(Triangular, h, b, Pow2(k))
  {
    var d := Tri(a) - Tri(b);
    ProbeClosedForm(Triangular, h, a, Pow2(k));
    ProbeClosedForm(Triangular, h, b, Pow2(k));
    ModEqual(h + Tri(a), h + Tri(b), Pow2(k));
    if d % Pow2(k) == 0 {
      DoubleMultiple(d, k);
      TriClosedForm(a);
      TriClosedForm(b);
      assert (a - b) * (a + b + 1) == 2 * d;
      OppositeParityFactors(a - b, a + b + 1, k + 1);
    }
  }

  lemma {:induction false} TriClosedForm(a: nat)
    ensures 2 * Tri(a) == a * a + a
  {
    if a > 0 {
      TriClosedForm(a - 1);
    }
  }

  lemma OppositeParityFactors(u: nat, v: nat, k: nat)
    requires u % 2 != v % 2
    requires 0 < u < Pow2(k) && 0 < v < Pow2(k)
    ensures (u * v) % Pow2(k) != 0
  {
    var p := Pow2(k);
    if (u * v) % p == 0 {
      var q := u * v / p;
      assert u * v == q * p;
      if u % 2 == 1 {
        var r := OddFactorDrops(u, v, q, k);
        NoSmallMultiple(v, r, p);
      } else {
        assert v * u == u * v;
        var r := OddFactorDrops(v, u, q, k);
        NoSmallMultiple(u, r, p);
      }
    }
  }

  lemma NoSmallMultiple(v: int, r: int, p: int)
    requires 0 < v < p
    ensures v != r * p
  {
    assert r >= 1 ==> r * p >= p;
    assert r <= 0 ==> r * p <= 0;
  }

  lemma DoubleMultiple(d: int, k: nat)
    requires d % Pow2(k) == 0
    ensures (2 * d) % Pow2(k + 1) == 0
  {
    var q := d / Pow2(k);
    assert 2 * d == q * Pow2(k + 1);
    MultipleMod(q, Pow2(k + 1));
  }

  lemma ProbeInjective(sch: Scheme, h: nat, a: nat, b: nat, n: nat)
    requires GoodSize(sch, n) && h < n
    requires b < a < n
    ensures Probe(sch, h, a, n) != Probe(sch, h, b, n)
  {
    if sch.Triangular? {
      var k: nat :| n == Pow2(k);
      TriangularInjective(h, a, b, k);
    } else {
      ProbeClosedForm(Linear, h, a, n);
      ProbeClosedForm(Linear, h, b, n);
      ModEqual(h + a, h + b, n);
      if (a - b) % n == 0 {
        SmallMod(a - b, n);
      }
    }
  }

  /** An injective list of n numbers below n contains every number below n. */
  lemma Pigeonhole(s: seq<nat>, n: nat, f: nat)
    requires |s| == n && f < n
    requires forall i :: 0 <= i < n ==> s[i] < n
    requires forall i, j :: 0 <= i < j < n ==> s[i] != s[j]
    ensures f in s
  {
    var hit := set x | x in s;
    DistinctSize(s);
    assert hit <= Below(n);
    if f !in hit {
      SubsetSize(hit, Below(n) - {f});
    }
  }

  ghost function Below(n: nat): (r: set<nat>)
    ensures |r| == n
    ensures forall i: nat :: i in r <==> i < n
  {
    if n == 0 then {} else Below(n - 1) + {n - 1}
  }

  lemma {:induction false} DistinctSize<T>(s: seq<T>)
    requires forall i, j :: 0 <= i < j < |s| ==> s[i] != s[j]
    ensures |set x | x in s| == |s|
  {
    if |s| > 0 {
      var t := s[..|s| - 1];
      DistinctSize(t);
      assert s == t + [s[|s| - 1]];
      assert (set x | x in s) == (set x | x in t) + {s[|s| - 1]};
    }
  }

  lemma {:induction false} SubsetSize<T>(a: set<T>, b: set<T>)
    requires a <= b
    ensures |a| <= |b|
  {
    if a != {} {
      var x :| x in a;
      SubsetSize(a - {x}, b - {x});
    }
  }

  /** Within n steps every probe sequence reaches every bucket. */
  lemma ProbeCovers(sch: Scheme, h: nat, n: nat, f: nat) returns (s: nat)
    requires GoodSize(sch, n)
    requires f < n && h < n
    ensures s < n && Probe(sch, h, s, n) == f
  {
    var visits := seq(n, (i: nat) requires i < n => Probe(sch, h, i, n));
    forall i, j | 0 <= i < j < n
      ensures visits[i] != visits[j]
    {
      ProbeInjective(sch, h, j, i, n);
    }
    Pigeonhole(visits, n, f);
    s :| s < n && visits[s] == f;
  }

  // ---- what a table stores ----------------------------------------------------

  /** The keys in the used buckets; buckets beyond the bitmap are not part of the table. */
  ghost function KeySet<K>(used: seq<bool>, keys: seq<K>): (r: set<K>)
    requires |used| <= |keys|
    ensures forall i :: 0 <= i < |used| && used[i] ==> keys[i] in r
  {
    set i | 0 <= i < |used| && used[i] :: keys[i]
  }

  ghost predicate Distinct<K>(used: seq<bool>, keys: seq<K>)
    requires |used| <= |keys|
  {
    forall i, j :: 0 <= i < j < |used| && used[i] && used[j] ==> keys[i] != keys[j]
  }

  function CountTrue(s: seq<bool>): (c: nat)
    ensures c <= |s|
  {
    if s == [] then 0 else CountTrue(s[..|s| - 1]) + if s[|s| - 1] then 1 else 0
  }

  lemma {:induction false} CountTrueUpdate(s: seq<bool>, i: nat, v: bool)
    requires i < |s|
    ensures CountTrue(s[i := v]) == CountTrue(s) + (if v then 1 else 0) - (if s[i] then 1 else 0)
  {
    var m := |s| - 1;
    if i < m {
      assert s[i := v][..m] == s[..m][i := v];
      CountTrueUpdate(s[..m], i, v);
    } else {
      assert s[i := v][..m] == s[..m];
    }
  }

  lemma {:induction false} CountTrueFull(s: seq<bool>)
    ensures CountTrue(s) == |s| <==> forall i :: 0 <= i < |s| ==> s[i]
    ensures CountTrue(s) == 0 <==> forall i :: 0 <= i < |s| ==> !s[i]
  {
    if s != [] {
      var m := |s| - 1;
      CountTrueFull(s[..m]);
      assert forall i :: 0 <= i < m ==> s[..m][i] == s[i];
    }
  }

  lemma {:induction false} CountTrueMonotone(s: seq<bool>, t: seq<bool>)
    requires |s| == |t| && forall i :: 0 <= i < |s| && s[i] ==> t[i]
    ensures CountTrue(s) <= CountTrue(t)
  {
    if s != [] {
      var m := |s| - 1;
      assert forall i :: 0 <= i < m ==> s[..m][i] == s[i] && t[..m][i] == t[i];
      CountTrueMonotone(s[..m], t[..m]);
    }
  }

  lemma SomeFalse(s: seq<bool>) returns (f: nat)
    requires CountTrue(s) < |s|
    ensures f < |s| && !s[f]
  {
    CountTrueFull(s);
    f :| f < |s| && !s[f];
  }

  /** A table has as many keys as used buckets. */
  lemma {:induction false} KeySetSize<K>(used: seq<bool>, keys: seq<K>)
    requires |used| <= |keys|
    requires Distinct(used, keys)
    ensures |KeySet(used, keys)| == CountTrue(used)
  {
    hide KeySet, Distinct;
    if |used| == 0 {
      NothingStored(used, keys);
    } else {
      KeySetLast(used, keys);
      KeySetSize(used[..|used| - 1], keys);
    }
  }

  lemma KeySetLast<K>(used: seq<bool>, keys: seq<K>)
    requires 0 < |used| <= |keys|
    requires Distinct(used, keys)
    ensures Distinct(used[..|used| - 1], keys)
    ensures |KeySet(used, keys)| == |KeySet(used[..|used| - 1], keys)| + if used[|used| - 1] then 1 else 0
  {
    var m := |used| - 1;
    assert KeySet(used, keys) == KeySet(used[..m], keys) + if used[m] then {keys[m]} else {};
  }

  /** A table with fewer keys than buckets has a free bucket. */
  lemma FreeBucket<K>(used: seq<bool>, keys: seq<K>) returns (f: nat)
    requires |used| <= |keys|
    requires Distinct(used, keys)
    requires |KeySet(used, keys)| < |used|
    ensures f < |used| && !used[f]
  {
    KeySetSize(used, keys);
    f := SomeFalse(used);
  }

  lemma KeySetAdd<K>(used: seq<bool>, keys: seq<K>, i: nat, k: K)
    requires |used| <= |keys| && i < |used| && !used[i]
    ensures KeySet(used[i := true], keys[i := k]) == KeySet(used, keys) + {k}
    ensures Distinct(used, keys) && k !in KeySet(used, keys) ==> Distinct(used[i := true], keys[i := k])
  {
    var u, ks := used[i := true], keys[i := k];
    assert u[i] && ks[i] == k;
    forall x | x in KeySet(used, keys)
      ensures x in KeySet(u, ks)
    {
      var j :| 0 <= j < |used| && used[j] && keys[j] == x;
      assert u[j] && ks[j] == x;
    }
  }

  lemma KeySetRemove<K>(used: seq<bool>, keys: seq<K>, i: nat)
    requires |used| <= |keys| && i < |used| && used[i]
    requires Distinct(used, keys)
    ensures KeySet(used[i := false], keys) == KeySet(used, keys) - {keys[i]}
    ensures Distinct(used[i := false], keys)
    ensures keys[i] in KeySet(used, keys)
  {
    var u := used[i := false];
    forall x | x in KeySet(used, keys) - {keys[i]}
      ensures x in KeySet(u, keys)
    {
      var j :| 0 <= j < |used| && used[j] && keys[j] == x;
      assert u[j];
    }
  }

  lemma KeySetFrame<K>(used: seq<bool>, keys: seq<K>, keys': seq<K>)
    requires |used| <= |keys| && |used| <= |keys'|
    requires forall i :: 0 <= i < |used| && used[i] ==> keys[i] == keys'[i]
    ensures KeySet(used, keys) == KeySet(used, keys')
    ensures Distinct(used, keys) ==> Distinct(used, keys')
  {
  }

  // ---- the search invariant ---------------------------------------------------

  /** The first `s` buckets probed from `h` are taken. */
  ghost predicate Taken(sch: Scheme, h: nat, s: nat, taken: seq<bool>)
    requires h < |taken| && s <= |taken|
  {
    forall t: nat :: t < s ==> taken[Probe(sch, h, t, |taken|)]
  }

  /** Bucket `i` is reached from `h` through taken buckets only, in fewer than |taken| steps. */
  ghost predicate Reachable(sch: Scheme, h: nat, i: nat, taken: seq<bool>)
    requires h < |taken|
  {
    exists s: nat :: s < |taken| && Probe(sch, h, s, |taken|) == i && Taken(sch, h, s, taken)
  }

  lemma ReachedHere(sch: Scheme, h: nat, s: nat, taken: seq<bool>)
    requires h < |taken| && s < |taken| && Taken(sch, h, s, taken)
    ensures Reachable(sch, h, Probe(sch, h, s, |taken|), taken)
  {
  }

  /** Every stored key is reachable from its home bucket. `taken` may also hold tombstones. */
  ghost predicate Chained<K>(sch: Scheme, home: K -> nat, used: seq<bool>, taken: seq<bool>, keys: seq<K>)
    requires 0 < |used| == |taken| <= |keys|
  {
    forall i :: 0 <= i < |used| && used[i] ==> taken[i] && home(keys[i]) < |used| && Reachable(sch, home(keys[i]), i, taken)
  }

  /** None of the first `s` buckets probed from `h` holds key `k`. */
  ghost predicate Missed<K>(sch: Scheme, h: nat, s: nat, used: seq<bool>, keys: seq<K>, k: K)
    requires h < |used| <= |keys| && s <= |used|
  {
    forall t: nat :: t < s ==> !HoldsAt(used, keys, k, Probe(sch, h, t, |used|))
  }

  ghost predicate HoldsAt<K>(used: seq<bool>, keys: seq<K>, k: K, i: nat)
    requires i < |used| <= |keys|
  {
    used[i] && keys[i] == k
  }

  lemma SearchStart<K>(sch: Scheme, h: nat, used: seq<bool>, taken: seq<bool>, keys: seq<K>, k: K)
    requires h < |used| == |taken| <= |keys|
    ensures Probe(sch, h, 0, |used|) == h
    ensures Missed(sch, h, 0, used, keys, k) && Taken(sch, h, 0, taken)
  {
  }

  lemma SearchStep<K>(sch: Scheme, h: nat, s: nat, used: seq<bool>, taken: seq<bool>, keys: seq<K>, k: K)
    requires h < |used| == |taken| <= |keys| && s < |used|
    requires Missed(sch, h, s, used, keys, k) && Taken(sch, h, s, taken)
    requires var i := Probe(sch, h, s, |used|); taken[i] && (!used[i] || keys[i] != k)
    ensures Probe(sch, h, s + 1, |used|) == Wrap(Probe(sch, h, s, |used|) + (if sch.Linear? then 1 else s + 1), |used|)
    ensures Missed(sch, h, s + 1, used, keys, k) && Taken(sch, h, s + 1, taken)
  {
  }

  lemma TakenStep(sch: Scheme, h: nat, s: nat, taken: seq<bool>)
    requires h < |taken| && s < |taken|
    requires Taken(sch, h, s, taken) && taken[Probe(sch, h, s, |taken|)]
    ensures Probe(sch, h, s + 1, |taken|) == Wrap(Probe(sch, h, s, |taken|) + (if sch.Linear? then 1 else s + 1), |taken|)
    ensures Taken(sch, h, s + 1, taken)
  {
  }

  /** More taken buckets never make a bucket unreachable. */
  lemma ReachableMonotone(sch: Scheme, h: nat, i: nat, taken: seq<bool>, taken': seq<bool>)
    requires h < |taken| == |taken'|
    requires forall j :: 0 <= j < |taken| && taken[j] ==> taken'[j]
    requires Reachable(sch, h, i, taken)
    ensures Reachable(sch, h, i, taken')
  {
    var s: nat :| s < |taken| && Probe(sch, h, s, |taken|) == i && Taken(sch, h, s, taken);
    assert Taken(sch, h, s, taken');
  }

  /** Storing a key in a bucket its probe sequence reaches keeps every key reachable. */
  lemma ChainedAdd<K>(sch: Scheme, home: K -> nat, used: seq<bool>, taken: seq<bool>, keys: seq<K>, i: nat, k: K)
    requires 0 < |used| == |taken| <= |keys| && i < |used| && !used[i]
    requires Chained(sch, home, used, taken, keys)
    requires home(k) < |used| && Reachable(sch, home(k), i, taken)
    ensures Chained(sch, home, used[i := true], taken[i := true], keys[i := k])
  {
    var taken' := taken[i := true];
    forall j | 0 <= j < |used| && used[i := true][j]
      ensures taken'[j] && home(keys[i := k][j]) < |used| && Reachable(sch, home(keys[i := k][j]), j, taken')
    {
      ReachableMonotone(sch, home(keys[i := k][j]), j, taken, taken');
    }
  }

  /** A search that finds a free bucket, having compared every bucket before it, misses nothing. */
  lemma SearchComplete<K>(sch: Scheme, home: K -> nat, used: seq<bool>, taken: seq<bool>, keys: seq<K>, k: K, s: nat)
    requires 0 < |used| == |taken| <= |keys|
    requires home(k) < |used| && s <= |used|
    requires Chained(sch, home, used, taken, keys)
    requires Missed(sch, home(k), s, used, keys, k)
    requires s == |used| || !taken[Probe(sch, home(k), s, |used|)]
    ensures k !in KeySet(used, keys)
  {
    forall i | 0 <= i < |used| && used[i]
      ensures keys[i] != k
    {
      var r: nat :| r < |used| && Probe(sch, home(keys[i]), r, |used|) == i && Taken(sch, home(keys[i]), r, taken);
      assert keys[i] == k ==> HoldsAt(used, keys, k, i);
      assert keys[i] == k ==> r >= s;
      assert r > s ==> taken[Probe(sch, home(keys[i]), s, |used|)];
    }
  }

  /** Coming back to the start means that every bucket has been visited. */
  lemma ProbeFirstReturn(sch: Scheme, h: nat, s: nat, n: nat)
    requires GoodSize(sch, n) && h < n
    requires 0 < s <= n && Probe(sch, h, s, n) == h
    ensures s == n
  {
    if s < n {
      ProbeInjective(sch, h, s, 0, n);
    }
  }

  // ---- rehashing inside one key array -----------------------------------------

  /**
   A rehash in progress. `src` marks buckets whose key has still to move, `dst` those that
   already hold a moved key; both bitmaps index the same key array. `pending` holds the key
   in the hand of the algorithm, if any. Nothing is lost or doubled: the three parts are
   disjoint and make up `all`.
   */
  ghost predicate Moving<K>(sch: Scheme, home: K -> nat, src: seq<bool>, dst: seq<bool>, keys: seq<K>,
                            pending: set<K>, all: set<K>)
  {
    && |src| <= |keys| && 0 < |dst| <= |keys|
    && Distinct(src, keys) && Distinct(dst, keys)
    && Chained(sch, home, dst, dst, keys)
    && (forall i :: 0 <= i < |src| && i < |dst| ==> !(src[i] && dst[i]))
    && KeySet(src, keys) !! KeySet(dst, keys) !! pending
    && KeySet(src, keys) + KeySet(dst, keys) + pending == all
  }

  lemma NothingStored<K>(used: seq<bool>, keys: seq<K>)
    requires |used| <= |keys|
    ensures (forall i :: 0 <= i < |used| ==> !used[i]) ==> KeySet(used, keys) == {} && Distinct(used, keys)
  {
  }

  lemma MovingStart<K>(sch: Scheme, home: K -> nat, src: seq<bool>, dst: seq<bool>, keys: seq<K>)
    requires |src| <= |keys| && 0 < |dst| <= |keys|
    requires Distinct(src, keys)
    requires forall i :: 0 <= i < |dst| ==> !dst[i]
    ensures Moving(sch, home, src, dst, keys, {}, KeySet(src, keys))
  {
    assert KeySet(dst, keys) == {};
  }

  /** Pick up the key of an old bucket. */
  lemma MovingTake<K>(sch: Scheme, home: K -> nat, src: seq<bool>, dst: seq<bool>, keys: seq<K>, all: set<K>, j: nat)
    requires Moving(sch, home, src, dst, keys, {}, all)
    requires j < |src| && src[j]
    ensures Moving(sch, home, src[j := false], dst, keys, {keys[j]}, all)
    ensures |KeySet(src[j := false], keys)| < |KeySet(src, keys)|
  {
    hide Distinct, Chained, KeySet;
    KeySetRemove(src, keys, j);
  }

  /** While a key is pending there is a free new bucket, and the probe sequence gets to it. */
  lemma MovingRoom<K>(sch: Scheme, home: K -> nat, src: seq<bool>, dst: seq<bool>, keys: seq<K>, k: K, all: set<K>)
    returns (s: nat)
    requires Moving(sch, home, src, dst, keys, {k}, all)
    requires |all| <= |dst| && GoodSize(sch, |dst|) && home(k) < |dst|
    ensures s < |dst| && !dst[Probe(sch, home(k), s, |dst|)]
  {
    SubsetSize(KeySet(dst, keys), all - {k});
    var f := FreeBucket(dst, keys);
    s := ProbeCovers(sch, home(k), |dst|, f);
  }

  /** Put the pending key down in a new bucket that holds no unmoved key. */
  lemma MovingSettle<K>(sch: Scheme, home: K -> nat, src: seq<bool>, dst: seq<bool>, keys: seq<K>, k: K, all: set<K>, i: nat)
    requires Moving(sch, home, src, dst, keys, {k}, all)
    requires i < |dst| && !dst[i] && home(k) < |dst| && Reachable(sch, home(k), i, dst)
    requires i < |src| ==> !src[i]
    ensures Moving(sch, home, src, dst[i := true], keys[i := k], {}, all)
    ensures KeySet(src, keys[i := k]) == KeySet(src, keys)
  {
    hide Chained, Reachable;
    KeySetFrame(src, keys, keys[i := k]);
    KeySetAdd(dst, keys, i, k);
    ChainedAdd(sch, home, dst, dst, keys, i, k);
  }

  /** Put the pending key down in a new bucket and pick up the unmoved key that was there. */
  lemma MovingKick<K>(sch: Scheme, home: K -> nat, src: seq<bool>, dst: seq<bool>, keys: seq<K>, k: K, all: set<K>, i: nat)
    requires Moving(sch, home, src, dst, keys, {k}, all)
    requires i < |dst| && !dst[i] && home(k) < |dst| && Reachable(sch, home(k), i, dst)
    requires i < |src| && src[i]
    ensures Moving(sch, home, src[i := false], dst[i := true], keys[i := k], {keys[i]}, all)
    ensures |KeySet(src[i := false], keys[i := k])| < |KeySet(src, keys)|
  {
    hide Chained, Reachable;
    KeySetRemove(src, keys, i);
    KeySetFrame(src[i := false], keys, keys[i := k]);
    KeySetAdd(dst, keys, i, k);
    ChainedAdd(sch, home, dst, dst, keys, i, k);
  }

  /** When no key is left to move, the new bitmap alone describes a valid table of all keys. */
  lemma MovingDone<K>(sch: Scheme, home: K -> nat, src: seq<bool>, dst: seq<bool>, keys: seq<K>, all: set<K>)
    requires Moving(sch, home, src, dst, keys, {}, all)
    requires forall i :: 0 <= i < |src| ==> !src[i]
    ensures Distinct(dst, keys[..|dst|]) && KeySet(dst, keys[..|dst|]) == all
    ensures Chained(sch, home, dst, dst, keys[..|dst|])
  {
    assert KeySet(src, keys) == {};
    KeySetFrame(dst, keys, keys[..|dst|]);
  }

  // ---- linear probing, seen as distances on a ring ----------------------------

  /** Steps forward from bucket `h` to bucket `i` on a ring of `n`. */
  function Dist(h: nat, i: nat, n: nat): (d: nat)
    requires h < n && i < n
    ensures d < n
  {
    if i >= h then i - h else i + n - h
  }

  lemma {:induction false} LinearProbe(h: nat, s: nat, n: nat)
    requires h < n && s < n
    ensures Probe(Linear, h, s, n) == Wrap(h + s, n)
  {
    if s > 0 {
      LinearProbe(h, s - 1, n);
    }
  }

  /** Every bucket strictly before `i` on the ring walk from `h` is taken. */
  ghost predicate Unbroken(h: nat, i: nat, taken: seq<bool>)
    requires h < |taken| && i < |taken|
  {
    forall b :: 0 <= b < |taken| && Dist(h, b, |taken|) < Dist(h, i, |taken|) ==> taken[b]
  }

  lemma ReachableLinear(h: nat, i: nat, taken: seq<bool>)
    requires h < |taken| && i < |taken|
    ensures Reachable(Linear, h, i, taken) <==> Unbroken(h, i, taken)
  {
    var n := |taken|;
    if Reachable(Linear, h, i, taken) {
      var s: nat :| s < n && Probe(Linear, h, s, n) == i && Taken(Linear, h, s, taken);
      LinearProbe(h, s, n);
      forall b | 0 <= b < n && Dist(h, b, n) < Dist(h, i, n)
        ensures taken[b]
      {
        LinearProbe(h, Dist(h, b, n), n);
      }
    }
    if Unbroken(h, i, taken) {
      var s := Dist(h, i, n);
      LinearProbe(h, s, n);
      forall t: nat | t < s
        ensures taken[Probe(Linear, h, t, n)]
      {
        LinearProbe(h, t, n);
      }
      assert Taken(Linear, h, s, taken);
    }
  }

  /** With linear probing, the search invariant is that the ring walk from home to a key is unbroken. */
  ghost predicate Runs<K>(home: K -> nat, used: seq<bool>, taken: seq<bool>, keys: seq<K>)
    requires 0 < |used| == |taken| <= |keys|
  {
    forall i :: 0 <= i < |used| && used[i] ==> taken[i] && home(keys[i]) < |used| && Unbroken(home(keys[i]), i, taken)
  }

  lemma ChainedLinear<K>(home: K -> nat, used: seq<bool>, taken: seq<bool>, keys: seq<K>)
    requires 0 < |used| == |taken| <= |keys|
    ensures Chained(Linear, home, used, taken, keys) <==> Runs(home, used, taken, keys)
  {
    forall i | 0 <= i < |used| && used[i] && home(keys[i]) < |used|
      ensures Reachable(Linear, home(keys[i]), i, taken) <==> Unbroken(home(keys[i]), i, taken)
    {
      ReachableLinear(home(keys[i]), i, taken);
    }
  }

  // ---- arrays ----------------------------------------------------------------

  /** `realloc`: the first `n` elements survive, the rest is arbitrary. */
  method Realloc<T(0)>(a: array<T>, n: nat, size: nat) returns (r: array<T>)
    requires n <= a.Length && n <= size
    ensures fresh(r) && r.Length == size && forall j :: 0 <= j < n ==> r[j] == a[j]
  {
    r := new T[size];
    for i := 0 to n
      invariant forall j :: 0 <= j < i ==> r[j] == a[j]
    {
      r[i] := a[i];
    }
  }
}
