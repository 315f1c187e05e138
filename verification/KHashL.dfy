/** ext/klib/khashl.h: linear probing, backward-shift deletion, rehashing inside one key array. */
module KHashL {
  import opened Powers
  import opened Probing

  type U32 = x: int | 0 <= x < 0x1_0000_0000

  /** Fibonacci hashing: the top `bits` bits of the 32-bit product. */
  function H2B(hash: U32, bits: nat): (h: nat)
    requires bits <= 32
    ensures h < Pow2(bits)
  {
    Pow2At32();
    ShiftRightBound(hash * 2654435769 % 0x1_0000_0000, 32 - bits, bits);
    ShiftRight(hash * 2654435769 % 0x1_0000_0000, 32 - bits)
  }

  /** The hash is multiplied by 0x9e3779b9 modulo 2^32, and its top `bits` bits are kept. */
  lemma H2BTopBits(hash: U32, bits: nat)
    requires bits <= 32
    ensures var p := hash * 0x9e37_79b9 % 0x1_0000_0000;
      H2B(hash, bits) * Pow2(32 - bits) <= p < (H2B(hash, bits) + 1) * Pow2(32 - bits)
  {
    var p := hash * 0x9e37_79b9 % 0x1_0000_0000;
    HighAndLow(p, 32 - bits);
    assert (H2B(hash, bits) + 1) * Pow2(32 - bits) == H2B(hash, bits) * Pow2(32 - bits) + Pow2(32 - bits);
  }

  /** The multiplier is 2^32 divided by the golden ratio (1 + sqrt 5) / 2, rounded down. */
  lemma H2BMultiplier()
    ensures var g := 2 * H2B(1, 32) + 0x1_0000_0000;
      g * g <= 5 * 0x1_0000_0000 * 0x1_0000_0000 < (g + 2) * (g + 2)
  {
    H2BTopBits(1, 32);
    assert H2B(1, 32) == 0x9e37_79b9;
  }

  /** The load limit: three quarters of the capacity. */
  function MaxCount(cap: nat): nat {
    cap / 2 + cap / 4
  }

  lemma ThreeQuarters(bits: nat)
    requires bits >= 2
    ensures 4 * MaxCount(Pow2(bits)) == 3 * Pow2(bits)
  {
    assert Pow2(bits) == 2 * Pow2(bits - 1);
    assert Pow2(bits - 1) == 2 * Pow2(bits - 2);
    hide Pow2;
    Quarters(Pow2(bits - 2));
  }

  lemma Quarters(q: nat)
    ensures MaxCount(2 * (2 * q)) == 3 * q
  {
    var cap := 2 * (2 * q);
    assert cap == 4 * q;
    assert cap / 2 == 2 * q;
    assert cap / 4 == q;
  }

  /** The number of bits `resize` settles on for a requested number of buckets. */
  function NewBits(n: nat): nat {
    if CeilLog2(n) > 2 then CeilLog2(n) else 2
  }

  /** The least power of two that is at least four and covers the request. */
  lemma NewBitsLeast(n: nat)
    ensures Pow2(NewBits(n)) >= n && Pow2(NewBits(n)) >= 4
    ensures forall k: nat :: Pow2(k) >= n && Pow2(k) >= 4 ==> NewBits(n) <= k
  {
    CeilLog2Least(n, CeilLog2(n));
    CeilLog2Least(n, NewBits(n));
    Pow2Monotone(2, NewBits(n));
    assert Pow2(2) == 4;
    forall k: nat | Pow2(k) >= n && Pow2(k) >= 4
      ensures NewBits(n) <= k
    {
      CeilLog2Least(n, k);
      if k < 2 {
        Pow2Monotone(k, 1);
      }
    }
  }

  /** The home bucket of every key, under `bits` bits. */
  ghost function Home<K(!new)>(hashFn: K -> U32, bits: nat): (home: K -> nat)
    requires bits <= 32
    ensures forall k :: home(k) == H2B(hashFn(k), bits) < Pow2(bits)
  {
    (k: K) => H2B(hashFn(k), bits)
  }

  class Table<K(0,==,!new)> {
    const hashFn: K -> U32
    var bits: nat
    var count: nat
    var used: array?<bool>
    var keys: array?<K>

    /** The number of buckets; a table that never stored anything has none. */
    function Capacity(): nat
      reads this
    {
      if keys == null then 0 else Pow2(bits)
    }

    ghost predicate Shape()
      reads this
    {
      && (keys == null <==> used == null)
      && (keys == null ==> count == 0 && bits == 0)
      && (keys != null ==> 2 <= bits <= 31 && keys.Length == used.Length == Pow2(bits) && keys as object != used)
    }

    ghost predicate Valid()
      reads this, used, keys
    {
      && Shape()
      && (keys != null ==>
            && Distinct(used[..], keys[..])
            && Chained(Linear, Home(hashFn, bits), used[..], used[..], keys[..])
            && count == |KeySet(used[..], keys[..])| <= MaxCount(Pow2(bits)))
    }

    /** The set of keys this table stands for. */
    ghost function Contents(): (r: set<K>)
      requires Shape()
      reads this, used, keys
    {
      if keys == null then {} else KeySet(used[..], keys[..])
    }

    constructor (hashFn: K -> U32)
      ensures Valid() && Contents() == {} && this.hashFn == hashFn && keys == null
    {
      this.hashFn := hashFn;
      bits, count := 0, 0;
      used, keys := null, null;
    }

    /** The bucket holding `key`, or the capacity when the table does not hold it. */
    method Get(key: K) returns (r: nat)
      requires Valid()
      ensures key !in Contents() ==> r == Capacity()
      ensures key in Contents() ==> r < Capacity() && used[r] && keys[r] == key
    {
      if keys == null {
        return 0;
      }
      hide Distinct, Chained, KeySet, Probe, Missed, H2B, MaxCount, Pow2;
      ghost var s;
      r, s := Search(used, keys, key, H2B(hashFn(key), bits));
      if r == Pow2(bits) {
        SearchComplete(Linear, Home(hashFn, bits), used[..], used[..], keys[..], key, s);
      }
    }

    /** The probe loop of `getp_core` from bucket `h`: the bucket holding `key`, or the capacity after a free bucket or a whole round. */
    static method Search(used: array<bool>, keys: array<K>, key: K, h: nat) returns (r: nat, ghost s: nat)
      requires h < used.Length == keys.Length
      ensures r <= used.Length && (r < used.Length ==> used[r] && keys[r] == key)
      ensures r == used.Length ==>
        && s <= used.Length && Missed(Linear, h, s, used[..], keys[..], key)
        && (s == used.Length || !used[Probe(Linear, h, s, used.Length)])
    {
      hide Probe, Wrap, Missed, Taken;
      var n, i, last := used.Length, h, h;
      s := 0;
      SearchStart(Linear, last, used[..], used[..], keys[..], key);
      while used[i] && keys[i] != key
        invariant s < n && i < n && i == Probe(Linear, last, s, n)
        invariant Missed(Linear, last, s, used[..], keys[..], key) && Taken(Linear, last, s, used[..])
        decreases n - s
      {
        SearchStep(Linear, last, s, used[..], used[..], keys[..], key);
        i := Wrap(i + 1, n);
        s := s + 1;
        LinearReturn(last, n);
        if i == last {
          ProbeFirstReturn(Linear, last, s, n);
          return n, s;
        }
      }
      r := if !used[i] then n else i;
    }

    /** The first bucket on the probe path from `h` that `taken` leaves free. */
    static method ProbeFree(taken: array<bool>, h: nat, ghost room: nat) returns (i: nat)
      requires h < taken.Length && room < taken.Length
      requires !taken[Probe(Linear, h, room, taken.Length)]
      ensures i < taken.Length && !taken[i] && Reachable(Linear, h, i, taken[..])
    {
      hide Probe, Wrap, Taken, Reachable;
      i := h;
      ghost var s := 0;
      SearchStart(Linear, h, taken[..], taken[..], taken[..], true);
      while taken[i]
        invariant s <= room && i == Probe(Linear, h, s, taken.Length)
        invariant Taken(Linear, h, s, taken[..])
        decreases room - s
      {
        TakenStep(Linear, h, s, taken[..]);
        i := Wrap(i + 1, taken.Length);
        s := s + 1;
      }
      ReachedHere(Linear, h, s, taken[..]);
    }

    /**
     The kick-out process for the key in old bucket `j`: it runs until a displaced key
     finds a bucket that holds no unmoved key.
     */
    static method MoveOut(hashFn: K -> U32, src: array<bool>, dst: array<bool>, ks: array<K>, j: nat, newBits: nat,
                          ghost all: set<K>)
      requires src != dst && ks as object != src && ks as object != dst && 2 <= newBits <= 31 && dst.Length == Pow2(newBits)
      requires src.Length <= ks.Length && dst.Length <= ks.Length
      requires j < src.Length && src[j]
      requires Moving(Linear, Home(hashFn, newBits), src[..], dst[..], ks[..], {}, all)
      requires |all| <= dst.Length
      modifies src, dst, ks
      ensures Moving(Linear, Home(hashFn, newBits), src[..], dst[..], ks[..], {}, all)
      ensures !src[j] && forall i :: 0 <= i < src.Length && !old(src[i]) ==> !src[i]
    {
      hide Moving;
      ghost var home := Home(hashFn, newBits);
      var key := ks[j];
      MovingTake(Linear, home, src[..], dst[..], ks[..], all, j);
      ghost var before := src[..];
      src[j] := false;
      assert src[..] == before[j := false];
      while true
        invariant Moving(Linear, home, src[..], dst[..], ks[..], {key}, all)
        invariant !src[j] && forall i :: 0 <= i < src.Length && !old(src[i]) ==> !src[i]
        decreases |KeySet(src[..], ks[..])|
      {
        ghost var room := MovingRoom(Linear, home, src[..], dst[..], ks[..], key, all);
        var i := ProbeFree(dst, H2B(hashFn(key), newBits), room);
        ghost var s0, d0, k0 := src[..], dst[..], ks[..];
        dst[i] := true;
        assert dst[..] == d0[i := true];
        if i < src.Length && src[i] {
          MovingKick(Linear, home, s0, d0, k0, key, all, i);
          var tmp := ks[i];
          ks[i] := key;
          assert ks[..] == k0[i := key];
          key := tmp;
          src[i] := false;
          assert src[..] == s0[i := false];
        } else {
          MovingSettle(Linear, home, s0, d0, k0, key, all, i);
          ks[i] := key;
          assert ks[..] == k0[i := key];
          break;
        }
      }
    }

    /** Move every key of `src` to its place among 2^newBits buckets, growing or shrinking the key array around the loop. */
    static method Rehash(hashFn: K -> U32, src: array<bool>, keys: array<K>, newBits: nat, ghost all: set<K>)
      returns (dst: array<bool>, ks: array<K>)
      requires keys as object != src && src.Length == keys.Length && 2 <= newBits <= 31
      requires Distinct(src[..], keys[..]) && KeySet(src[..], keys[..]) == all && |all| <= Pow2(newBits)
      modifies src, keys
      ensures fresh(dst) && (ks == keys || fresh(ks)) && dst as object != ks
      ensures dst.Length == ks.Length == Pow2(newBits)
      ensures Distinct(dst[..], ks[..]) && KeySet(dst[..], ks[..]) == all
      ensures Chained(Linear, Home(hashFn, newBits), dst[..], dst[..], ks[..])
    {
      hide Moving, Distinct, Chained, KeySet;
      var n, newN := src.Length, Pow2(newBits);
      dst := new bool[newN](_ => false);
      ks := keys;
      if n < newN {
        ks := Realloc(keys, n, newN);
      }
      KeySetFrame(src[..], keys[..], ks[..]);
      MovingStart(Linear, Home(hashFn, newBits), src[..], dst[..], ks[..]);
      var j := 0;
      while j != n
        invariant j <= n
        invariant forall i :: 0 <= i < j ==> !src[i]
        invariant Moving(Linear, Home(hashFn, newBits), src[..], dst[..], ks[..], {}, all)
      {
        if src[j] {
          MoveOut(hashFn, src, dst, ks, j, newBits, all);
        }
        j := j + 1;
      }
      MovingDone(Linear, Home(hashFn, newBits), src[..], dst[..], ks[..], all);
      ghost var done := ks[..newN];
      if n > newN {
        ks := Realloc(ks, newN, newN);
      }
      assert ks[..] == done;
    }

    /**
     Rehash into the smallest admissible power of two that is at least `newBuckets`.
     A request the keys would overfill leaves the table as it is.
     */
    method Resize(newBuckets: nat)
      requires Valid()
      requires newBuckets <= Pow2(31)
      modifies this, used, keys
      ensures Valid() && Contents() == old(Contents()) && count == old(count)
      ensures old(count) <= MaxCount(Pow2(NewBits(newBuckets))) ==>
                keys != null && bits == NewBits(newBuckets) && fresh(used)
      ensures old(count) > MaxCount(Pow2(NewBits(newBuckets))) ==>
                keys == old(keys) && used == old(used) && bits == old(bits)
      ensures keys == old(keys) || fresh(keys)
    {
      hide Distinct, Chained, KeySet, Pow2, NewBits;
      var newBits := ComputeNewBits(newBuckets);
      if count > MaxCount(Pow2(newBits)) {
        return;
      }
      var src, ks := new bool[0], new K[0];
      if keys != null {
        src, ks := used, keys;
      }
      NothingStored(src[..], ks[..]);
      var newUsed, newKeys := Rehash(hashFn, src, ks, newBits, Contents());
      used, keys, bits := newUsed, newKeys, newBits;
    }

    /** Where `Put` ends its search: at `key`, or at the first free bucket on its probe path. */
    method FindSlot(key: K) returns (i: nat)
      requires Valid() && keys != null && count < MaxCount(Pow2(bits))
      ensures i < Pow2(bits)
      ensures used[i] ==> keys[i] == key
      ensures !used[i] ==> key !in Contents() && Reachable(Linear, H2B(hashFn(key), bits), i, used[..])
    {
      hide Distinct, Chained, KeySet, Probe, Wrap, Missed, Taken, MaxCount;
      var n := Pow2(bits);
      var last := H2B(hashFn(key), bits);
      i := last;
      LoadBelowCapacity(bits);
      SearchStart(Linear, last, used[..], used[..], keys[..], key);
      ghost var s := 0;
      ghost var free := FreeBucket(used[..], keys[..]);
      ghost var room := ProbeCovers(Linear, last, n, free);
      while used[i] && keys[i] != key
        invariant s <= room && i == Probe(Linear, last, s, n)
        invariant Missed(Linear, last, s, used[..], keys[..], key)
        invariant Taken(Linear, last, s, used[..])
        decreases room - s
      {
        SearchStep(Linear, last, s, used[..], used[..], keys[..], key);
        i := Wrap(i + 1, n);
        s := s + 1;
        if i == last {
          ProbeFirstReturn(Linear, last, s, n);
          assert false;
          break;
        }
      }
      if !used[i] {
        SearchComplete(Linear, Home(hashFn, bits), used[..], used[..], keys[..], key, s);
        ReachedHere(Linear, last, s, used[..]);
      }
    }

    /** The rehash `Put` starts with when the table is at its load limit: it doubles the capacity, or creates four buckets. */
    method Grow()
      requires Valid()
      requires MaxCount(Capacity()) <= count < MaxCount(Pow2(31))
      modifies this, used, keys
      ensures Valid() && keys != null && Contents() == old(Contents())
      ensures count == old(count) < MaxCount(Pow2(bits))
      ensures Capacity() == if old(Capacity()) == 0 then 4 else 2 * old(Capacity())
      ensures fresh(used) && (keys == old(keys) || fresh(keys))
    {
      hide Distinct, Chained, KeySet, NewBits, Pow2;
      GrowthBits(bits, keys != null);
      CapacityBound(bits);
      Resize(Capacity() + 1);
    }

    /** Put a new key into the free bucket its search ended at. */
    method Store(i: nat, key: K)
      requires Valid() && keys != null && count < MaxCount(Pow2(bits))
      requires i < Pow2(bits) && !used[i] && key !in Contents()
      requires Reachable(Linear, H2B(hashFn(key), bits), i, used[..])
      modifies this`count, used, keys
      ensures Valid() && Contents() == old(Contents()) + {key} && count == old(count) + 1
      ensures used[i] && keys[i] == key
    {
      hide Distinct, Chained, KeySet, MaxCount, Pow2;
      ghost var u0, k0 := used[..], keys[..];
      keys[i] := key;
      used[i] := true;
      count := count + 1;
      assert used[..] == u0[i := true] && keys[..] == k0[i := key];
      KeySetAdd(u0, k0, i, key);
      ChainedAdd(Linear, Home(hashFn, bits), u0, u0, k0, i, key);
    }

    /** The rehash of a put, if the table is at its load limit. */
    method MakeRoom()
      requires Valid()
      requires count < MaxCount(Pow2(31))
      modifies this, used, keys
      ensures Valid() && keys != null && Contents() == old(Contents()) && count == old(count) < MaxCount(Pow2(bits))
      ensures Capacity() == if 4 * old(count) < 3 * old(Capacity()) then old(Capacity())
                            else if old(Capacity()) == 0 then 4 else 2 * old(Capacity())
      ensures (used == old(used) || fresh(used)) && (keys == old(keys) || fresh(keys))
    {
      hide Distinct, Chained, Reachable, KeySet, Pow2, MaxCount;
      GrowsWhen();
      if count >= MaxCount(Capacity()) {
        Grow();
      }
    }

    /** Store `key` unless it is there already; `r` is the bucket that holds it afterwards. */
    method Put(key: K) returns (r: nat, absent: bool)
      requires Valid()
      requires count < MaxCount(Pow2(31))
      modifies this, used, keys
      ensures Valid() && Contents() == old(Contents()) + {key}
      ensures absent <==> key !in old(Contents())
      ensures count == old(count) + if absent then 1 else 0
      ensures r < Capacity() && used[r] && keys[r] == key
      ensures Capacity() == if 4 * old(count) < 3 * old(Capacity()) then old(Capacity())
                            else if old(Capacity()) == 0 then 4 else 2 * old(Capacity())
      ensures (used == old(used) || fresh(used)) && (keys == old(keys) || fresh(keys))
    {
      hide Distinct, Chained, Reachable, KeySet, Pow2, MaxCount;
      MakeRoom();
      r := FindSlot(key);
      absent := !used[r];
      if absent {
        Store(r, key);
      }
    }

    lemma GrowsWhen()
      requires Valid()
      ensures count < MaxCount(Capacity()) <==> 4 * count < 3 * Capacity()
      ensures keys != null ==> Capacity() == Pow2(bits)
    {
      if keys != null {
        ThreeQuarters(bits);
      }
    }

    /** The table is at most three quarters full. */
    lemma LoadFactor()
      requires Valid()
      ensures 4 * count <= 3 * Capacity()
    {
      if keys != null {
        ThreeQuarters(bits);
      }
    }

    /** Empty the table, keeping its capacity. */
    method Clear()
      requires Valid()
      modifies this`count, used
      ensures Valid() && Contents() == {} && count == 0
    {
      if used != null {
        for i := 0 to used.Length
          invariant forall j :: 0 <= j < i ==> !used[j]
          modifies used
        {
          used[i] := false;
        }
        count := 0;
        NothingStored(used[..], keys[..]);
        Pow2Monotone(0, bits);
      }
    }

    /** The loop of `del`: carry the hole at `at` along the run until no key needs to move into it. */
    static method CloseHole(hashFn: K -> U32, bits: nat, used: array<bool>, keys: array<K>, at: nat,
                            ghost rest: set<K>, ghost free: nat)
      returns (i: nat)
      requires 0 < bits <= 31 && used.Length == keys.Length == Pow2(bits) && keys as object != used
      requires at < used.Length && used[at] && free < used.Length && !used[free]
      requires Hollow(Home(hashFn, bits), used[..], keys[..], at, at, rest)
      modifies keys
      ensures i < used.Length && used[i]
      ensures Distinct(used[..][i := false], keys[..]) && KeySet(used[..][i := false], keys[..]) == rest
      ensures Chained(Linear, Home(hashFn, bits), used[..][i := false], used[..][i := false], keys[..])
    {
      hide Distinct, Chained, KeySet, Hollow, Pow2, Dist, Wrap, H2B;
      ghost var home := Home(hashFn, bits);
      var n := Pow2(bits);
      i := at;
      var j: nat := at;
      RingStart(at, free, n);
      while true
        invariant i < n && j < n && used[i] && used[j]
        invariant Hollow(home, used[..], keys[..], i, j, rest)
        invariant Dist(i, j, n) < Dist(i, free, n)
        decreases Dist(j, free, n)
      {
        ghost var j0 := j;
        RingAdvance(i, j, free, n);
        j := Wrap(j + 1, n);
        if j == i || !used[j] {
          HollowEnd(home, used[..], keys[..], i, j0, rest);
          break;
        }
        var k := H2B(hashFn(keys[j]), bits);
        CyclicTest(i, j, k, n);
        if (j > i && (k <= i || k > j)) || (j < i && (k <= i && k > j)) {
          HollowShift(home, used[..], keys[..], i, j0, j, rest);
          ghost var k0 := keys[..];
          keys[i] := keys[j];
          assert keys[..] == k0[i := keys[j]];
          i := j;
        } else {
          HollowKeep(home, used[..], keys[..], i, j0, j, rest);
        }
      }
    }

    /** Clear the used bit of the final hole. */
    method Vacate(i: nat, ghost rest: set<K>)
      requires Shape() && keys != null && i < Pow2(bits)
      requires count == |rest| + 1 <= MaxCount(Pow2(bits))
      requires Distinct(used[..][i := false], keys[..]) && KeySet(used[..][i := false], keys[..]) == rest
      requires Chained(Linear, Home(hashFn, bits), used[..][i := false], used[..][i := false], keys[..])
      modifies this`count, used
      ensures Valid() && Contents() == rest && count == |rest|
    {
      hide Distinct, Chained, KeySet, Pow2, MaxCount, Home;
      ghost var u0 := used[..];
      used[i] := false;
      assert used[..] == u0[i := false];
      count := count - 1;
    }

    /**
     Delete the key in bucket `at` by shifting later keys of the run back over the hole.
     The result is false only for a table that never stored anything.
     */
    method Del(at: nat) returns (done: bool)
      requires Valid()
      requires keys != null ==> at < Capacity() && used[at]
      modifies this`count, used, keys
      ensures Valid() && done == (keys != null)
      ensures done ==> Contents() == old(Contents()) - {old(keys[at])} && count == old(count) - 1
    {
      if keys == null {
        return false;
      }
      hide Distinct, Chained, KeySet, Hollow, Pow2, MaxCount, Home;
      ghost var rest := Contents() - {keys[at]};
      ghost var free := HollowStart(Home(hashFn, bits), used[..], keys[..], at, bits);
      var i := CloseHole(hashFn, bits, used, keys, at, rest, free);
      Vacate(i, rest);
      return true;
    }
  }

  /** The test in `del` holds exactly when the hole `i` lies on the probe path from `k` to `j`. */
  lemma CyclicTest(i: nat, j: nat, k: nat, n: nat)
    requires i < n && j < n && k < n && i != j
    ensures (j > i && (k <= i || k > j)) || (j < i && (k <= i && k > j)) <==> Dist(k, i, n) < Dist(k, j, n)
  {
  }

  /**
   A table with a hole at `i` while the run after it is scanned up to `j`: with the hole
   counted as taken every key is reachable, and no key scanned since the hole has the
   hole on its probe path.
   */
  ghost predicate Hollow<K>(home: K -> nat, used: seq<bool>, keys: seq<K>, i: nat, j: nat, rest: set<K>)
    requires i < |used| <= |keys| && j < |used|
  {
    && used[i]
    && Distinct(used[i := false], keys) && KeySet(used[i := false], keys) == rest
    && Runs(home, used[i := false], used, keys)
    && (forall m :: 0 <= m < |used| && 0 < Dist(i, m, |used|) <= Dist(i, j, |used|) ==>
          used[m] && home(keys[m]) < |used| && Dist(home(keys[m]), i, |used|) > Dist(home(keys[m]), m, |used|))
  }

  /** Scanning on from `j` towards a free bucket `f` comes closer to it and does not reach the hole first. */
  lemma RingAdvance(i: nat, j: nat, f: nat, n: nat)
    requires i < n && j < n && f < n && Dist(i, j, n) < Dist(i, f, n)
    ensures Wrap(j + 1, n) != i
    ensures Dist(Wrap(j + 1, n), f, n) < Dist(j, f, n)
    ensures Wrap(j + 1, n) != f ==> Dist(i, Wrap(j + 1, n), n) < Dist(i, f, n)
    ensures Wrap(j + 1, n) != f ==> Dist(Wrap(j + 1, n), Wrap(j + 1, n), n) < Dist(Wrap(j + 1, n), f, n)
  {
  }

  lemma HollowStart<K>(home: K -> nat, used: seq<bool>, keys: seq<K>, at: nat, bits: nat) returns (free: nat)
    requires 0 < |used| == Pow2(bits) <= |keys| && at < |used| && used[at]
    requires |KeySet(used, keys)| <= MaxCount(Pow2(bits))
    requires Distinct(used, keys) && Chained(Linear, home, used, used, keys)
    ensures Hollow(home, used, keys, at, at, KeySet(used, keys) - {keys[at]})
    ensures |KeySet(used, keys) - {keys[at]}| == |KeySet(used, keys)| - 1
    ensures free < |used| && !used[free]
  {
    hide Distinct, Chained, KeySet;
    ChainedLinear(home, used, used, keys);
    KeySetRemove(used, keys, at);
    LoadBelowCapacity(bits);
    free := FreeBucket(used, keys);
  }

  /** The scan passes a key whose probe path avoids the hole. */
  lemma HollowKeep<K>(home: K -> nat, used: seq<bool>, keys: seq<K>, i: nat, j: nat, m: nat, rest: set<K>)
    requires 0 < |used| <= |keys| && i < |used| && j < |used|
    requires Hollow(home, used, keys, i, j, rest)
    requires m == Wrap(j + 1, |used|) && m != i && used[m] && home(keys[m]) < |used|
    requires Dist(home(keys[m]), i, |used|) >= Dist(home(keys[m]), m, |used|)
    ensures Hollow(home, used, keys, i, m, rest)
  {
    hide Distinct, KeySet, Runs;
    var n := |used|;
    assert Dist(i, m, n) == Dist(i, j, n) + 1;
    forall b | 0 <= b < n && 0 < Dist(i, b, n) <= Dist(i, m, n)
      ensures used[b] && home(keys[b]) < n && Dist(home(keys[b]), i, n) > Dist(home(keys[b]), b, n)
    {
      if Dist(i, b, n) == Dist(i, m, n) {
        assert b == m;
      }
    }
  }

  /** The scan meets a key whose probe path crosses the hole: the key moves into the hole and leaves a new one. */
  lemma HollowShift<K>(home: K -> nat, used: seq<bool>, keys: seq<K>, i: nat, j: nat, m: nat, rest: set<K>)
    requires 0 < |used| <= |keys| && i < |used| && j < |used|
    requires Hollow(home, used, keys, i, j, rest)
    requires m == Wrap(j + 1, |used|) && m != i && used[m] && home(keys[m]) < |used|
    requires Dist(home(keys[m]), i, |used|) < Dist(home(keys[m]), m, |used|)
    ensures Hollow(home, used, keys[i := keys[m]], m, m, rest)
  {
    hide Distinct, KeySet;
    var n := |used|;
    var u, ks := used[i := false], keys[i := keys[m]];
    KeySetRemove(u, keys, m);
    KeySetAdd(u[m := false], keys, i, keys[m]);
    assert u[m := false][i := true] == used[m := false];
    assert rest - {keys[m]} + {keys[m]} == rest;
    forall b | 0 <= b < n && used[m := false][b]
      ensures home(ks[b]) < n && Unbroken(home(ks[b]), b, used)
    {
      if b == i {
        assert Unbroken(home(keys[m]), m, used);
      } else {
        assert u[b];
      }
    }
  }

  /** A walk from `h` to `m` over the hole `i`, with `m` beyond the scanned part, meets the bucket the scan stopped at. */
  lemma PassingTheHole(h: nat, i: nat, j: nat, m: nat, n: nat)
    requires h < n && i < n && j < n && m < n
    ensures Dist(h, i, n) < Dist(h, m, n) && Dist(i, m, n) > Dist(i, j, n) ==>
              Dist(h, Wrap(j + 1, n), n) < Dist(h, m, n) || m == Wrap(j + 1, n)
  {
  }

  /** The scan ends at a free bucket: no probe path crosses the hole any more. */
  lemma HollowEnd<K>(home: K -> nat, used: seq<bool>, keys: seq<K>, i: nat, j: nat, rest: set<K>)
    requires 0 < |used| <= |keys| && i < |used| && j < |used|
    requires Hollow(home, used, keys, i, j, rest)
    requires !used[Wrap(j + 1, |used|)]
    ensures Distinct(used[i := false], keys) && KeySet(used[i := false], keys) == rest
    ensures Chained(Linear, home, used[i := false], used[i := false], keys)
  {
    hide Distinct, KeySet, Chained;
    var n := |used|;
    var e := Wrap(j + 1, n);
    var u := used[i := false];
    forall m | 0 <= m < n && u[m]
      ensures Unbroken(home(keys[m]), m, u)
    {
      var h := home(keys[m]);
      assert Unbroken(h, m, used);
      PassingTheHole(h, i, j, m, n);
      assert Dist(h, i, n) > Dist(h, m, n);
    }
    ChainedLinear(home, u, u, keys);
  }

  lemma RingStart(i: nat, f: nat, n: nat)
    requires i < n && f < n && i != f
    ensures Dist(i, i, n) < Dist(i, f, n)
  {
  }

  lemma LoadBelowCapacity(b: nat)
    ensures MaxCount(Pow2(b)) < Pow2(b)
  {
  }

  lemma CapacityBound(b: nat)
    requires b <= 31
    ensures MaxCount(Pow2(b)) < MaxCount(Pow2(31)) ==> Pow2(b) + 1 <= Pow2(31)
    ensures b >= 2 ==> MaxCount(Pow2(b)) < MaxCount(Pow2(b + 1))
    ensures Pow2(2) == 4 && Pow2(b + 1) == 2 * Pow2(b)
  {
    Pow2Monotone(b, 31);
    Pow2Monotone(2, if b >= 2 then b else 2);
    if b < 31 {
      Pow2Monotone(b + 1, 31);
    }
  }

  /** Asking for one bucket more than there are doubles the table. */
  lemma GrowthBits(b: nat, had: bool)
    requires had ==> b >= 2
    ensures NewBits(if had then Pow2(b) + 1 else 1) == if had then b + 1 else 2
  {
    if had {
      CeilLog2Least(Pow2(b) + 1, b);
      CeilLog2Least(Pow2(b) + 1, b + 1);
    }
  }

  function FloorLog2(n: nat): nat {
    if n < 2 then 0 else 1 + FloorLog2(n / 2)
  }

  lemma {:induction false} FloorLog2Bounds(n: nat)
    requires n > 0
    ensures Pow2(FloorLog2(n)) <= n < Pow2(FloorLog2(n) + 1)
  {
    if n >= 2 {
      FloorLog2Bounds(n / 2);
    }
  }

  /** The exponent `resize` computes: halve until nothing is left, one more unless `n` is a power of two, at least 2. */
  method ComputeNewBits(n: nat) returns (bits: nat)
    requires n <= Pow2(31)
    ensures bits == NewBits(n) && 2 <= bits <= 31
  {
    var j: nat, x: nat := 0, n / 2;
    while x != 0
      invariant FloorLog2(n) == if x == 0 then j else j + 1 + FloorLog2(x)
    {
      x := x / 2;
      j := j + 1;
    }
    CeilFromFloor(n);
    if n != 0 && n != Pow2(j) {
      j := j + 1;
    }
    CeilLog2Least(n, 31);
    bits := if j > 2 then j else 2;
  }

  lemma CeilFromFloor(n: nat)
    ensures CeilLog2(n) == if n == 0 || n == Pow2(FloorLog2(n)) then FloorLog2(n) else FloorLog2(n) + 1
  {
    if n > 0 {
      FloorLog2Bounds(n);
      CeilLog2Least(n, FloorLog2(n));
      CeilLog2Least(n, FloorLog2(n) + 1);
      if n == Pow2(FloorLog2(n)) && FloorLog2(n) > 0 {
        CeilLog2Least(n, FloorLog2(n) - 1);
      }
    }
  }

  lemma LinearReturn(h: nat, n: nat)
    requires h < n
    ensures Probe(Linear, h, n, n) == h
  {
    ProbeClosedForm(Linear, h, n, n);
    WrapMod(h + n, n);
  }
}
