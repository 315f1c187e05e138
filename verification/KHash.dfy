/** ext/klib/khash.h: triangular probing with tombstones, and the same in-place rehash with values carried along. */
module KHash {
  import opened Powers
  import opened Probing

  /** The two flag bits of a bucket: 0, 1 and 2. */
  datatype Flag = Live | Deleted | Empty

  ghost function LiveBits(flags: seq<Flag>): (r: seq<bool>)
    ensures |r| == |flags| && forall i :: 0 <= i < |r| ==> (r[i] <==> flags[i].Live?)
  {
    seq(|flags|, (i: int) requires 0 <= i < |flags| => flags[i].Live?)
  }

  ghost function TakenBits(flags: seq<Flag>): (r: seq<bool>)
    ensures |r| == |flags| && forall i :: 0 <= i < |r| ==> (r[i] <==> !flags[i].Empty?)
  {
    seq(|flags|, (i: int) requires 0 <= i < |flags| => !flags[i].Empty?)
  }

  lemma BitsUpdate(flags: seq<Flag>, i: nat, f: Flag)
    requires i < |flags|
    ensures LiveBits(flags[i := f]) == LiveBits(flags)[i := f.Live?]
    ensures TakenBits(flags[i := f]) == TakenBits(flags)[i := !f.Empty?]
  {
  }

  /** `hash & (n - 1)` for a power of two n. */
  function Masked(hash: nat, n: nat): (i: nat)
    requires n > 0
    ensures i < n
  {
    hash % n
  }

  /** The home bucket is the hash without its higher bits. */
  lemma MaskedLowBits(hash: nat, k: nat)
    ensures Masked(hash, Pow2(k)) == LowBits(hash, k)
  {
    var low, high := LowBits(hash, k), ShiftRight(hash, k);
    HighAndLow(hash, k);
    ModEqual(hash, low, Pow2(k));
    MultipleMod(high, Pow2(k));
    SmallResidue(low, Pow2(k));
  }

  ghost function Home<K(!new)>(hashFn: K -> nat, n: nat): (home: K -> nat)
    requires n > 0
    ensures forall k :: home(k) == Masked(hashFn(k), n)
  {
    (k: K) => Masked(hashFn(k), n)
  }

  /** 0.77 of the capacity, rounded to the nearest integer; exact for powers of two. */
  function Upper(n: nat): nat {
    (77 * n + 50) / 100
  }

  lemma UpperRounds(n: nat)
    ensures 77 * n - 50 < 100 * Upper(n) <= 77 * n + 50
  {
  }

  /** The capacity `resize` settles on: round up to a power of two, at least four. */
  function Capacity(n: nat): nat {
    if CeilLog2(n) >= 2 then Pow2(CeilLog2(n)) else 4
  }

  lemma CapacityIsPow2(n: nat)
    ensures IsPow2(Capacity(n)) && Capacity(n) >= 4 && Capacity(n) >= n
    ensures forall k: nat :: Pow2(k) >= n && Pow2(k) >= 4 ==> Capacity(n) <= Pow2(k)
    ensures n <= Pow2(31) ==> Capacity(n) <= Pow2(31)
  {
    forall k: nat | Pow2(k) >= n && Pow2(k) >= 4
      ensures Capacity(n) <= Pow2(k)
    {
      CeilLog2Least(n, k);
      Pow2Monotone(CeilLog2(n), k);
    }
    CeilLog2Least(n, CeilLog2(n));
    Pow2Monotone(2, 31);
    assert Pow2(2) == 4;
    if CeilLog2(n) >= 2 {
      Pow2Monotone(2, CeilLog2(n));
    }
    CeilLog2Least(n, 31);
    if CeilLog2(n) <= 31 {
      Pow2Monotone(CeilLog2(n), 31);
    }
  }

  /** The stored values are those of the map `m`. */
  ghost predicate Agrees<K, V>(used: seq<bool>, keys: seq<K>, vals: seq<V>, m: map<K, V>) {
    && |used| <= |keys| && |used| <= |vals|
    && forall i :: 0 <= i < |used| && used[i] ==> keys[i] in m && m[keys[i]] == vals[i]
  }

  lemma AgreesAt<K, V>(used: seq<bool>, keys: seq<K>, vals: seq<V>, m: map<K, V>, i: nat)
    requires Agrees(used, keys, vals, m) && i < |used| && used[i]
    ensures |used| <= |keys| && |used| <= |vals| && keys[i] in m && m[keys[i]] == vals[i]
  {
  }

  /** What the arrays of a table say, without its counters. */
  ghost predicate Stores<K(!new), V>(hashFn: K -> nat, flags: seq<Flag>, keys: seq<K>, vals: seq<V>, m: map<K, V>) {
    && 0 < |flags| == |keys| == |vals|
    && Distinct(LiveBits(flags), keys)
    && Chained(Triangular, Home(hashFn, |flags|), LiveBits(flags), TakenBits(flags), keys)
    && KeySet(LiveBits(flags), keys) == m.Keys
    && Agrees(LiveBits(flags), keys, vals, m)
  }

  /** `Moving` for flag arrays, with the values of unmoved, moved and pending keys all as in `m`. */
  ghost predicate Migrating<K(!new), V>(hashFn: K -> nat, src: seq<Flag>, dst: seq<Flag>, keys: seq<K>, vals: seq<V>,
                                        pending: set<K>, m: map<K, V>) {
    && 0 < |dst| && (forall i :: 0 <= i < |dst| ==> !dst[i].Deleted?)
    && Moving(Triangular, Home(hashFn, |dst|), LiveBits(src), LiveBits(dst), keys, pending, m.Keys)
    && Agrees(LiveBits(src), keys, vals, m) && Agrees(LiveBits(dst), keys, vals, m)
  }

  lemma MigrateTake<K(!new), V>(hashFn: K -> nat, src: seq<Flag>, dst: seq<Flag>, keys: seq<K>, vals: seq<V>, m: map<K, V>, j: nat)
    requires Migrating(hashFn, src, dst, keys, vals, {}, m) && |src| <= |keys| == |vals|
    requires j < |src| && src[j].Live?
    ensures Migrating(hashFn, src[j := Deleted], dst, keys, vals, {keys[j]}, m)
    ensures keys[j] in m && m[keys[j]] == vals[j]
  {
    hide Moving;
    MovingTake(Triangular, Home(hashFn, |dst|), LiveBits(src), LiveBits(dst), keys, m.Keys, j);
    BitsUpdate(src, j, Deleted);
  }

  lemma MigrateRoom<K(!new), V>(hashFn: K -> nat, src: seq<Flag>, dst: seq<Flag>, keys: seq<K>, vals: seq<V>, k: K, m: map<K, V>)
    returns (s: nat)
    requires Migrating(hashFn, src, dst, keys, vals, {k}, m) && IsPow2(|dst|) && |m| <= |dst|
    ensures s < |dst| && !TakenBits(dst)[Probe(Triangular, Masked(hashFn(k), |dst|), s, |dst|)]
  {
    assert m.Keys == set x | x in m;
    s := MovingRoom(Triangular, Home(hashFn, |dst|), LiveBits(src), LiveBits(dst), keys, k, m.Keys);
  }

  lemma SameBits(dst: seq<Flag>)
    requires forall i :: 0 <= i < |dst| ==> !dst[i].Deleted?
    ensures LiveBits(dst) == TakenBits(dst)
  {
  }

  lemma MigrateSettle<K(!new), V>(hashFn: K -> nat, src: seq<Flag>, dst: seq<Flag>, keys: seq<K>, vals: seq<V>, k: K, m: map<K, V>, i: nat)
    requires Migrating(hashFn, src, dst, keys, vals, {k}, m) && |src| <= |keys| == |vals| && |dst| <= |keys| && k in m
    requires i < |dst| && dst[i].Empty? && Reachable(Triangular, Masked(hashFn(k), |dst|), i, TakenBits(dst))
    requires i < |src| ==> !src[i].Live?
    ensures Migrating(hashFn, src, dst[i := Live], keys[i := k], vals[i := m[k]], {}, m)
  {
    hide Moving, Reachable;
    SameBits(dst);
    MovingSettle(Triangular, Home(hashFn, |dst|), LiveBits(src), LiveBits(dst), keys, k, m.Keys, i);
    BitsUpdate(dst, i, Live);
  }

  lemma MigrateKick<K(!new), V>(hashFn: K -> nat, src: seq<Flag>, dst: seq<Flag>, keys: seq<K>, vals: seq<V>, k: K, m: map<K, V>, i: nat)
    requires Migrating(hashFn, src, dst, keys, vals, {k}, m) && |src| <= |keys| == |vals| && |dst| <= |keys| && k in m
    requires i < |dst| && dst[i].Empty? && Reachable(Triangular, Masked(hashFn(k), |dst|), i, TakenBits(dst))
    requires i < |src| && src[i].Live?
    ensures Migrating(hashFn, src[i := Deleted], dst[i := Live], keys[i := k], vals[i := m[k]], {keys[i]}, m)
    ensures CountTrue(LiveBits(src[i := Deleted])) < CountTrue(LiveBits(src))
    ensures keys[i] in m && m[keys[i]] == vals[i]
  {
    hide Moving, Reachable;
    SameBits(dst);
    MovingKick(Triangular, Home(hashFn, |dst|), LiveBits(src), LiveBits(dst), keys, k, m.Keys, i);
    BitsUpdate(dst, i, Live);
    BitsUpdate(src, i, Deleted);
    CountTrueUpdate(LiveBits(src), i, false);
  }

  lemma MigrateStart<K(!new), V>(hashFn: K -> nat, src: seq<Flag>, dst: seq<Flag>, keys: seq<K>, vals: seq<V>,
                                 ks: seq<K>, vs: seq<V>, m: map<K, V>)
    requires 0 < |dst| <= |ks| && |src| <= |ks| && |src| <= |keys| && |src| <= |vs| && |src| <= |vals| && |dst| <= |vs|
    requires forall i :: 0 <= i < |src| ==> ks[i] == keys[i] && vs[i] == vals[i]
    requires forall i :: 0 <= i < |dst| ==> dst[i].Empty?
    requires Distinct(LiveBits(src), keys) && KeySet(LiveBits(src), keys) == m.Keys && Agrees(LiveBits(src), keys, vals, m)
    ensures Migrating(hashFn, src, dst, ks, vs, {}, m)
  {
    hide Distinct, Moving, Chained;
    KeySetFrame(LiveBits(src), keys, ks);
    MovingStart(Triangular, Home(hashFn, |dst|), LiveBits(src), LiveBits(dst), ks);
  }

  lemma MigrateDone<K(!new), V>(hashFn: K -> nat, src: seq<Flag>, dst: seq<Flag>, keys: seq<K>, vals: seq<V>, m: map<K, V>)
    requires Migrating(hashFn, src, dst, keys, vals, {}, m) && |dst| <= |keys| == |vals|
    requires forall i :: 0 <= i < |src| ==> !src[i].Live?
    ensures Stores(hashFn, dst, keys[..|dst|], vals[..|dst|], m)
    ensures forall i :: 0 <= i < |dst| ==> !dst[i].Deleted?
  {
    hide Distinct, Moving, Chained, KeySet;
    MovingDone(Triangular, Home(hashFn, |dst|), LiveBits(src), LiveBits(dst), keys, m.Keys);
    SameBits(dst);
  }

  /** The arrays of a table are different objects. */
  ghost predicate Apart<K, V>(flags: array<Flag>, keys: array<K>, vals: array<V>) {
    keys as object != flags && vals as object != flags && keys as object != vals
  }

  /** Among the first `s` buckets probed from `h` there is a tombstone. */
  ghost predicate Tombstone(flags: seq<Flag>, h: nat, s: nat)
    requires h < |flags| && s <= |flags|
  {
    exists r: nat :: r < s && flags[Probe(Triangular, h, r, |flags|)].Deleted?
  }

  /** Bucket `x` is the last tombstone among the first `s` buckets probed from `h`. */
  ghost predicate LastTombstone(flags: seq<Flag>, h: nat, s: nat, x: nat)
    requires h < |flags| && s <= |flags|
  {
    exists r: nat :: r < s && x == Probe(Triangular, h, r, |flags|) && flags[x].Deleted?
      && forall q: nat :: r < q < s ==> !flags[Probe(Triangular, h, q, |flags|)].Deleted?
  }

  /**
   Where an absent key goes: the first empty bucket on its probe path is `s` steps from `h`, and
   `x` is the last tombstone before it, or that bucket if there is none.
   */
  ghost predicate Chosen(flags: seq<Flag>, h: nat, s: nat, x: nat)
    requires h < |flags|
  {
    && s < |flags| && x < |flags|
    && flags[Probe(Triangular, h, s, |flags|)].Empty? && Taken(Triangular, h, s, TakenBits(flags))
    && if Tombstone(flags, h, s) then LastTombstone(flags, h, s, x) else x == Probe(Triangular, h, s, |flags|)
  }

  lemma NoTombstone(flags: seq<Flag>, h: nat)
    requires h < |flags|
    ensures !Tombstone(flags, h, 0)
  {
  }

  /** One more bucket on the way. */
  lemma TombstoneStep(flags: seq<Flag>, h: nat, s: nat, site: nat)
    requires h < |flags| && s < |flags| && (Tombstone(flags, h, s) ==> LastTombstone(flags, h, s, site))
    ensures var i := Probe(Triangular, h, s, |flags|);
      if flags[i].Deleted? then Tombstone(flags, h, s + 1) && LastTombstone(flags, h, s + 1, i)
      else (Tombstone(flags, h, s + 1) <==> Tombstone(flags, h, s))
           && (Tombstone(flags, h, s) ==> LastTombstone(flags, h, s + 1, site))
  {
  }

  class Table<K(0,==,!new), V(0)> {
    const hashFn: K -> nat
    var nBuckets: nat
    var size: nat
    var nOccupied: nat
    var upperBound: nat
    var flags: array?<Flag>
    var keys: array?<K>
    var vals: array?<V>
    /** The map this table stands for. */
    ghost var model: map<K, V>

    ghost predicate Shape()
      reads this
    {
      if nBuckets == 0 then
        flags == null && keys == null && vals == null && size == nOccupied == upperBound == 0
      else
        && flags != null && keys != null && vals != null
        && keys as object != flags && vals as object != flags && keys as object != vals
        && IsPow2(nBuckets) && 4 <= nBuckets <= Pow2(31)
        && flags.Length == keys.Length == vals.Length == nBuckets
        && upperBound == Upper(nBuckets)
        && size <= nOccupied <= upperBound
    }

    ghost predicate Valid()
      reads this, flags, keys, vals
    {
      && Shape()
      && size == |model|
      && (nBuckets > 0 ==> Stores(hashFn, flags[..], keys[..], vals[..], model) && nOccupied == CountTrue(TakenBits(flags[..])))
    }

    constructor (hashFn: K -> nat)
      ensures Valid() && model == map[] && this.hashFn == hashFn && nBuckets == 0
    {
      this.hashFn := hashFn;
      nBuckets, size, nOccupied, upperBound := 0, 0, 0, 0;
      flags, keys, vals := null, null, null;
      model := map[];
    }

    /** The probe loop of `kh_get`: it stops at an empty bucket or at `key`. */
    static method Search(flags: array<Flag>, keys: array<K>, key: K, h: nat, ghost room: nat)
      returns (i: nat, ghost s: nat)
      requires h < flags.Length == keys.Length && room < flags.Length && IsPow2(flags.Length)
      requires flags[Probe(Triangular, h, room, flags.Length)].Empty?
      ensures s < flags.Length && i == Probe(Triangular, h, s, flags.Length)
      ensures Missed(Triangular, h, s, LiveBits(flags[..]), keys[..], key)
      ensures flags[i].Empty? || (flags[i].Live? && keys[i] == key)
    {
      hide Probe, Wrap, Missed, Taken, IsPow2;
      ghost var live, taken := LiveBits(flags[..]), TakenBits(flags[..]);
      SearchStart(Triangular, h, live, taken, keys[..], key);
      i, s := h, 0;
      var last, step := i, 0;
      while !flags[i].Empty? && (flags[i].Deleted? || keys[i] != key)
        invariant s == step <= room && i == Probe(Triangular, h, step, flags.Length)
        invariant Missed(Triangular, h, step, live, keys[..], key) && Taken(Triangular, h, step, taken)
        decreases room - step
      {
        SearchStep(Triangular, h, step, live, taken, keys[..], key);
        step := step + 1;
        s := step;
        i := Wrap(i + step, flags.Length);
        if i == last {
          ProbeFirstReturn(Triangular, h, step, flags.Length);
          assert false;
          break;
        }
      }
    }

    /** The bucket holding `key`, or the capacity when the table does not hold it. */
    method Get(key: K) returns (r: nat)
      requires Valid()
      ensures key !in model ==> r == nBuckets
      ensures key in model ==> r < nBuckets && flags[r].Live? && keys[r] == key && vals[r] == model[key]
    {
      if nBuckets == 0 {
        return 0;
      }
      hide Distinct, Chained, KeySet, Home, Probe, Missed, LiveBits, TakenBits, Agrees, Masked, IsPow2, Upper;
      var h := Masked(hashFn(key), nBuckets);
      ghost var room := Room(hashFn, flags[..], key, nOccupied);
      ghost var s;
      r, s := Search(flags, keys, key, h, room);
      if flags[r].Live? {
        AgreesAt(LiveBits(flags[..]), keys[..], vals[..], model, r);
      } else {
        SearchComplete(Triangular, Home(hashFn, nBuckets), LiveBits(flags[..]), TakenBits(flags[..]), keys[..], key, s);
        r := nBuckets;
      }
    }

    /** The first bucket on the probe path from `h` that the new table leaves empty. */
    static method ProbeEmpty(flags: array<Flag>, h: nat, ghost room: nat) returns (i: nat)
      requires h < flags.Length && room < flags.Length
      requires !TakenBits(flags[..])[Probe(Triangular, h, room, flags.Length)]
      ensures i < flags.Length && flags[i].Empty? && Reachable(Triangular, h, i, TakenBits(flags[..]))
    {
      hide Probe, Wrap, Taken, Reachable;
      ghost var taken := TakenBits(flags[..]);
      i := h;
      var step := 0;
      SearchStart(Triangular, h, taken, taken, taken, true);
      while !flags[i].Empty?
        invariant step <= room && i == Probe(Triangular, h, step, flags.Length)
        invariant Taken(Triangular, h, step, taken)
        decreases room - step
      {
        TakenStep(Triangular, h, step, taken);
        step := step + 1;
        i := Wrap(i + step, flags.Length);
      }
      ReachedHere(Triangular, h, step, taken);
    }

    /** The kick-out process for live bucket `j` of the old flags; values travel with their keys. */
    static method MoveOut(hashFn: K -> nat, src: array<Flag>, dst: array<Flag>, ks: array<K>, vs: array<V>, j: nat, ghost m: map<K, V>)
      requires src != dst && Apart(src, ks, vs) && Apart(dst, ks, vs)
      requires IsPow2(dst.Length) && src.Length <= ks.Length == vs.Length && dst.Length <= ks.Length
      requires j < src.Length && src[j].Live? && |m| <= dst.Length
      requires Migrating(hashFn, src[..], dst[..], ks[..], vs[..], {}, m)
      modifies src, dst, ks, vs
      ensures Migrating(hashFn, src[..], dst[..], ks[..], vs[..], {}, m)
      ensures !src[j].Live? && forall i :: 0 <= i < src.Length && !old(src[i]).Live? ==> !src[i].Live?
    {
      hide Migrating;
      var key, val := ks[j], vs[j];
      MigrateTake(hashFn, src[..], dst[..], ks[..], vs[..], m, j);
      ghost var before := src[..];
      src[j] := Deleted;
      assert src[..] == before[j := Deleted];
      while true
        invariant Migrating(hashFn, src[..], dst[..], ks[..], vs[..], {key}, m) && key in m && m[key] == val
        invariant !src[j].Live? && forall i :: 0 <= i < src.Length && !old(src[i]).Live? ==> !src[i].Live?
        decreases CountTrue(LiveBits(src[..]))
      {
        ghost var room := MigrateRoom(hashFn, src[..], dst[..], ks[..], vs[..], key, m);
        var i := ProbeEmpty(dst, Masked(hashFn(key), dst.Length), room);
        ghost var s0, d0, k0, v0 := src[..], dst[..], ks[..], vs[..];
        dst[i] := Live;
        assert dst[..] == d0[i := Live];
        if i < src.Length && src[i].Live? {
          MigrateKick(hashFn, s0, d0, k0, v0, key, m, i);
          var tmpKey, tmpVal := ks[i], vs[i];
          ks[i], vs[i] := key, val;
          assert ks[..] == k0[i := key] && vs[..] == v0[i := val];
          key, val := tmpKey, tmpVal;
          src[i] := Deleted;
          assert src[..] == s0[i := Deleted];
        } else {
          MigrateSettle(hashFn, s0, d0, k0, v0, key, m, i);
          ks[i], vs[i] := key, val;
          assert ks[..] == k0[i := key] && vs[..] == v0[i := val];
          break;
        }
      }
    }

    /** Move every live entry of `src` to its place among `newN` buckets, growing or shrinking the arrays around the loop. */
    static method Rehash(hashFn: K -> nat, src: array<Flag>, keys: array<K>, vals: array<V>, newN: nat, ghost m: map<K, V>)
      returns (dst: array<Flag>, ks: array<K>, vs: array<V>)
      requires Apart(src, keys, vals) && src.Length == keys.Length == vals.Length
      requires IsPow2(newN) && |m| <= newN && 0 < newN
      requires Distinct(LiveBits(src[..]), keys[..]) && KeySet(LiveBits(src[..]), keys[..]) == m.Keys
      requires Agrees(LiveBits(src[..]), keys[..], vals[..], m)
      modifies src, keys, vals
      ensures fresh(dst) && (ks == keys || fresh(ks)) && (vs == vals || fresh(vs)) && Apart(dst, ks, vs)
      ensures dst.Length == ks.Length == vs.Length == newN
      ensures Stores(hashFn, dst[..], ks[..], vs[..], m)
      ensures forall i :: 0 <= i < newN ==> !dst[i].Deleted?
    {
      hide Migrating, Stores, Distinct, KeySet, Agrees, IsPow2, LiveBits;
      var n := src.Length;
      dst := new Flag[newN](_ => Empty);
      ks, vs := keys, vals;
      if n < newN {
        ks := Realloc(keys, n, newN);
        vs := Realloc(vals, n, newN);
      }
      MigrateStart(hashFn, src[..], dst[..], keys[..], vals[..], ks[..], vs[..], m);
      var j := 0;
      while j != n
        invariant j <= n
        invariant forall i :: 0 <= i < j ==> !src[i].Live?
        invariant Migrating(hashFn, src[..], dst[..], ks[..], vs[..], {}, m)
      {
        if src[j].Live? {
          MoveOut(hashFn, src, dst, ks, vs, j, m);
        }
        j := j + 1;
      }
      MigrateDone(hashFn, src[..], dst[..], ks[..], vs[..], m);
      ghost var k1, v1 := ks[..newN], vs[..newN];
      if n > newN {
        ks := Realloc(ks, newN, newN);
        vs := Realloc(vs, newN, newN);
      }
      assert ks[..] == k1 && vs[..] == v1;
    }

    /** The arrays to move entries out of: none for a table without buckets. */
    method OldArrays() returns (src: array<Flag>, ks: array<K>, vs: array<V>)
      requires Valid()
      ensures if nBuckets > 0 then src == flags && ks == keys && vs == vals else fresh(src) && fresh(ks) && fresh(vs)
      ensures Apart(src, ks, vs) && src.Length == ks.Length == vs.Length
      ensures Distinct(LiveBits(src[..]), ks[..]) && KeySet(LiveBits(src[..]), ks[..]) == model.Keys
      ensures Agrees(LiveBits(src[..]), ks[..], vs[..], model)
    {
      hide Distinct, KeySet, Agrees, Stores, CountTrue, IsPow2, LiveBits, TakenBits, Upper, Pow2;
      if nBuckets > 0 {
        src, ks, vs := flags, keys, vals;
      } else {
        src, ks, vs := new Flag[0], new K[0], new V[0];
      }
      NoEntries(hashFn, src[..], ks[..], vs[..], model);
    }

    /** Make freshly rehashed arrays the arrays of this table. */
    method Install(dst: array<Flag>, ks: array<K>, vs: array<V>)
      requires Apart(dst, ks, vs) && dst.Length == ks.Length == vs.Length
      requires IsPow2(dst.Length) && 4 <= dst.Length <= Pow2(31)
      requires size == |model| < Upper(dst.Length)
      requires Stores(hashFn, dst[..], ks[..], vs[..], model)
      requires forall i :: 0 <= i < dst.Length ==> !dst[i].Deleted?
      modifies this
      ensures Valid() && model == old(model) && size == old(size)
      ensures flags == dst && keys == ks && vals == vs && nBuckets == dst.Length && nOccupied == size
    {
      hide Stores, CountTrue, IsPow2, TakenBits, Pow2, Upper;
      LiveCount(hashFn, dst[..], ks[..], vs[..], model);
      flags, keys, vals := dst, ks, vs;
      nBuckets := dst.Length;
      nOccupied := size;
      upperBound := Upper(dst.Length);
    }

    /**
     Rehash to the capacity nearest above the request; a request the entries would overfill
     leaves the table as it is. Rehashing to the present capacity clears the tombstones.
     */
    method Resize(newBuckets: nat)
      requires Valid() && newBuckets <= Pow2(31)
      modifies this, flags, keys, vals
      ensures Valid() && model == old(model)
      ensures old(size) < Upper(Capacity(newBuckets)) ==>
                && nBuckets == Capacity(newBuckets) && nOccupied == size && fresh(flags)
                && forall i :: 0 <= i < nBuckets ==> !flags[i].Deleted?
      ensures old(size) >= Upper(Capacity(newBuckets)) ==>
                && nBuckets == old(nBuckets) && nOccupied == old(nOccupied)
                && flags == old(flags) && keys == old(keys) && vals == old(vals)
      ensures (keys == old(keys) || fresh(keys)) && (vals == old(vals) || fresh(vals))
    {
      hide Distinct, KeySet, Agrees, Stores, CountTrue, IsPow2, LiveBits, TakenBits, Capacity, Upper, Pow2;
      CapacityIsPow2(newBuckets);
      var newN := Capacity(newBuckets);
      if size >= Upper(newN) {
        return;
      }
      var src, ks, vs := OldArrays();
      UpperBelow(newN);
      var dst, newKeys, newVals := Rehash(hashFn, src, ks, vs, newN, model);
      Install(dst, newKeys, newVals);
    }

    /** The probe loop of `kh_put`: it stops at `key`, or chooses the last tombstone passed on the way to an empty bucket. */
    static method Site(flags: array<Flag>, keys: array<K>, key: K, h: nat, ghost room: nat)
      returns (x: nat, ghost s: nat)
      requires h < flags.Length == keys.Length && room < flags.Length && IsPow2(flags.Length)
      requires flags[Probe(Triangular, h, room, flags.Length)].Empty?
      ensures x < flags.Length && s < flags.Length
      ensures flags[x].Live? ==> keys[x] == key
      ensures !flags[x].Live? ==> flags[Probe(Triangular, h, s, flags.Length)].Empty?
      ensures !flags[x].Live? ==> Missed(Triangular, h, s, LiveBits(flags[..]), keys[..], key)
      ensures !flags[x].Live? ==> Reachable(Triangular, h, x, TakenBits(flags[..])) && Chosen(flags[..], h, s, x)
    {
      hide Probe, Wrap, Missed, Taken, IsPow2, Reachable, Tombstone, LastTombstone;
      ghost var live, taken := LiveBits(flags[..]), TakenBits(flags[..]);
      SearchStart(Triangular, h, live, taken, keys[..], key);
      var n := flags.Length;
      var i, last, step, site := h, h, 0, n;
      s := 0;
      NoTombstone(flags[..], h);
      while !flags[i].Empty? && (flags[i].Deleted? || keys[i] != key)
        invariant s == step <= room && i == Probe(Triangular, h, step, n)
        invariant Missed(Triangular, h, step, live, keys[..], key) && Taken(Triangular, h, step, taken)
        invariant 0 <= site <= n
        invariant site < n ==> flags[site].Deleted? && Reachable(Triangular, h, site, taken)
        invariant Tombstone(flags[..], h, step) <==> site < n
        invariant site < n ==> LastTombstone(flags[..], h, step, site)
        decreases room - step
      {
        TombstoneStep(flags[..], h, step, site);
        if flags[i].Deleted? {
          site := i;
          ReachedHere(Triangular, h, step, taken);
        }
        SearchStep(Triangular, h, step, live, taken, keys[..], key);
        step := step + 1;
        s := step;
        i := Wrap(i + step, n);
        if i == last {
          ProbeFirstReturn(Triangular, h, step, n);
          assert false;
          break;
        }
      }
      ReachedHere(Triangular, h, step, taken);
      x := if flags[i].Empty? && site != n then site else i;
    }

    /** The rehash `Put` starts with: same capacity when tombstones take the room, double capacity otherwise. */
    method Reserve()
      requires Valid() && nOccupied >= upperBound && size < Pow2(30)
      modifies this, flags, keys, vals
      ensures Valid() && model == old(model) && nBuckets > 0 && nOccupied == old(size) < upperBound
      ensures nBuckets == if old(nBuckets) == 0 then 4 else if old(nBuckets) > 2 * old(size) then old(nBuckets) else 2 * old(nBuckets)
      ensures fresh(flags) && (keys == old(keys) || fresh(keys)) && (vals == old(vals) || fresh(vals))
      ensures forall i :: 0 <= i < nBuckets ==> !flags[i].Deleted?
    {
      hide Stores, CountTrue, TakenBits, Capacity, Pow2, IsPow2, Upper;
      RehashSizes(nBuckets, size);
      if nBuckets > 2 * size {
        Resize(nBuckets - 1);
      } else {
        Resize(nBuckets + 1);
      }
    }

    /** Write a new key into a bucket without one; its value is whatever the bucket last held. */
    method Store(x: nat, key: K)
      requires Valid() && nBuckets > 0 && x < nBuckets && !flags[x].Live? && key !in model
      requires flags[x].Empty? ==> nOccupied < upperBound
      requires Reachable(Triangular, Masked(hashFn(key), nBuckets), x, TakenBits(flags[..]))
      modifies this`size, this`nOccupied, this`model, flags, keys
      ensures Valid() && model == old(model)[key := vals[x]]
      ensures flags[x].Live? && keys[x] == key && size == old(size) + 1
      ensures nOccupied == old(nOccupied) + if old(flags[x]).Empty? then 1 else 0
      ensures flags[..] == old(flags[..])[x := Live]
    {
      hide Stores, CountTrue, TakenBits, Upper, IsPow2, Masked, Reachable, Pow2;
      ghost var f0, k0 := flags[..], keys[..];
      StoresAdd(hashFn, f0, k0, vals[..], model, x, key);
      if flags[x].Empty? {
        nOccupied := nOccupied + 1;
      }
      keys[x] := key;
      flags[x] := Live;
      size := size + 1;
      model := model[key := vals[x]];
      assert flags[..] == f0[x := Live] && keys[..] == k0[x := key];
    }

    /**
     Make sure `key` has a bucket. `ret` is 0 when it had one, 1 when an empty bucket and
     2 when a tombstone was used; the caller then writes the value with `SetValue`. `was` are
     the flags of the search, `s` the steps from home to the first empty bucket.
     */
    method Put(key: K) returns (x: nat, ret: int, ghost was: seq<Flag>, ghost s: nat)
      requires Valid() && (nOccupied >= upperBound ==> size < Pow2(30))
      modifies this, flags, keys, vals
      ensures Valid() && x < nBuckets && flags[x].Live? && keys[x] == key
      ensures ret in {0, 1, 2} && (ret == 0 <==> key in old(model))
      ensures model == if ret == 0 then old(model) else old(model)[key := vals[x]]
      ensures nOccupied == (if old(nOccupied >= upperBound) then old(size) else old(nOccupied)) + if ret == 1 then 1 else 0
      ensures nBuckets == if old(nOccupied < upperBound) then old(nBuckets) else if old(nBuckets) == 0 then 4
                          else if old(nBuckets) > 2 * old(size) then old(nBuckets) else 2 * old(nBuckets)
      ensures |was| == nBuckets && flags[..] == was[x := Live]
      ensures if old(nOccupied < upperBound) then old(flags) != null && was == old(flags[..]) else forall i :: 0 <= i < |was| ==> !was[i].Deleted?
      ensures ret != 0 ==> Chosen(was, Masked(hashFn(key), nBuckets), s, x) && (ret == 2 <==> was[x].Deleted?)
      ensures (flags == old(flags) || fresh(flags)) && (keys == old(keys) || fresh(keys)) && (vals == old(vals) || fresh(vals))
    {
      hide Stores, CountTrue, TakenBits, LiveBits, Upper, IsPow2, Masked, Reachable, Pow2, Missed, Probe, Chosen;
      if nOccupied >= upperBound {
        Reserve();
      }
      was := flags[..];
      var h := Masked(hashFn(key), nBuckets);
      ghost var room := Room(hashFn, flags[..], key, nOccupied);
      x, s := Site(flags, keys, key, h, room);
      if flags[x].Live? {
        ret := 0;
        LiveKey(hashFn, flags[..], keys[..], vals[..], model, x);
      } else {
        ret := if flags[x].Empty? then 1 else 2;
        Absent(hashFn, flags[..], keys[..], vals[..], model, key, s);
        Store(x, key);
      }
    }

    /** `kh_value(h, x) = v` for a live bucket. */
    method SetValue(x: nat, v: V)
      requires Valid() && x < nBuckets && flags[x].Live?
      modifies this`model, vals
      ensures Valid() && model == old(model)[keys[x] := v]
    {
      hide CountTrue, TakenBits, Upper, IsPow2, Chained, Pow2;
      vals[x] := v;
      model := model[keys[x] := v];
      assert model.Keys == old(model).Keys;
      assert |model.Keys| == |model|;
    }

    /** Deletion turns the bucket into a tombstone; a bucket without a live key is left alone. */
    method Del(x: nat)
      requires Valid() && x <= nBuckets
      modifies this`size, this`model, flags
      ensures Valid() && nOccupied == old(nOccupied)
      ensures x < nBuckets && old(flags[x]).Live? ==> model == old(model) - {keys[x]} && flags[x].Deleted?
      ensures x == nBuckets || !old(flags[x]).Live? ==> model == old(model)
    {
      hide Stores, CountTrue, TakenBits, Upper, IsPow2, Pow2;
      if x != nBuckets && flags[x].Live? {
        ghost var f0 := flags[..];
        StoresRemove(hashFn, f0, keys[..], vals[..], model, x);
        flags[x] := Deleted;
        assert flags[..] == f0[x := Deleted];
        size := size - 1;
        model := model - {keys[x]};
      }
    }
  }

  /** A table below its load limit has an empty bucket, and the search for any key gets to it. */
  lemma Room<K(!new)>(hashFn: K -> nat, flags: seq<Flag>, key: K, occupied: nat) returns (s: nat)
    requires IsPow2(|flags|) && occupied == CountTrue(TakenBits(flags)) <= Upper(|flags|) && |flags| >= 4
    ensures 0 < |flags| && s < |flags|
    ensures flags[Probe(Triangular, Masked(hashFn(key), |flags|), s, |flags|)].Empty?
  {
    var f := SomeFalse(TakenBits(flags));
    s := ProbeCovers(Triangular, Masked(hashFn(key), |flags|), |flags|, f);
  }

  lemma UpperBelow(n: nat)
    requires n >= 4
    ensures 0 < Upper(n) < n
  {
  }

  lemma NoEntries<K(!new), V>(hashFn: K -> nat, flags: seq<Flag>, keys: seq<K>, vals: seq<V>, m: map<K, V>)
    requires |flags| == |keys| == |vals|
    requires if flags == [] then m == map[] else Stores(hashFn, flags, keys, vals, m)
    ensures Distinct(LiveBits(flags), keys) && KeySet(LiveBits(flags), keys) == m.Keys
    ensures Agrees(LiveBits(flags), keys, vals, m)
  {
  }

  /** Without tombstones the occupied buckets are as many as the entries. */
  lemma LiveCount<K(!new), V>(hashFn: K -> nat, flags: seq<Flag>, keys: seq<K>, vals: seq<V>, m: map<K, V>)
    requires Stores(hashFn, flags, keys, vals, m)
    requires forall i :: 0 <= i < |flags| ==> !flags[i].Deleted?
    ensures CountTrue(TakenBits(flags)) == |m|
  {
    SameBits(flags);
    KeySetSize(LiveBits(flags), keys);
    assert |m.Keys| == |m|;
  }

  /** Where `Put`'s two rehash requests land, and that both leave room. */
  lemma RehashSizes(n: nat, size: nat)
    requires n == 0 || (IsPow2(n) && n >= 4)
    requires n <= Pow2(31) && size < Pow2(30) && size <= Upper(n)
    ensures n > 2 * size ==> Capacity(n - 1) == n && size < Upper(n)
    ensures n <= 2 * size ==> n + 1 <= Pow2(31) && Capacity(n + 1) == (if n == 0 then 4 else 2 * n) && size < Upper(Capacity(n + 1))
  {
    if n == 0 {
      assert CeilLog2(1) == 0;
    } else {
      NeighbourCapacities(n);
      assert Pow2(31) == 2 * Pow2(30);
    }
  }

  lemma NeighbourCapacities(n: nat)
    requires IsPow2(n) && n >= 4
    ensures Capacity(n - 1) == n && Capacity(n + 1) == 2 * n
  {
    var k: nat :| n == Pow2(k);
    assert Pow2(1) == 2;
    if k < 2 {
      Pow2Monotone(k, 1);
    }
    assert k >= 2;
    assert CeilLog2(n - 1) == k by {
      CeilLog2Least(n - 1, k);
      CeilLog2Least(n - 1, k - 1);
    }
    assert CeilLog2(n + 1) == k + 1 by {
      CeilLog2Least(n + 1, k);
      CeilLog2Least(n + 1, k + 1);
    }
  }

  lemma StoresAdd<K(!new), V>(hashFn: K -> nat, flags: seq<Flag>, keys: seq<K>, vals: seq<V>, m: map<K, V>, x: nat, k: K)
    requires Stores(hashFn, flags, keys, vals, m) && k !in m
    requires x < |flags| && !flags[x].Live?
    requires Reachable(Triangular, Masked(hashFn(k), |flags|), x, TakenBits(flags))
    ensures Stores(hashFn, flags[x := Live], keys[x := k], vals, m[k := vals[x]])
    ensures CountTrue(TakenBits(flags[x := Live])) == CountTrue(TakenBits(flags)) + if flags[x].Empty? then 1 else 0
    ensures |m[k := vals[x]]| == |m| + 1 <= CountTrue(TakenBits(flags[x := Live]))
  {
    hide Distinct, Chained, KeySet, Reachable;
    KeySetAdd(LiveBits(flags), keys, x, k);
    ChainedAdd(Triangular, Home(hashFn, |flags|), LiveBits(flags), TakenBits(flags), keys, x, k);
    BitsUpdate(flags, x, Live);
    CountTrueUpdate(TakenBits(flags), x, true);
    var m' := m[k := vals[x]];
    assert m'.Keys == m.Keys + {k};
    assert |m'.Keys| == |m'| && |m.Keys| == |m|;
    KeySetSize(LiveBits(flags[x := Live]), keys[x := k]);
    CountTrueMonotone(LiveBits(flags[x := Live]), TakenBits(flags[x := Live]));
  }

  lemma StoresRemove<K(!new), V>(hashFn: K -> nat, flags: seq<Flag>, keys: seq<K>, vals: seq<V>, m: map<K, V>, x: nat)
    requires Stores(hashFn, flags, keys, vals, m) && x < |flags| && flags[x].Live?
    ensures Stores(hashFn, flags[x := Deleted], keys, vals, m - {keys[x]})
    ensures CountTrue(TakenBits(flags[x := Deleted])) == CountTrue(TakenBits(flags))
    ensures |m - {keys[x]}| == |m| - 1
  {
    hide KeySet, Reachable;
    KeySetRemove(LiveBits(flags), keys, x);
    BitsUpdate(flags, x, Deleted);
    assert TakenBits(flags)[x := true] == TakenBits(flags);
    var m' := m - {keys[x]};
    assert m'.Keys == m.Keys - {keys[x]};
    assert |m'.Keys| == |m'| && |m.Keys| == |m|;
  }

  lemma LiveKey<K(!new), V>(hashFn: K -> nat, flags: seq<Flag>, keys: seq<K>, vals: seq<V>, m: map<K, V>, x: nat)
    requires Stores(hashFn, flags, keys, vals, m) && x < |flags| && flags[x].Live?
    ensures x < |keys| && x < |vals| && keys[x] in m && m[keys[x]] == vals[x]
  {
  }

  /** An empty bucket after buckets that do not hold the key means that no bucket does. */
  lemma Absent<K(!new), V>(hashFn: K -> nat, flags: seq<Flag>, keys: seq<K>, vals: seq<V>, m: map<K, V>, k: K, s: nat)
    requires Stores(hashFn, flags, keys, vals, m) && s < |flags|
    requires flags[Probe(Triangular, Masked(hashFn(k), |flags|), s, |flags|)].Empty?
    requires Missed(Triangular, Masked(hashFn(k), |flags|), s, LiveBits(flags), keys, k)
    ensures k !in m
  {
    hide Distinct, Chained, Missed, Probe;
    SearchComplete(Triangular, Home(hashFn, |flags|), LiveBits(flags), TakenBits(flags), keys, k, s);
  }
}
