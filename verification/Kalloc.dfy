/**
 ext/klib/kalloc.c: a first-fit allocator over cores obtained from a parent, with an
 address-ordered circular list of free blocks. Addresses and sizes count units of one
 block header.
 */
module Kalloc {
  import opened Powers


  datatype Core = Core(at: int, size: nat)

  /** Where bookkeeping of the allocator itself lies: a unit before the list head `base`, `base`, and a unit after. */
  predicate OffBase(c: Core, base: int) {
    c.at + c.size <= base - 1 || base + 2 <= c.at
  }

  predicate Apart(c: Core, d: Core) {
    c.at + c.size <= d.at || d.at + d.size <= c.at
  }

  ghost predicate CoresOk(cores: seq<Core>, base: int) {
    && (forall i :: 0 <= i < |cores| ==> cores[i].size >= 2 && OffBase(cores[i], base))
    && (forall i, j :: 0 <= i < j < |cores| ==> Apart(cores[i], cores[j]))
  }

  // ---- blocks tile the cores --------------------------------------------------

  /** Block `b` lies behind the header unit of a core and inside it. */
  predicate Within(b: int, size: int, c: Core) {
    c.at + 1 <= b && b + size <= c.at + c.size
  }

  ghost predicate InCore(b: int, size: int, cores: seq<Core>) {
    exists i :: 0 <= i < |cores| && Within(b, size, cores[i])
  }

  predicate Covers(b: int, size: int, u: int) {
    b <= u < b + size
  }

  ghost predicate Covered(blocks: set<int>, size: map<int, int>, u: int) {
    exists b :: b in blocks && b in size && Covers(b, size[b], u)
  }

  ghost predicate Placed(blocks: set<int>, size: map<int, int>, cores: seq<Core>) {
    forall b :: b in blocks ==> b in size && size[b] >= 1 && InCore(b, size[b], cores)
  }

  ghost predicate Disjoint(blocks: set<int>, size: map<int, int>) {
    forall a, b :: a in blocks && b in blocks && a in size && a < b ==> a + size[a] <= b
  }

  ghost predicate Full(blocks: set<int>, size: map<int, int>, cores: seq<Core>) {
    forall i, u :: 0 <= i < |cores| && Within(u, 1, cores[i]) ==> Covered(blocks, size, u)
  }

  /** The blocks are disjoint, lie in the cores, and leave no unit of a core but its header uncovered. */
  ghost predicate Tiled(blocks: set<int>, size: map<int, int>, cores: seq<Core>) {
    Placed(blocks, size, cores) && Disjoint(blocks, size) && Full(blocks, size, cores)
  }

  // Splitting block `p`: its last `n` units become block `r`.

  lemma PlacedSplit(blocks: set<int>, size: map<int, int>, cores: seq<Core>, p: int, n: nat, r: int)
    requires Placed(blocks, size, cores) && p in blocks && 1 <= n < size[p] && r == p + size[p] - n
    ensures Placed(blocks + {r}, size[p := size[p] - n][r := n], cores)
  {
    var size' := size[p := size[p] - n][r := n];
    forall b | b in blocks + {r}
      ensures b in size' && size'[b] >= 1 && InCore(b, size'[b], cores)
    {
      var o := if b == r then p else b;
      var i :| 0 <= i < |cores| && Within(o, size[o], cores[i]);
      assert Within(b, size'[b], cores[i]);
    }
  }

  lemma FullSplit(blocks: set<int>, size: map<int, int>, cores: seq<Core>, p: int, n: nat, r: int)
    requires Full(blocks, size, cores) && r !in blocks
    requires p in blocks && p in size && 1 <= n < size[p] && r == p + size[p] - n
    ensures Full(blocks + {r}, size[p := size[p] - n][r := n], cores)
  {
    var size' := size[p := size[p] - n][r := n];
    forall i, u | 0 <= i < |cores| && Within(u, 1, cores[i])
      ensures Covered(blocks + {r}, size', u)
    {
      assert Covered(blocks, size, u);
      var b :| b in blocks && b in size && Covers(b, size[b], u);
      if b == p && u >= r {
        assert Covers(r, size'[r], u);
      } else {
        assert Covers(b, size'[b], u);
      }
    }
  }

  lemma TiledSplit(blocks: set<int>, size: map<int, int>, cores: seq<Core>, p: int, n: nat, r: int)
    requires Tiled(blocks, size, cores) && p in blocks && 1 <= n < size[p] && r == p + size[p] - n
    ensures r !in blocks && Tiled(blocks + {r}, size[p := size[p] - n][r := n], cores)
  {
    hide InCore, Full;
    assert r !in blocks;
    PlacedSplit(blocks, size, cores, p, n, r);
    FullSplit(blocks, size, cores, p, n, r);
  }

  // Joining block `q` with block `p` that starts where `q` ends.

  lemma PlacedJoin(blocks: set<int>, size: map<int, int>, cores: seq<Core>, q: int, p: int)
    requires Placed(blocks, size, cores) && CoresApart(cores)
    requires p in blocks && q in blocks && p == q + size[q]
    ensures Placed(blocks - {p}, size[q := size[q] + size[p]], cores)
  {
    var size' := size[q := size[q] + size[p]];
    forall b | b in blocks - {p}
      ensures b in size' && size'[b] >= 1 && InCore(b, size'[b], cores)
    {
      var i :| 0 <= i < |cores| && Within(b, size[b], cores[i]);
      if b == q {
        var j :| 0 <= j < |cores| && Within(p, size[p], cores[j]);
        assert i == j;
      }
      assert Within(b, size'[b], cores[i]);
    }
  }

  lemma FullJoin(blocks: set<int>, size: map<int, int>, cores: seq<Core>, q: int, p: int)
    requires Full(blocks, size, cores) && p in size && q in size && size[q] >= 1 && size[p] >= 1
    requires p in blocks && q in blocks && p == q + size[q]
    ensures Full(blocks - {p}, size[q := size[q] + size[p]], cores)
  {
    var size' := size[q := size[q] + size[p]];
    forall i, u | 0 <= i < |cores| && Within(u, 1, cores[i])
      ensures Covered(blocks - {p}, size', u)
    {
      assert Covered(blocks, size, u);
      var b :| b in blocks && b in size && Covers(b, size[b], u);
      if b == p {
        assert Covers(q, size'[q], u);
      } else {
        assert Covers(b, size'[b], u);
      }
    }
  }

  lemma TiledJoin(blocks: set<int>, size: map<int, int>, cores: seq<Core>, q: int, p: int)
    requires Tiled(blocks, size, cores) && CoresApart(cores)
    requires p in blocks && q in blocks && p == q + size[q]
    ensures Tiled(blocks - {p}, size[q := size[q] + size[p]], cores)
  {
    hide InCore, Full, CoresApart;
    PlacedJoin(blocks, size, cores, q, p);
    FullJoin(blocks, size, cores, q, p);
  }

  ghost predicate CoresApart(cores: seq<Core>) {
    forall i, j :: 0 <= i < j < |cores| ==> Apart(cores[i], cores[j])
  }

  // A new core is one block behind its header.

  lemma PlacedCore(blocks: set<int>, size: map<int, int>, cores: seq<Core>, c: Core)
    requires Placed(blocks, size, cores) && c.size >= 2 && c.at + 1 !in blocks
    ensures Placed(blocks + {c.at + 1}, size[c.at + 1 := c.size - 1], [c] + cores)
  {
    var p, cores' := c.at + 1, [c] + cores;
    var size' := size[p := c.size - 1];
    forall b | b in blocks + {p}
      ensures b in size' && size'[b] >= 1 && InCore(b, size'[b], cores')
    {
      if b == p {
        assert Within(p, size'[p], cores'[0]);
      } else {
        var i :| 0 <= i < |cores| && Within(b, size[b], cores[i]);
        assert Within(b, size'[b], cores'[i + 1]);
      }
    }
  }

  lemma FullCore(blocks: set<int>, size: map<int, int>, cores: seq<Core>, c: Core)
    requires Full(blocks, size, cores) && c.size >= 2 && c.at + 1 !in blocks
    ensures Full(blocks + {c.at + 1}, size[c.at + 1 := c.size - 1], [c] + cores)
  {
    var p, cores' := c.at + 1, [c] + cores;
    var size' := size[p := c.size - 1];
    forall i, u | 0 <= i < |cores'| && Within(u, 1, cores'[i])
      ensures Covered(blocks + {p}, size', u)
    {
      if i == 0 {
        assert Covers(p, size'[p], u);
      } else {
        assert cores'[i] == cores[i - 1];
        assert Covered(blocks, size, u);
        var b :| b in blocks && b in size && Covers(b, size[b], u);
        assert Covers(b, size'[b], u);
      }
    }
  }

  lemma TiledCore(blocks: set<int>, size: map<int, int>, cores: seq<Core>, c: Core)
    requires Tiled(blocks, size, cores) && c.size >= 2
    requires forall i :: 0 <= i < |cores| ==> Apart(c, cores[i])
    ensures c.at + 1 !in blocks
    ensures Tiled(blocks + {c.at + 1}, size[c.at + 1 := c.size - 1], [c] + cores)
  {
    hide Full;
    forall b | b in blocks
      ensures b + size[b] <= c.at || c.at + c.size <= b
    {
      var i :| 0 <= i < |cores| && Within(b, size[b], cores[i]);
      assert Apart(c, cores[i]);
    }
    PlacedCore(blocks, size, cores, c);
    FullCore(blocks, size, cores, c);
  }

  // ---- totals ------------------------------------------------------------------

  ghost function Total(blocks: set<int>, size: map<int, int>): int
    requires forall b :: b in blocks ==> b in size
  {
    if exists b :: b in blocks then
      var b :| b in blocks;
      size[b] + Total(blocks - {b}, size)
    else 0
  }

  /** The total may be taken from any block first. */
  lemma {:induction false} TotalTake(blocks: set<int>, size: map<int, int>, b: int)
    requires b in blocks && forall c :: c in blocks ==> c in size
    ensures Total(blocks, size) == size[b] + Total(blocks - {b}, size)
    decreases blocks
  {
    var c :| c in blocks && Total(blocks, size) == size[c] + Total(blocks - {c}, size);
    if c != b {
      TotalTake(blocks - {c}, size, b);
      TotalTake(blocks - {b}, size, c);
      assert blocks - {c} - {b} == blocks - {b} - {c};
    }
  }

  lemma {:induction false} TotalSame(blocks: set<int>, size: map<int, int>, size': map<int, int>)
    requires forall b :: b in blocks ==> b in size && b in size' && size[b] == size'[b]
    ensures Total(blocks, size) == Total(blocks, size')
    decreases blocks
  {
    if b :| b in blocks {
      TotalTake(blocks, size, b);
      TotalTake(blocks, size', b);
      TotalSame(blocks - {b}, size, size');
    }
  }

  lemma {:induction false} TotalUnion(a: set<int>, b: set<int>, size: map<int, int>)
    requires a !! b && forall c :: c in a + b ==> c in size
    ensures Total(a + b, size) == Total(a, size) + Total(b, size)
    decreases a
  {
    if c :| c in a {
      TotalTake(a, size, c);
      TotalTake(a + b, size, c);
      assert a + b - {c} == a - {c} + b;
      TotalUnion(a - {c}, b, size);
    } else {
      assert forall c :: c in a + b ==> c in b;
      assert a + b == b;
    }
  }

  /** All units of the cores, headers included. */
  function Units(cores: seq<Core>): nat {
    if cores == [] then 0 else cores[0].size + Units(cores[1..])
  }

  /** Every unit of a core is its header or belongs to one block. */
  ghost predicate Balanced(blocks: set<int>, size: map<int, int>, cores: seq<Core>)
    requires forall b :: b in blocks ==> b in size
  {
    Total(blocks, size) + |cores| == Units(cores)
  }

  lemma BalancedSplit(blocks: set<int>, size: map<int, int>, cores: seq<Core>, p: int, n: nat, r: int)
    requires (forall b :: b in blocks ==> b in size) && p in blocks
    requires r !in blocks && Balanced(blocks, size, cores)
    ensures Balanced(blocks + {r}, size[p := size[p] - n][r := n], cores)
  {
    var size' := size[p := size[p] - n][r := n];
    TotalTake(blocks, size, p);
    TotalTake(blocks + {r}, size', r);
    assert blocks + {r} - {r} == blocks;
    TotalTake(blocks, size', p);
    TotalSame(blocks - {p}, size, size');
  }

  lemma BalancedJoin(blocks: set<int>, size: map<int, int>, cores: seq<Core>, q: int, p: int)
    requires (forall b :: b in blocks ==> b in size) && p in blocks && q in blocks && p != q
    requires Balanced(blocks, size, cores)
    ensures Balanced(blocks - {p}, size[q := size[q] + size[p]], cores)
  {
    var size' := size[q := size[q] + size[p]];
    TotalTake(blocks, size, p);
    TotalTake(blocks - {p}, size, q);
    TotalTake(blocks - {p}, size', q);
    TotalSame(blocks - {p} - {q}, size, size');
  }

  lemma BalancedCore(blocks: set<int>, size: map<int, int>, cores: seq<Core>, c: Core)
    requires (forall b :: b in blocks ==> b in size) && c.at + 1 !in blocks && c.size >= 1
    requires Balanced(blocks, size, cores)
    ensures Balanced(blocks + {c.at + 1}, size[c.at + 1 := c.size - 1], [c] + cores)
  {
    var p := c.at + 1;
    var size' := size[p := c.size - 1];
    TotalTake(blocks + {p}, size', p);
    assert blocks + {p} - {p} == blocks;
    TotalSame(blocks, size, size');
    assert ([c] + cores)[1..] == cores;
  }

  // ---- the ring of free blocks --------------------------------------------------

  /** `y` follows `x` in address order, or the addresses wrap around from `x` to `y`. */
  ghost predicate Follows(free: set<int>, x: int, y: int) {
    && y in free
    && if x < y then forall z :: z in free ==> z <= x || y <= z
       else forall z :: z in free ==> y <= z <= x
  }

  ghost predicate Points(free: set<int>, ptr: map<int, int>, x: int) {
    x in ptr && Follows(free, x, ptr[x])
  }

  /** The pointers join the free blocks into one address-ordered cycle. */
  ghost predicate Ring(free: set<int>, ptr: map<int, int>) {
    forall x {:trigger Points(free, ptr, x)} :: x in free ==> Points(free, ptr, x)
  }

  /** The condition under which the search of `kfree` stops at `q`. */
  predicate Stops(p: int, q: int, succ: int) {
    q < p < succ || (q >= succ && (p > q || p < succ))
  }

  /** Address `p` lies between `q` and `succ` in the ring. */
  ghost predicate Neighbours(free: set<int>, p: int, q: int, succ: int) {
    q in free && p !in free && Follows(free, q, succ) && Stops(p, q, succ)
  }

  lemma InsertKeeps(free: set<int>, p: int, q: int, succ: int, x: int, y: int)
    requires Neighbours(free, p, q, succ) && x in free && Follows(free, x, y) && x != q
    ensures Follows(free + {p}, x, y)
  {
  }

  lemma InsertAt(free: set<int>, p: int, q: int, succ: int)
    requires Neighbours(free, p, q, succ)
    ensures Follows(free + {p}, q, p) && Follows(free + {p}, p, succ)
  {
  }

  lemma DropKeeps(free: set<int>, q: int, s: int, x: int, y: int)
    requires q in free && Follows(free, q, s) && x in free && Follows(free, x, y) && x != q
    ensures Follows(free - {s}, x, y)
  {
  }

  lemma DropAt(free: set<int>, q: int, s: int, t: int)
    requires q in free && Follows(free, q, s) && Follows(free, s, t) && s != q
    ensures Follows(free - {s}, q, t)
  {
  }

  /** A new block `p` between its neighbours. */
  lemma RingInsert(free: set<int>, ptr: map<int, int>, p: int, q: int)
    requires Ring(free, ptr) && q in ptr && Neighbours(free, p, q, ptr[q])
    ensures Ring(free + {p}, ptr[p := ptr[q]][q := p])
  {
    var free', ptr' := free + {p}, ptr[p := ptr[q]][q := p];
    forall x | x in free'
      ensures Points(free', ptr', x)
    {
      if x == p || x == q {
        InsertAt(free, p, q, ptr[q]);
      } else {
        assert Points(free, ptr, x);
        InsertKeeps(free, p, q, ptr[q], x, ptr[x]);
      }
    }
  }

  /** The successor `s` of `q` leaves the ring. */
  lemma RingDrop(free: set<int>, ptr: map<int, int>, q: int, s: int)
    requires Ring(free, ptr) && q in free && q in ptr && ptr[q] == s && s in ptr && s != q
    ensures Ring(free - {s}, ptr[q := ptr[s]])
    ensures Follows(free - {s}, q, ptr[s])
  {
    assert Points(free, ptr, q);
    assert Points(free, ptr, s);
    DropAt(free, q, s, ptr[s]);
    var free', ptr' := free - {s}, ptr[q := ptr[s]];
    forall x | x in free'
      ensures Points(free', ptr', x)
    {
      if x != q {
        assert Points(free, ptr, x);
        DropKeeps(free, q, s, x, ptr[x]);
      }
    }
  }

  /** Block `p` takes the place of the successor `s` of `q`. */
  lemma RingReplace(free: set<int>, ptr: map<int, int>, p: int, q: int, s: int)
    requires Ring(free, ptr) && q in ptr && ptr[q] == s && s in ptr
    requires Neighbours(free, p, q, s) && p < s && q != s
    ensures Ring(free - {s} + {p}, ptr[p := ptr[s]][q := p])
  {
    assert Points(free, ptr, s);
    RingDrop(free, ptr, q, s);
    assert Stops(p, q, ptr[s]);
    hide Follows, Ring;
    RingInsert(free - {s}, ptr[q := ptr[s]], p, q);
    assert ptr[p := ptr[s]][q := p] == ptr[q := ptr[s]][p := ptr[s]][q := p];
  }

  /** Pointers stored in blocks outside the ring do not matter. */
  lemma RingFrame(free: set<int>, ptr: map<int, int>, ptr': map<int, int>)
    requires Ring(free, ptr)
    requires forall x :: x in free && x in ptr ==> x in ptr' && ptr'[x] == ptr[x]
    ensures Ring(free, ptr')
  {
    forall x | x in free
      ensures Points(free, ptr', x)
    {
      assert Points(free, ptr, x);
    }
  }

  lemma RingNext(free: set<int>, ptr: map<int, int>, q: int)
    requires Ring(free, ptr) && q in free
    ensures q in ptr && Follows(free, q, ptr[q]) && ptr[q] in free && ptr[q] in ptr
  {
    assert Points(free, ptr, q);
    assert Points(free, ptr, ptr[q]);
  }

  /** The pointers `kfree` leaves, whichever neighbours of `p` it joins. */
  lemma RingAfterFree(free: set<int>, ptr: map<int, int>, p: int, q: int, s: int, above: bool, below: bool,
                      free1: set<int>, ptr1: map<int, int>)
    requires Ring(free, ptr) && q in ptr && ptr[q] == s && s in ptr && Neighbours(free, p, q, s)
    requires above ==> p < s && q != s
    requires free1 == if above then free - {s} + {p} else free + {p}
    requires ptr1 == ptr[p := if above then ptr[s] else s]
    ensures Ring(if below then free1 - {p} else free1, ptr1[q := if below then ptr1[p] else p])
  {
    if above && below {
      RingDrop(free, ptr, q, s);
      assert free1 - {p} == free - {s};
      hide Ring, Follows;
      RingFrame(free - {s}, ptr[q := ptr[s]], ptr1[q := ptr1[p]]);
    } else if above {
      RingReplace(free, ptr, p, q, s);
    } else if below {
      assert free1 - {p} == free;
      hide Ring, Follows;
      RingFrame(free, ptr, ptr1[q := ptr1[p]]);
    } else {
      RingInsert(free, ptr, p, q);
    }
  }

  lemma NearestBelow(free: set<int>, p: int, q: int, succ: int)
    requires Neighbours(free, p, q, succ)
    ensures forall a :: a in free && a < p ==> a <= q < p
  {
  }

  lemma NearestAbove(free: set<int>, p: int, q: int, succ: int)
    requires Neighbours(free, p, q, succ)
    ensures forall b :: b in free && b > p ==> p < succ <= b
  {
  }

  // ---- what the allocator keeps true ----------------------------------------------

  /** No two free blocks touch. */
  ghost predicate Sparse(blocks: set<int>, size: map<int, int>) {
    forall a, b :: a in blocks && b in blocks && a in size && a < b ==> a + size[a] < b
  }

  /** `Sparse`, save that a block may end where `p` starts. */
  ghost predicate SparseBut(blocks: set<int>, size: map<int, int>, p: int) {
    forall a, b :: a in blocks && b in blocks && a in size && a < b && b != p ==> a + size[a] < b
  }

  ghost function Blocks(free: set<int>, live: set<int>, base: int): set<int> {
    free - {base} + live
  }

  /** The free and the live blocks tile the cores; the list head is a free block of no unit. */
  ghost predicate Laid(free: set<int>, size: map<int, int>, live: set<int>, cores: seq<Core>, base: int) {
    && base in free && base in size && size[base] == 0
    && free !! live
    && CoresOk(cores, base)
    && Tiled(Blocks(free, live, base), size, cores)
    && Balanced(Blocks(free, live, base), size, cores)
  }

  ghost predicate Stocked(free: set<int>, size: map<int, int>, live: set<int>, cores: seq<Core>, base: int) {
    Laid(free, size, live, cores, base) && Sparse(free, size)
  }

  /** A block is clear of the list head on either side. */
  lemma ClearOfBase(free: set<int>, size: map<int, int>, live: set<int>, cores: seq<Core>, base: int, b: int)
    requires Laid(free, size, live, cores, base) && b in Blocks(free, live, base)
    ensures b + size[b] < base || base + 1 < b
  {
    var i :| 0 <= i < |cores| && Within(b, size[b], cores[i]);
    assert OffBase(cores[i], base);
  }

  lemma CoresOkApart(cores: seq<Core>, base: int)
    requires CoresOk(cores, base)
    ensures CoresApart(cores)
  {
  }

  /** A live block ends no later than the next free block starts. */
  lemma ShortOf(free: set<int>, size: map<int, int>, live: set<int>, cores: seq<Core>, base: int, p: int, b: int)
    requires Laid(free, size, live, cores, base) && p in Blocks(free, live, base) && b in free && p < b
    ensures p in size && p + size[p] <= b
  {
    ClearOfBase(free, size, live, cores, base, p);
  }

  lemma SparseAbove(free: set<int>, size: map<int, int>, p: int, succ: int)
    requires Sparse(free, size) && p in size && p !in free && succ in free && succ in size
    requires forall b :: b in free && b > p ==> p < succ <= b && p + size[p] <= b
    ensures p + size[p] == succ && size[p] > 0 ==>
      SparseBut(free - {succ} + {p}, size[p := size[p] + size[succ]], p)
    ensures p + size[p] != succ ==> SparseBut(free + {p}, size, p)
  {
  }

  lemma LaidAbove(free: set<int>, size: map<int, int>, live: set<int>, cores: seq<Core>, base: int, p: int, succ: int)
    requires Laid(free, size, live, cores, base) && p in live && succ in free
    requires p in size && p + size[p] == succ
    ensures succ != base && succ in size
    ensures Laid(free - {succ} + {p}, size[p := size[p] + size[succ]], live - {p}, cores, base)
  {
    var blocks := Blocks(free, live, base);
    ClearOfBase(free, size, live, cores, base, p);
    CoresOkApart(cores, base);
    hide CoresOk, Full, InCore;
    TiledJoin(blocks, size, cores, p, succ);
    BalancedJoin(blocks, size, cores, p, succ);
    assert Blocks(free - {succ} + {p}, live - {p}, base) == blocks - {succ};
  }

  /** The freed block `p` joins the block above it when they touch. */
  lemma JoinAbove(free: set<int>, size: map<int, int>, live: set<int>, cores: seq<Core>, base: int,
                  p: int, q: int, succ: int)
    requires Stocked(free, size, live, cores, base) && p in live
    requires Neighbours(free, p, q, succ)
    ensures p in size && succ in size && size[p] > 0 && size[succ] >= 0
    ensures p + size[p] == succ ==>
      && succ != base
      && Laid(free - {succ} + {p}, size[p := size[p] + size[succ]], live - {p}, cores, base)
      && SparseBut(free - {succ} + {p}, size[p := size[p] + size[succ]], p)
    ensures p + size[p] != succ ==>
      && Laid(free + {p}, size, live - {p}, cores, base)
      && SparseBut(free + {p}, size, p)
      && !(p + size[p] > succ >= p)
  {
    assert p in Blocks(free, live, base) && (succ != base ==> succ in Blocks(free, live, base));
    assert succ in size && p in size && size[p] > 0 && size[succ] >= 0;
    NearestAbove(free, p, q, succ);
    assert succ in free && p !in free;
    hide CoresOk, Tiled, Neighbours, Sparse, SparseBut;
    forall b | b in free && b > p
      ensures p + size[p] <= b
    {
      ShortOf(free, size, live, cores, base, p, b);
    }
    SparseAbove(free, size, p, succ);
    if p + size[p] == succ {
      LaidAbove(free, size, live, cores, base, p, succ);
    } else {
      assert Blocks(free + {p}, live - {p}, base) == Blocks(free, live, base);
    }
  }

  lemma SparseBelow(free: set<int>, size: map<int, int>, p: int, q: int)
    requires SparseBut(free, size, p) && p in size && q in size && p in free && q in free && q != p
    requires forall a :: a in free && a < p ==> a <= q < p
    requires q < p ==> q + size[q] <= p
    ensures q + size[q] == p && size[q] > 0 ==> Sparse(free - {p}, size[q := size[q] + size[p]])
    ensures q + size[q] != p && (forall a :: a in free && a in size ==> size[a] >= 0) ==> Sparse(free, size)
  {
    if q + size[q] != p && (forall a :: a in free && a in size ==> size[a] >= 0) {
      forall a, b | a in free && b in free && a in size && a < b
        ensures a + size[a] < b
      {
        if b == p && a < q {
          assert a + size[a] < q;
        }
      }
    }
  }

  /** The freed block `p` joins the block below it when they touch. */
  lemma JoinBelow(free: set<int>, size: map<int, int>, live: set<int>, cores: seq<Core>, base: int, p: int, q: int)
    requires Laid(free, size, live, cores, base) && SparseBut(free, size, p)
    requires p in free && p != base && q in free && q != p
    requires forall a :: a in free && a < p ==> a <= q < p
    ensures p in size && q in size
    ensures q + size[q] == p ==>
      && q != base && size[q] > 0
      && Stocked(free - {p}, size[q := size[q] + size[p]], live, cores, base)
    ensures q + size[q] != p ==> Stocked(free, size, live, cores, base) && !(q + size[q] > p >= q)
  {
    var blocks := Blocks(free, live, base);
    ClearOfBase(free, size, live, cores, base, p);
    assert forall a :: a in free ==> a in size && (a != base ==> a in blocks && size[a] > 0);
    if q < p && q != base {
      ShortOf(free, size, live, cores, base, q, p);
    }
    hide CoresOk, Tiled, Laid;
    if q + size[q] == p {
      LaidBelow(free, size, live, cores, base, p, q);
    }
    SparseBelow(free, size, p, q);
  }

  lemma LaidBelow(free: set<int>, size: map<int, int>, live: set<int>, cores: seq<Core>, base: int, p: int, q: int)
    requires Laid(free, size, live, cores, base) && p in free && p != base && q in free && q != base && q != p
    requires p in size && q in size && q + size[q] == p
    ensures Laid(free - {p}, size[q := size[q] + size[p]], live, cores, base)
  {
    var blocks := Blocks(free, live, base);
    CoresOkApart(cores, base);
    hide CoresOk, Full, InCore;
    TiledJoin(blocks, size, cores, q, p);
    BalancedJoin(blocks, size, cores, q, p);
    assert Blocks(free - {p}, live, base) == blocks - {p};
  }

  /** A core from the parent becomes one live block, to be freed next. */
  lemma CoreJoins(free: set<int>, size: map<int, int>, live: set<int>, cores: seq<Core>, base: int, c: Core)
    requires Stocked(free, size, live, cores, base)
    requires c.size >= 2 && OffBase(c, base) && forall i :: 0 <= i < |cores| ==> Apart(c, cores[i])
    ensures c.at + 1 !in free && c.at + 1 !in live
    ensures Stocked(free, size[c.at + 1 := c.size - 1], live + {c.at + 1}, [c] + cores, base)
  {
    var blocks, p := Blocks(free, live, base), c.at + 1;
    TiledCore(blocks, size, cores, c);
    BalancedCore(blocks, size, cores, c);
    assert Blocks(free, live + {p}, base) == blocks + {p};
    assert CoresOk([c] + cores, base);
  }

  /** A free block of the wanted size becomes live. */
  lemma TakeWhole(free: set<int>, size: map<int, int>, live: set<int>, cores: seq<Core>, base: int, p: int)
    requires Stocked(free, size, live, cores, base) && p in free && p != base
    ensures Stocked(free - {p}, size, live + {p}, cores, base)
  {
    assert Blocks(free - {p}, live + {p}, base) == Blocks(free, live, base);
  }

  lemma SparseSplit(free: set<int>, size: map<int, int>, p: int, n: nat, r: int)
    requires Sparse(free, size) && p in free && p in size && r !in free
    ensures Sparse(free, size[p := size[p] - n][r := n])
  {
  }

  lemma LaidSplit(free: set<int>, size: map<int, int>, live: set<int>, cores: seq<Core>, base: int, p: int, n: nat, r: int)
    requires Laid(free, size, live, cores, base) && p in free && p != base
    requires p in size && 1 <= n < size[p] && r == p + size[p] - n
    ensures r !in free && r !in live
    ensures Laid(free, size[p := size[p] - n][r := n], live + {r}, cores, base)
  {
    var blocks := Blocks(free, live, base);
    assert forall b :: b in blocks ==> b in size;
    ClearOfBase(free, size, live, cores, base, p);
    hide CoresOk, Tiled;
    TiledSplit(blocks, size, cores, p, n, r);
    BalancedSplit(blocks, size, cores, p, n, r);
    assert Blocks(free, live + {r}, base) == blocks + {r};
  }

  /** The last `n` units of a larger free block, from `r` on, become live. */
  lemma TakeTail(free: set<int>, size: map<int, int>, live: set<int>, cores: seq<Core>, base: int, p: int, n: nat, r: int)
    requires Stocked(free, size, live, cores, base) && p in free
    requires p in size && 1 <= n < size[p] && r == p + size[p] - n
    ensures r !in free && r !in live
    ensures Stocked(free, size[p := size[p] - n][r := n], live + {r}, cores, base)
  {
    assert p != base;
    hide Laid, Sparse;
    LaidSplit(free, size, live, cores, base, p, n, r);
    SparseSplit(free, size, p, n, r);
  }

  // ---- the allocator -----------------------------------------------------------------

  datatype Option<T> = None | Some(value: T)

  /** What `km_stat` reports; all but the counts in bytes. */
  datatype Stat = Stat(available: int, nBlocks: nat, nCores: nat, capacity: int, largest: int)

  const HEADER := 16   // bytes in a unit
  const WORD := 8      // bytes of the size word in front of a live block

  /** Units asked of the parent for a block of `units` units. */
  function CoreSize(units: nat, minCore: nat): nat
    requires minCore > 0
  {
    (units + 1 + (minCore - 1)) / minCore * minCore
  }

  /** `size` is the least multiple of `minCore` with room for `units` units and the core's header. */
  ghost predicate LeastCore(size: int, units: nat, minCore: nat)
    requires minCore > 0
  {
    size % minCore == 0 && units + 1 <= size < units + 1 + minCore
  }

  lemma CoreSizeCovers(units: nat, minCore: nat)
    requires minCore > 0
    ensures LeastCore(CoreSize(units, minCore), units, minCore) && CoreSize(units, minCore) >= units + 1
  {
    var x := units + 1 + (minCore - 1);
    var q := x / minCore;
    assert x == q * minCore + x % minCore;
    MultipleMod(q, minCore);
  }

  /** Some region of `n` units is apart from all the cores and from the list head. */
  lemma {:induction false} RoomBeyond(cores: seq<Core>, base: int) returns (at: int)
    ensures at >= base + 2
    ensures forall i :: 0 <= i < |cores| ==> cores[i].at + cores[i].size <= at
  {
    if cores == [] {
      at := base + 2;
    } else {
      var rest := cores[1..];
      at := RoomBeyond(rest, base);
      assert forall i :: 1 <= i < |cores| ==> cores[i] == rest[i - 1];
      if at < cores[0].at + cores[0].size {
        at := cores[0].at + cores[0].size;
      }
    }
  }

  /** A region the parent may hand out: off the list head and apart from every core. */
  predicate Obtainable(c: Core, cores: seq<Core>, base: int) {
    OffBase(c, base) && forall i :: 0 <= i < |cores| ==> Apart(c, cores[i])
  }

  lemma SomeObtainable(cores: seq<Core>, base: int, n: nat)
    ensures exists at :: Obtainable(Core(at, n), cores, base)
  {
    var at := RoomBeyond(cores, base);
    assert Obtainable(Core(at, n), cores, base);
  }

  /** Least number of units that hold a size word and `nBytes` bytes. */
  function UnitsFor(nBytes: nat): (n: nat)
    ensures 16 * n >= 8 + nBytes > 16 * (n - 1)
  {
    (nBytes + WORD + HEADER - 1) / HEADER
  }

  ghost predicate NoneFits(free: set<int>, size: map<int, int>, n: nat) {
    forall f :: f in free && f in size ==> size[f] < n
  }

  lemma ObtainableApart(c: Core, cores: seq<Core>, base: int)
    requires Obtainable(c, cores, base)
    ensures OffBase(c, base) && forall i :: 0 <= i < |cores| ==> Apart(c, cores[i])
  {
  }

  lemma StockedAtFirst(size: map<int, int>, base: int)
    requires base in size && size[base] == 0
    ensures Stocked({base}, size, {}, [], base)
  {
    assert Blocks({base}, {}, base) == {};
  }

  ghost function Higher(free: set<int>, q: int): set<int> {
    set x | x in free && x > q
  }

  lemma LiveNotFree(free: set<int>, size: map<int, int>, live: set<int>, cores: seq<Core>, base: int, p: int)
    requires Laid(free, size, live, cores, base) && p in live
    ensures p !in free && p in size && size[p] >= 1 && base in free && p != base
  {
  }

  lemma InRing(free: set<int>, p: int, q: int, succ: int)
    requires Neighbours(free, p, q, succ)
    ensures q in free && succ in free && p !in free
  {
  }

  lemma LiveKept(free: set<int>, size: map<int, int>, live: set<int>, cores: seq<Core>, base: int)
    requires Laid(free, size, live, cores, base)
    ensures forall b :: b in live ==> b in size && b !in free && size[b] >= 1
  {
    assert forall b :: b in live ==> b in Blocks(free, live, base);
  }

  /** A block alone in the ring is the list head. */
  lemma NotAlone(free: set<int>, p: int, q: int, succ: int, base: int)
    requires Neighbours(free, p, q, succ) && base in free
    ensures q == succ ==> q == base
  {
  }

  /** `x` lies on the way around the ring from `h` to `p`, both left out. */
  predicate Passed(h: int, p: int, x: int) {
    if h < p then h < x < p else x > h || x < p
  }

  /** On the way around the ring from behind `h`, `p` is the first block of `n` units or more. */
  ghost predicate FirstFit(free: set<int>, size: map<int, int>, h: int, p: int, n: nat) {
    && p in free && p in size && size[p] >= n
    && forall x :: x in free && x in size && Passed(h, p, x) ==> size[x] < n
  }

  /** The walk from `h` has passed one more block after a step. */
  lemma PassedStep(free: set<int>, h: int, p: int, s: int)
    requires h in free && p in free && Follows(free, p, s) && p != h
    ensures forall x :: x in free ==> (Passed(h, s, x) <==> Passed(h, p, x) || x == p)
  {
  }

  lemma PassedFirst(free: set<int>, h: int, s: int)
    requires h in free && Follows(free, h, s)
    ensures forall x :: x in free ==> !Passed(h, s, x)
  {
  }

  ghost function Unpassed(free: set<int>, h: int, p: int): set<int> {
    set x | x in free && !Passed(h, p, x)
  }

  /** Back at `h`, every other block has been passed. */
  lemma PassedAll(free: set<int>, h: int)
    ensures forall x :: x in free ==> Passed(h, h, x) || x == h
  {
  }

  lemma UnpassedStep(free: set<int>, h: int, p: int, s: int)
    requires h in free && p in free && Follows(free, p, s) && p != h
    ensures Unpassed(free, h, s) < Unpassed(free, h, p)
  {
    PassedStep(free, h, p, s);
    assert p in Unpassed(free, h, p) && p !in Unpassed(free, h, s);
  }

  lemma FreeSized(free: set<int>, size: map<int, int>, live: set<int>, cores: seq<Core>, base: int, p: int)
    requires Stocked(free, size, live, cores, base) && p in free
    ensures p in size && size[p] >= 0 && (size[p] > 0 ==> p != base)
  {
  }

  lemma Smallest(free: set<int>, size: map<int, int>, live: set<int>, cores: seq<Core>, base: int)
    requires Stocked(free, size, live, cores, base)
    ensures base in free && base in size && size[base] == 0
  {
  }

  // ---- what lies in the blocks -----------------------------------------------------------

  /** The word of unit `u` is the same in both. */
  predicate SameWord(m: map<int, int>, m': map<int, int>, u: int) {
    if u in m then u in m' && m'[u] == m[u] else u !in m'
  }

  ghost predicate OnlyAt(m: map<int, int>, m': map<int, int>, at: set<int>) {
    forall u {:trigger SameWord(m, m', u)} :: u !in at ==> SameWord(m, m', u)
  }

  /** Block `b` still has its size and everything in it. */
  ghost predicate Kept(size: map<int, int>, ptr: map<int, int>, size': map<int, int>, ptr': map<int, int>, b: int) {
    && b in size && b in size' && size'[b] == size[b]
    && forall u {:trigger SameWord(size, size', u)} :: b <= u < b + size[b] ==> SameWord(size, size', u) && SameWord(ptr, ptr', u)
  }

  ghost predicate AllKept(blocks: set<int>, size: map<int, int>, ptr: map<int, int>, size': map<int, int>, ptr': map<int, int>) {
    forall b :: b in blocks ==> Kept(size, ptr, size', ptr', b)
  }

  /** The units `at` lie in none of the blocks. */
  ghost predicate Off(blocks: set<int>, size: map<int, int>, at: set<int>) {
    forall b, x :: b in blocks && x in at ==> b in size && (x < b || b + size[b] <= x)
  }

  lemma OffKept(blocks: set<int>, size: map<int, int>, ptr: map<int, int>, size': map<int, int>, ptr': map<int, int>, at: set<int>)
    requires Off(blocks, size, at) && OnlyAt(size, size', at) && OnlyAt(ptr, ptr', at)
    requires forall b :: b in blocks ==> b in size && size[b] >= 1
    ensures AllKept(blocks, size, ptr, size', ptr')
  {
    forall b | b in blocks
      ensures Kept(size, ptr, size', ptr', b)
    {
      assert SameWord(size, size', b);
      assert forall u {:trigger SameWord(size, size', u)} :: b <= u < b + size[b] ==> u !in at && SameWord(ptr, ptr', u);
    }
  }

  lemma KeptTwice(blocks: set<int>, size: map<int, int>, ptr: map<int, int>, size1: map<int, int>, ptr1: map<int, int>,
                  size2: map<int, int>, ptr2: map<int, int>)
    requires AllKept(blocks, size, ptr, size1, ptr1) && AllKept(blocks, size1, ptr1, size2, ptr2)
    ensures AllKept(blocks, size, ptr, size2, ptr2)
  {
    forall b | b in blocks
      ensures Kept(size, ptr, size2, ptr2, b)
    {
      assert Kept(size, ptr, size1, ptr1, b) && Kept(size1, ptr1, size2, ptr2, b);
      forall u | b <= u < b + size[b]
        ensures SameWord(size, size2, u) && SameWord(ptr, ptr2, u)
      {
        assert SameWord(size, size1, u) && SameWord(size1, size2, u);
      }
    }
  }

  lemma KeptSelf(blocks: set<int>, size: map<int, int>, ptr: map<int, int>)
    requires forall b :: b in blocks ==> b in size
    ensures AllKept(blocks, size, ptr, size, ptr)
  {
    forall b | b in blocks
      ensures Kept(size, ptr, size, ptr, b)
    {
      forall u | b <= u < b + size[b]
        ensures SameWord(size, size, u) && SameWord(ptr, ptr, u)
      {
      }
    }
  }

  lemma KeptFewer(blocks: set<int>, fewer: set<int>, size: map<int, int>, ptr: map<int, int>, size': map<int, int>, ptr': map<int, int>)
    requires AllKept(blocks, size, ptr, size', ptr') && fewer <= blocks
    ensures AllKept(fewer, size, ptr, size', ptr')
  {
  }

  /** The header of a block, or of the list head, lies in no other block. */
  lemma HeaderOff(free: set<int>, size: map<int, int>, live: set<int>, cores: seq<Core>, base: int, x: int, blocks: set<int>)
    requires Laid(free, size, live, cores, base) && x in free + live && blocks <= live - {x}
    ensures Off(blocks, size, {x})
  {
    forall b | b in blocks
      ensures b in size && (x < b || b + size[b] <= x)
    {
      ClearOfBase(free, size, live, cores, base, b);
    }
  }

  /** Nor does any unit of a free block. */
  lemma FreeOff(free: set<int>, size: map<int, int>, live: set<int>, cores: seq<Core>, base: int, p: int, x: int)
    requires Laid(free, size, live, cores, base) && p in free && p != base && p in size && p <= x < p + size[p]
    ensures Off(live, size, {x})
  {
    forall b | b in live
      ensures b in size && (x < b || b + size[b] <= x)
    {
      ClearOfBase(free, size, live, cores, base, b);
    }
  }

  /** Nor any unit of a new core. */
  lemma CoreOff(free: set<int>, size: map<int, int>, live: set<int>, cores: seq<Core>, base: int, c: Core, x: int)
    requires Laid(free, size, live, cores, base) && forall i :: 0 <= i < |cores| ==> Apart(c, cores[i])
    requires c.at <= x < c.at + c.size
    ensures Off(live, size, {x})
  {
    forall b | b in live
      ensures b in size && (x < b || b + size[b] <= x)
    {
      assert b in Blocks(free, live, base);
      var i :| 0 <= i < |cores| && Within(b, size[b], cores[i]);
      assert Apart(c, cores[i]);
    }
  }

  /** Nor does any unit of another live block. */
  lemma LiveOff(free: set<int>, size: map<int, int>, live: set<int>, cores: seq<Core>, base: int, p: int, x: int)
    requires Laid(free, size, live, cores, base) && p in live && p in size && p < x < p + size[p]
    ensures Off(free + live - {p}, size, {x}) && x !in free && x !in live
  {
    var blocks := Blocks(free, live, base);
    assert p in blocks;
    forall b | b in free + live - {p}
      ensures b in size && (x < b || b + size[b] <= x) && x != b
    {
      if b == base {
        ClearOfBase(free, size, live, cores, base, p);
      } else {
        assert b in blocks;
      }
    }
  }

  lemma OffUnion(blocks: set<int>, size: map<int, int>, x: int, y: int)
    requires Off(blocks, size, {x}) && Off(blocks, size, {y})
    ensures Off(blocks, size, {x, y})
  {
  }

  lemma ChangedAt(m: map<int, int>, m': map<int, int>, x: int, y: int)
    requires forall u :: u !in {x, y} ==> (u in m <==> u in m') && (u in m ==> m'[u] == m[u])
    ensures OnlyAt(m, m', {x, y})
  {
  }

  /** Freeing `p` writes to its own header and to that of its neighbour `q` alone. */
  lemma FreeKeeps(free: set<int>, size: map<int, int>, ptr: map<int, int>, live: set<int>, cores: seq<Core>, base: int,
                  p: int, q: int, size': map<int, int>, ptr': map<int, int>)
    requires Laid(free, size, live, cores, base) && p in live && q in free
    requires forall u :: u != p && u != q ==> (u in size <==> u in size') && (u in size ==> size'[u] == size[u])
    requires forall u :: u != p && u != q ==> (u in ptr <==> u in ptr') && (u in ptr ==> ptr'[u] == ptr[u])
    ensures AllKept(live - {p}, size, ptr, size', ptr')
  {
    LiveKept(free, size, live, cores, base);
    HeaderOff(free, size, live, cores, base, p, live - {p});
    HeaderOff(free, size, live, cores, base, q, live - {p});
    OffUnion(live - {p}, size, p, q);
    ChangedAt(size, size', p, q);
    ChangedAt(ptr, ptr', p, q);
    OffKept(live - {p}, size, ptr, size', ptr', {p, q});
  }

  lemma KeptNone(blocks: set<int>, size: map<int, int>, ptr: map<int, int>, size': map<int, int>, ptr': map<int, int>)
    requires blocks == {}
    ensures AllKept(blocks, size, ptr, size', ptr')
  {
  }

  /** Word `k` behind the size word of block `b`, if it has been written. */
  function Word(size: map<int, int>, ptr: map<int, int>, b: int, k: nat): Option<int> {
    var m, u := if k % 2 == 0 then ptr else size, b + (k + 1) / 2;
    if u in m then Some(m[u]) else None
  }

  /** What a block holds for its owner: all of its words but the first. */
  function Payload(size: map<int, int>, ptr: map<int, int>, b: int): (words: seq<Option<int>>)
    requires b in size && size[b] >= 1
    ensures |words| == 2 * size[b] - 1
  {
    seq(2 * size[b] - 1, k requires 0 <= k < 2 * size[b] - 1 => Word(size, ptr, b, k))
  }

  lemma PayloadWord(size: map<int, int>, ptr: map<int, int>, b: int, k: nat)
    requires b in size && size[b] >= 1 && k < 2 * size[b] - 1
    ensures Payload(size, ptr, b)[k] == Word(size, ptr, b, k)
  {
  }

  lemma KeptPayload(blocks: set<int>, size: map<int, int>, ptr: map<int, int>, size': map<int, int>, ptr': map<int, int>, b: int)
    requires AllKept(blocks, size, ptr, size', ptr') && b in blocks && b in size && size[b] >= 1
    ensures b in size' && size'[b] == size[b] && Payload(size', ptr', b) == Payload(size, ptr, b)
  {
    assert Kept(size, ptr, size', ptr', b);
    forall k | 0 <= k < 2 * size[b] - 1
      ensures Word(size', ptr', b, k) == Word(size, ptr, b, k)
    {
      assert SameWord(size, size', b + (k + 1) / 2);
    }
  }

  function Put(m: map<int, int>, u: int, w: Option<int>): map<int, int> {
    match w
    case None => m - {u}
    case Some(x) => m[u := x]
  }

  lemma PutOnly(m: map<int, int>, u: int, w: Option<int>)
    ensures OnlyAt(m, Put(m, u, w), {u}) && OnlyAt(m, m, {u})
  {
  }

  /** One word of a live block is written: its other words stay, and so does the rest of the heap. */
  lemma PayloadPut(free: set<int>, size: map<int, int>, ptr: map<int, int>, live: set<int>, cores: seq<Core>, base: int,
                   b: int, k: nat, w: Option<int>, size': map<int, int>, ptr': map<int, int>)
    requires Stocked(free, size, live, cores, base) && b in live && b in size && size[b] >= 1 && k < 2 * size[b] - 1
    requires Ring(free, ptr)
    requires var u := b + (k + 1) / 2;
      if k % 2 == 0 then size' == size && ptr' == Put(ptr, u, w) else size' == Put(size, u, w) && ptr' == ptr
    ensures b in size' && size'[b] == size[b] && Payload(size', ptr', b) == Payload(size, ptr, b)[k := w]
    ensures AllKept(live - {b}, size, ptr, size', ptr')
    ensures Stocked(free, size', live, cores, base) && Ring(free, ptr')
  {
    var u := b + (k + 1) / 2;
    LiveKept(free, size, live, cores, base);
    PutOnly(size, u, w);
    PutOnly(ptr, u, w);
    PayloadOff(free, size, live, cores, base, b, u);
    OffKept(live - {b}, size, ptr, size', ptr', {u});
    PayloadAt(size, ptr, size', ptr', b, k, w);
    SizesSame(free, size, live, cores, base, b, u, size');
    StockedSame(free, size, live, cores, base, size');
    RingFrame(free, ptr, ptr') by {
      assert u !in free || u == b;
      LiveNotFree(free, size, live, cores, base, b);
    }
  }

  lemma PayloadOff(free: set<int>, size: map<int, int>, live: set<int>, cores: seq<Core>, base: int, b: int, u: int)
    requires Laid(free, size, live, cores, base) && b in live && b in size && b <= u < b + size[b]
    ensures Off(live - {b}, size, {u}) && (u != b ==> u !in free + live)
  {
    if u == b {
      HeaderOff(free, size, live, cores, base, b, live - {b});
    } else {
      LiveOff(free, size, live, cores, base, b, u);
    }
  }

  lemma PayloadAt(size: map<int, int>, ptr: map<int, int>, size': map<int, int>, ptr': map<int, int>, b: int, k: nat, w: Option<int>)
    requires b in size && size[b] >= 1 && k < 2 * size[b] - 1
    requires var u := b + (k + 1) / 2;
      if k % 2 == 0 then size' == size && ptr' == Put(ptr, u, w) else size' == Put(size, u, w) && ptr' == ptr
    ensures b in size' && size'[b] == size[b] && Payload(size', ptr', b) == Payload(size, ptr, b)[k := w]
  {
    forall j | 0 <= j < 2 * size[b] - 1
      ensures Word(size', ptr', b, j) == if j == k then w else Word(size, ptr, b, j)
    {
      assert j % 2 == k % 2 && (j + 1) / 2 == (k + 1) / 2 ==> j == k;
    }
  }

  lemma SizesSame(free: set<int>, size: map<int, int>, live: set<int>, cores: seq<Core>, base: int, b: int, u: int, size': map<int, int>)
    requires Laid(free, size, live, cores, base) && b in live && b in size && u !in free + live - {b}
    requires OnlyAt(size, size', {u}) && b in size' && size'[b] == size[b]
    ensures forall x :: x in free + live ==> SameWord(size, size', x)
  {
  }

  /** Only the sizes of blocks matter. */
  lemma StockedSame(free: set<int>, size: map<int, int>, live: set<int>, cores: seq<Core>, base: int, size': map<int, int>)
    requires Stocked(free, size, live, cores, base) && forall x :: x in free + live ==> SameWord(size, size', x)
    ensures Stocked(free, size', live, cores, base)
  {
    var blocks := Blocks(free, live, base);
    assert forall x :: x in blocks ==> x in free + live;
    LaidSizes(free, size, live, cores, base);
    assert forall x :: x in free + live ==> x in size && x in size' && size'[x] == size[x];
    TotalSame(blocks, size, size');
    TiledSame(blocks, size, size', cores);
  }

  lemma LaidSizes(free: set<int>, size: map<int, int>, live: set<int>, cores: seq<Core>, base: int)
    requires Laid(free, size, live, cores, base)
    ensures forall x :: x in free + live ==> x in size
  {
    assert forall x :: x in free + live ==> x == base || x in Blocks(free, live, base);
  }

  lemma TiledSame(blocks: set<int>, size: map<int, int>, size': map<int, int>, cores: seq<Core>)
    requires Tiled(blocks, size, cores) && forall b :: b in blocks ==> b in size && b in size' && size'[b] == size[b]
    ensures Tiled(blocks, size', cores)
  {
    forall i, u | 0 <= i < |cores| && Within(u, 1, cores[i])
      ensures Covered(blocks, size', u)
    {
      assert Covered(blocks, size, u);
      var b :| b in blocks && b in size && Covers(b, size[b], u);
      assert b in size' && Covers(b, size'[b], u);
    }
  }

  /** Units are two words. A map cannot say which of its words belong to headers: `free` and `live` do. */
  class Allocator {
    const minCore: nat            // least number of units asked of the parent
    const base: int               // the block of no unit that stays in the ring
    var size: map<int, int>       // first word of a unit, by address: the size in a header
    var ptr: map<int, int>        // second word of a unit, by address: the link in the header of a free block
    var loopHead: Option<int>
    var cores: seq<Core>          // newest first
    ghost var free: set<int>
    ghost var live: set<int>

    ghost predicate Ready()
      reads this
    {
      && minCore > 0
      && loopHead.Some? && loopHead.value in free
      && Ring(free, ptr)
      && Stocked(free, size, live, cores, base)
    }

    ghost predicate Valid()
      reads this
    {
      && minCore > 0
      && (loopHead.None? ==> cores == [] && live == {} && base in size && size[base] == 0)
      && (loopHead.Some? ==> Ready())
    }

    /** `km_init2`; `parent` is the least core size of the parent allocator, if there is one. */
    constructor (parent: Option<nat>, minCoreSize: nat, base: int)
      requires minCoreSize == 0 && parent.Some? ==> parent.value > 2
      ensures Valid() && live == {} && cores == [] && this.base == base
      ensures minCore == if minCoreSize > 0 then minCoreSize else if parent.Some? then parent.value - 2 else 524288
    {
      minCore := if minCoreSize > 0 then minCoreSize else if parent.Some? then parent.value - 2 else 0x80000;
      this.base := base;
      size, ptr := map[base := 0], map[];
      loopHead, cores := None, [];
      free, live := {}, {};
    }

    /** The search loop of `kfree`: the neighbour below, or the highest block when there is none. */
    method FindNeighbour(p: int) returns (q: int)
      requires Ready() && p !in free
      ensures q in ptr && Neighbours(free, p, q, ptr[q])
    {
      hide Stocked;
      q := loopHead.value;
      assert Points(free, ptr, q);
      while !(p > q && p < ptr[q])
        invariant q in free && q in ptr && Follows(free, q, ptr[q])
        decreases q > p, Higher(free, q)
      {
        if q >= ptr[q] && (p > q || p < ptr[q]) {
          break;
        }
        ghost var was := q;
        q := ptr[q];
        assert Points(free, ptr, q);
        if q > was {
          assert q in Higher(free, was) && q !in Higher(free, q);
          assert Higher(free, q) < Higher(free, was);
        }
      }
    }

    /** `kfree`: block `p` returns to the ring, joined with the free blocks it touches. */
    method Kfree(p: int)
      requires Ready() && p in live
      modifies this
      ensures Ready() && live == old(live) - {p} && cores == old(cores)
      ensures AllKept(live, old(size), old(ptr), size, ptr)
      ensures loopHead.value in size && p in old(size)
      ensures loopHead.value <= p && p + old(size[p]) <= loopHead.value + size[loopHead.value]
    {
      hide Laid, Sparse, SparseBut, Ring, Follows, Neighbours, AllKept, Off, OnlyAt;
      LiveNotFree(free, size, live, cores, base, p);
      var q := FindNeighbour(p);
      var succ := ptr[q];
      ghost var above := p + size[p] == succ;
      InRing(free, p, q, succ);
      RingNext(free, ptr, q);
      FreeSized(free, size, live, cores, base, q);
      JoinAbove(free, size, live, cores, base, p, q, succ);
      NearestBelow(free, p, q, succ);
      NotAlone(free, p, q, succ, base);
      live, free := live - {p}, if above then free - {succ} + {p} else free + {p};
      if p + size[p] == succ {
        size := size[p := size[p] + size[succ]];
        ptr := ptr[p := ptr[succ]];
      } else if p + size[p] > succ && succ >= p {
        assert false;
      } else {
        ptr := ptr[p := succ];
      }
      ghost var below := q + size[q] == p;
      RingAfterFree(old(free), old(ptr), p, q, succ, above, below, free, ptr);
      JoinLower(p, q);
      FreeKeeps(old(free), old(size), old(ptr), old(live), cores, base, p, q, size, ptr);
    }

    /** The second half of `kfree`: free block `p` joins the free block `q` before it, or is linked behind it. */
    method JoinLower(p: int, q: int)
      requires minCore > 0 && Laid(free, size, live, cores, base) && SparseBut(free, size, p)
      requires p in free && p != base && q in free && q != p && p in ptr
      requires forall a :: a in free && a < p ==> a <= q < p
      requires p in size && q in size && size[p] >= 0
      requires var below := q + size[q] == p;
        Ring(if below then free - {p} else free, ptr[q := if below then ptr[p] else p])
      modifies this
      ensures Ready() && live == old(live) && cores == old(cores)
      ensures loopHead.value in size && loopHead.value <= p && p + old(size[p]) <= loopHead.value + size[loopHead.value]
      ensures forall u :: u != q ==> (u in size <==> u in old(size)) && (u in size ==> old(size[u]) == size[u])
      ensures forall u :: u != q ==> (u in ptr <==> u in old(ptr)) && (u in ptr ==> old(ptr[u]) == ptr[u])
    {
      hide Laid, Sparse, SparseBut, Ring;
      JoinBelow(free, size, live, cores, base, p, q);
      if q + size[q] == p {
        size := size[q := size[q] + size[p]];
        ptr := ptr[q := ptr[p]];
        loopHead := Some(q);
        free := free - {p};
      } else if q + size[q] > p && p >= q {
        assert false;
      } else {
        loopHead := Some(p);
        ptr := ptr[q := p];
      }
    }

    /** `morecore`: a core for at least `nu` units, taken at any address the parent may return. */
    method MoreCore(nu: nat) returns (q: int)
      requires Ready() && nu > 0
      modifies this
      ensures Ready() && live == old(live) && loopHead == Some(q)
      ensures AllKept(live, old(size), old(ptr), size, ptr)
      ensures q in size && size[q] >= nu
      ensures |cores| == |old(cores)| + 1 && cores[1..] == old(cores)
      ensures LeastCore(cores[0].size, nu, minCore) && Obtainable(cores[0], old(cores), base)
    {
      hide Laid, Sparse, Ring, Obtainable, AllKept, Off, OnlyAt, LeastCore, CoreSize;
      var n := CoreSize(nu, minCore);
      CoreSizeCovers(nu, minCore);
      SomeObtainable(cores, base, n);
      var at :| Obtainable(Core(at, n), cores, base);
      var core := Core(at, n);
      ObtainableApart(core, cores, base);
      CoreJoins(free, size, live, cores, base, core);
      LiveKept(free, size, live, cores, base);
      CoreOff(free, size, live, cores, base, core, at + 1);
      ghost var before := size;
      cores := [core] + cores;
      size := size[at + 1 := n - 1];
      live := live + {at + 1};
      PutOnly(before, at + 1, Some(n - 1));
      PutOnly(ptr, at + 1, None);
      OffKept(live - {at + 1}, before, ptr, size, ptr, {at + 1});
      ghost var between := size;
      Kfree(at + 1);
      KeptTwice(live, before, old(ptr), between, old(ptr), size, ptr);
      q := loopHead.value;
    }

    /** The first call sets up the ring with the list head alone. */
    method Begin()
      requires Valid() && loopHead.None?
      modifies this
      ensures Ready() && live == {} && cores == [] && size == old(size) && free == {base}
    {
      loopHead := Some(base);
      ptr := ptr[base := base];
      free := {base};
      StockedAtFirst(size, base);
      assert Ring(free, ptr);
    }

    /** The search loop of `kmalloc`, which asks for a core when it has been all the way around. */
    method FindFit(n: nat) returns (q: int, p: int)
      requires Ready() && n > 0
      modifies this
      ensures Ready() && live == old(live)
      ensures q in free && q in ptr && ptr[q] == p && FirstFit(free, size, loopHead.value, p, n)
      ensures AllKept(live, old(size), old(ptr), size, ptr)
      ensures cores == old(cores) ==> unchanged(this)
      ensures cores == old(cores) || (cores != [] && cores[1..] == old(cores)
                                      && LeastCore(cores[0].size, n, minCore) && NoneFits(old(free), old(size), n))
    {
      hide Laid, Sparse, Ring, Passed, Follows, AllKept;
      LiveKept(free, size, live, cores, base);
      KeptSelf(live, size, ptr);
      q := loopHead.value;
      RingNext(free, ptr, q);
      PassedFirst(free, q, ptr[q]);
      p := ptr[q];
      ghost var grown := false;
      FreeSized(free, size, live, cores, base, p);
      FreeSized(free, size, live, cores, base, q);
      while !(size[p] >= n)
        invariant Ready() && live == old(live)
        invariant q in free && p in free && q in ptr && ptr[q] == p && p in size && loopHead.value in size
        invariant AllKept(live, old(size), old(ptr), size, ptr)
        invariant forall x :: x in free && x in size && Passed(loopHead.value, p, x) ==> size[x] < n
        invariant !grown ==> unchanged(this)
        invariant grown ==> cores != [] && cores[1..] == old(cores)
                            && LeastCore(cores[0].size, n, minCore) && NoneFits(old(free), old(size), n)
        invariant grown ==> size[loopHead.value] >= n
        decreases !grown, Unpassed(free, loopHead.value, p)
      {
        RingNext(free, ptr, p);
        if p == loopHead.value {
          PassedAll(free, p);
          ghost var size0, ptr0 := size, ptr;
          p := MoreCore(n);
          KeptTwice(live, old(size), old(ptr), size0, ptr0, size, ptr);
          grown := true;
          RingNext(free, ptr, p);
          PassedFirst(free, p, ptr[p]);
        } else {
          PassedStep(free, loopHead.value, p, ptr[p]);
          UnpassedStep(free, loopHead.value, p, ptr[p]);
        }
        q, p := p, ptr[p];
        FreeSized(free, size, live, cores, base, p);
      }
    }

    /** Free block `p` behind `q` gives up its last `n` units, or all it has. */
    method Take(q: int, p: int, n: nat) returns (r: int)
      requires Ready() && n > 0
      requires q in free && p in free && q in ptr && ptr[q] == p && p in size && size[p] >= n
      modifies this
      ensures Ready() && cores == old(cores)
      ensures r !in old(live) && live == old(live) + {r} && r in size && size[r] == n
      ensures p in old(size) && r + n == p + old(size[p]) && loopHead == Some(q)
      ensures AllKept(old(live), old(size), old(ptr), size, ptr)
    {
      hide Laid, Sparse, Ring, AllKept, Off, OnlyAt;
      LiveKept(free, size, live, cores, base);
      FreeSized(free, size, live, cores, base, p);
      RingNext(free, ptr, q);
      RingNext(free, ptr, p);
      Smallest(free, size, live, cores, base);
      assert p != q;
      if size[p] == n {
        RingDrop(free, ptr, q, p);
        TakeWhole(free, size, live, cores, base, p);
        HeaderOff(free, size, live, cores, base, q, live);
        PutOnly(ptr, q, Some(ptr[p]));
        PutOnly(size, q, None);
        OffKept(live, size, ptr, size, ptr[q := ptr[p]], {q});
        ptr := ptr[q := ptr[p]];
        free := free - {p};
        r := p;
      } else {
        r := p + size[p] - n;
        TakeTail(free, size, live, cores, base, p, n, r);
        FreeOff(free, size, live, cores, base, p, p);
        FreeOff(free, size, live, cores, base, p, r);
        OffUnion(live, size, p, r);
        ChangedAt(size, size[p := size[p] - n][r := n], p, r);
        ChangedAt(ptr, ptr, p, r);
        OffKept(live, size, ptr, size[p := size[p] - n][r := n], ptr, {p, r});
        size := size[p := size[p] - n];
        size := size[r := n];
      }
      live := live + {r};
      loopHead := Some(q);
    }

    /** `kmalloc`: first fit from the block after `loopHead`; the tail of a larger block is taken. */
    method Kmalloc(nBytes: nat) returns (r: Option<int>)
      requires Valid()
      modifies this
      ensures Valid()
      ensures nBytes == 0 ==> r.None? && unchanged(this)
      ensures nBytes > 0 ==>
        && r.Some? && Ready() && r.value !in old(live) && live == old(live) + {r.value}
        && r.value in size && size[r.value] == UnitsFor(nBytes)
      ensures AllKept(old(live), old(size), old(ptr), size, ptr)
      ensures cores == old(cores) || (cores != [] && cores[1..] == old(cores)
                                      && LeastCore(cores[0].size, UnitsFor(nBytes), minCore)
                                      && NoneFits(old(FreeBlocks()), old(size), UnitsFor(nBytes)))
      ensures nBytes > 0 && cores == old(cores) ==>
        && old(loopHead).Some? && loopHead.value in old(ptr)
        && var p := old(ptr)[loopHead.value];
          && FirstFit(old(free), old(size), old(loopHead).value, p, UnitsFor(nBytes))
          && r.value + UnitsFor(nBytes) == p + old(size)[p]
    {
      hide Laid, Sparse, Ring, AllKept;
      if loopHead.Some? {
        LiveKept(free, size, live, cores, base);
      }
      KeptSelf(live, size, ptr);
      if nBytes == 0 {
        return None;
      }
      var n := UnitsFor(nBytes);
      if loopHead.None? {
        Begin();
        KeptNone(old(live), old(size), old(ptr), size, ptr);
      }
      ghost var size0, ptr0 := size, ptr;
      var q, p := FindFit(n);
      KeptTwice(live, old(size), old(ptr), size0, ptr0, size, ptr);
      ghost var size1, ptr1 := size, ptr;
      var b := Take(q, p, n);
      KeptTwice(old(live), old(size), old(ptr), size1, ptr1, size, ptr);
      r := Some(b);
    }

    ghost function FreeBlocks(): set<int>
      reads this
    {
      if loopHead.Some? then free else {}
    }

    /** The owner of live block `b` writes word `k` of it; what `memcpy` copies may also be a word not written yet. */
    method Write(b: int, k: nat, w: Option<int>)
      requires Ready() && b in live && b in size && k < 2 * size[b] - 1
      modifies this`size, this`ptr
      ensures Ready() && b in size && b in old(size) && size[b] == old(size[b]) >= 1
      ensures Payload(size, ptr, b) == old(Payload(size, ptr, b))[k := w]
      ensures AllKept(live - {b}, old(size), old(ptr), size, ptr)
    {
      hide Laid, Sparse, Ring, AllKept, Payload, Put;
      LiveKept(free, size, live, cores, base);
      ghost var u := b + (k + 1) / 2;
      if k % 2 == 0 {
        PayloadPut(free, size, ptr, live, cores, base, b, k, w, size, Put(ptr, u, w));
        ptr := Put(ptr, b + (k + 1) / 2, w);
      } else {
        PayloadPut(free, size, ptr, live, cores, base, b, k, w, Put(size, u, w), ptr);
        size := Put(size, b + (k + 1) / 2, w);
      }
    }

    /** `memcpy` of the first `n` words of live block `from` to live block `to`. */
    method CopyWords(to: int, from: int, n: nat)
      requires Ready() && from in live && to in live && from != to && from in size && to in size
      requires n <= 2 * size[from] - 1 && n <= 2 * size[to] - 1
      modifies this`size, this`ptr
      ensures Ready() && to in size && to in old(size) && size[to] == old(size[to]) >= 1
      ensures from in old(size) && old(size[from]) >= 1
      ensures Payload(size, ptr, to)[..n] == old(Payload(size, ptr, from))[..n]
      ensures AllKept(live - {to}, old(size), old(ptr), size, ptr)
    {
      hide Laid, Sparse, Ring, AllKept, Payload, Word;
      LiveKept(free, size, live, cores, base);
      KeptSelf(live - {to}, size, ptr);
      ghost var source := Payload(size, ptr, from);
      var k := 0;
      while k < n
        invariant 0 <= k <= n && Ready() && to in size && size[to] == old(size[to])
        invariant AllKept(live - {to}, old(size), old(ptr), size, ptr)
        invariant Payload(size, ptr, to)[..k] == source[..k]
      {
        KeptPayload(live - {to}, old(size), old(ptr), size, ptr, from);
        PayloadWord(size, ptr, from, k);
        ghost var size0, ptr0, words := size, ptr, Payload(size, ptr, to);
        Write(to, k, Word(size, ptr, from, k));
        KeptTwice(live - {to}, old(size), old(ptr), size0, ptr0, size, ptr);
        assert words[k := source[k]][..k + 1] == words[..k] + [source[k]];
        assert source[..k + 1] == source[..k] + [source[k]];
        k := k + 1;
      }
    }

    /** `krealloc`: a block that is large enough stays, even when it could shrink; otherwise its contents move to a larger one. */
    method Krealloc(ap: Option<int>, nBytes: nat) returns (r: Option<int>)
      requires Valid() && (ap.Some? ==> ap.value in live)
      modifies this
      ensures Valid() && r.Some? == (nBytes > 0)
      ensures r.Some? ==> r.value in size && 16 * size[r.value] >= 8 + nBytes
      ensures r.Some? && r != ap ==> r.value in size && 8 + nBytes > 16 * (size[r.value] - 1)
      ensures live == old(live) - (if ap.Some? then {ap.value} else {}) + (if r.Some? then {r.value} else {})
      ensures r.Some? ==> r == ap || r.value !in old(live)
      ensures r == ap <==> (nBytes == 0 && ap.None?)
                           || (nBytes > 0 && ap.Some? && ap.value in old(size)
                               && 16 * old(size[ap.value]) >= 8 + nBytes)
      ensures r == ap ==> unchanged(this)
      ensures AllKept(old(live) - (if ap.Some? then {ap.value} else {}), old(size), old(ptr), size, ptr)
      ensures r.Some? && ap.Some? ==>
        && ap.value in old(size) && old(size[ap.value]) >= 1
        && old(Payload(size, ptr, ap.value)) <= Payload(size, ptr, r.value)
    {
      hide Laid, Sparse, Ring, AllKept, Payload;
      if loopHead.Some? {
        LiveKept(free, size, live, cores, base);
      }
      KeptSelf(live, size, ptr);
      if nBytes == 0 {
        if ap.Some? {
          Kfree(ap.value);
        }
        assert ap.None? ==> old(live) - {} == live;
        return None;
      }
      if ap.None? {
        r := Kmalloc(nBytes);
        return;
      }
      KeptFewer(live, live - {ap.value}, size, ptr, size, ptr);
      var cap := size[ap.value] * HEADER - WORD;
      if cap >= nBytes {
        return ap;
      }
      var b := Move(ap.value, nBytes);
      r := Some(b);
    }

    /** The last part of `krealloc`: a new block, the contents copied to it, and the old one freed. */
    method Move(a: int, nBytes: nat) returns (b: int)
      requires Ready() && a in live && a in size && size[a] >= 1 && 0 < nBytes && HEADER * size[a] < WORD + nBytes
      modifies this
      ensures Ready() && b !in old(live) && live == old(live) - {a} + {b}
      ensures b in size && size[b] == UnitsFor(nBytes) && HEADER * size[b] >= WORD + nBytes && size[b] >= 1
      ensures AllKept(old(live) - {a}, old(size), old(ptr), size, ptr)
      ensures old(Payload(size, ptr, a)) <= Payload(size, ptr, b)
    {
      hide Laid, Sparse, Ring, AllKept, Payload;
      ghost var others := live - {a};
      var r := Kmalloc(nBytes);
      b := r.value;
      ghost var size1, ptr1 := size, ptr;
      KeptPayload(old(live), old(size), old(ptr), size, ptr, a);
      KeptFewer(old(live), others, old(size), old(ptr), size, ptr);
      var n := 2 * size[a] - 1;
      CopyWords(b, a, n);
      KeptFewer(live - {b}, others, size1, ptr1, size, ptr);
      KeptTwice(others, old(size), old(ptr), size1, ptr1, size, ptr);
      ghost var size2, ptr2 := size, ptr;
      Kfree(a);
      KeptPayload(live, size2, ptr2, size, ptr, b);
      KeptFewer(live, others, size2, ptr2, size, ptr);
      KeptTwice(others, old(size), old(ptr), size2, ptr2, size, ptr);
    }

    /** `km_stat`: sums over the ring and over the list of cores. */
    method KmStat() returns (s: Stat)
      requires Valid()
      ensures loopHead.None? ==> s == Stat(0, 0, 0, 0, 0)
      ensures loopHead.Some? ==>
        && SizesKnown(free, size, live)
        && s.available == 16 * Total(free, size)
        && s.available + 16 * Total(live, size) + 16 * s.nCores == s.capacity
        && s.nBlocks + 1 == |free| && s.nCores == |cores| && s.capacity == 16 * Units(cores)
      ensures forall i :: 0 <= i < |cores| ==> 16 * cores[i].size <= s.largest
      ensures cores != [] ==> exists i :: 0 <= i < |cores| && 16 * cores[i].size == s.largest
    {
      hide Laid, Sparse, Ring;
      if loopHead.None? {
        return Stat(0, 0, 0, 0, 0);
      }
      Conservation(free, size, live, cores, base);
      var available, nBlocks := StatFree();
      var nCores, capacity, largest := 0, 0, 0;
      while nCores < |cores|
        invariant 0 <= nCores <= |cores|
        invariant capacity + HEADER * Units(cores[nCores..]) == HEADER * Units(cores)
        invariant forall i :: 0 <= i < nCores ==> HEADER * cores[i].size <= largest
        invariant if nCores == 0 then largest == 0 else exists i :: 0 <= i < nCores && HEADER * cores[i].size == largest
      {
        var bytes := HEADER * cores[nCores].size;
        assert cores[nCores..][1..] == cores[nCores + 1..];
        capacity := capacity + bytes;
        largest := if largest > bytes then largest else bytes;
        nCores := nCores + 1;
      }
      s := Stat(available, nBlocks, nCores, capacity, largest);
    }

    method StatFree() returns (available: int, nBlocks: nat)
      requires Ready()
      ensures SizesKnown(free, size, live)
      ensures available == HEADER * Total(free, size) && nBlocks + 1 == |free|
    {
      hide Laid, Sparse, Ring, Follows, Seen;
      Conservation(free, size, live, cores, base);
      Smallest(free, size, live, cores, base);
      available, nBlocks := 0, 0;
      var p := loopHead.value;
      ghost var h, seen: set<int> := p, {};
      while true
        invariant p in free && seen <= free
        invariant p == h ==> seen == {}
        invariant p != h ==> Seen(free, h, p, seen)
        invariant loopHead.value == h && forall x :: x in seen ==> x in size
        invariant available == HEADER * Total(seen, size)
        invariant nBlocks == |seen - {base}|
        decreases free - seen
      {
        RingNext(free, ptr, p);
        FreeSized(free, size, live, cores, base, p);
        VisitStep(free, h, p, ptr[p], seen);
        TotalVisit(seen, size, p);
        available := available + size[p] * HEADER;
        CountVisit(free, size, live, cores, base, p, seen);
        if size[p] != 0 {
          nBlocks := nBlocks + 1;
        }
        FreeApart(free, size, live, cores, base, p, ptr[p]);
        if ptr[p] > p && p + size[p] > ptr[p] {
          assert false;
        }
        seen := seen + {p};
        if ptr[p] == loopHead.value {
          break;
        }
        p := ptr[p];
      }
    }
  }

  // ---- consequences -------------------------------------------------------------------

  ghost predicate SizesKnown(free: set<int>, size: map<int, int>, live: set<int>) {
    forall b :: b in free || b in live ==> b in size
  }

  /** Free units, live units and one header unit per core make up the cores. */
  lemma Conservation(free: set<int>, size: map<int, int>, live: set<int>, cores: seq<Core>, base: int)
    requires Laid(free, size, live, cores, base)
    ensures SizesKnown(free, size, live)
    ensures Total(free, size) + Total(live, size) + |cores| == Units(cores)
  {
    var blocks := Blocks(free, live, base);
    assert forall b :: b in free || b in live ==> b == base || b in blocks;
    TotalUnion(free - {base}, live, size);
    TotalTake(free, size, base);
  }

  lemma FreeApart(free: set<int>, size: map<int, int>, live: set<int>, cores: seq<Core>, base: int, p: int, s: int)
    requires Stocked(free, size, live, cores, base) && p in free && s in free && p in size
    ensures p < s ==> p + size[p] < s
  {
  }

  /** A walk that starts at `h` and now stands at `p` has seen `seen`. */
  ghost predicate Seen(free: set<int>, h: int, p: int, seen: set<int>) {
    forall x :: x in free ==> (x in seen <==> x == h || Passed(h, p, x))
  }

  lemma VisitStep(free: set<int>, h: int, p: int, s: int, seen: set<int>)
    requires h in free && p in free && Follows(free, p, s) && seen <= free
    requires if p == h then seen == {} else Seen(free, h, p, seen)
    ensures p !in seen
    ensures if s == h then seen + {p} == free else Seen(free, h, s, seen + {p})
  {
    if p == h {
      PassedFirst(free, h, s);
    } else {
      PassedStep(free, h, p, s);
    }
    PassedAll(free, h);
    hide Follows, Passed;
    forall x | x in free
      ensures x in seen + {p} <==> x == h || Passed(h, s, x)
    {
    }
    if s == h {
      assert forall x :: x in free ==> x in seen + {p};
      assert seen + {p} == free;
    }
  }

  lemma TotalVisit(seen: set<int>, size: map<int, int>, p: int)
    requires p !in seen && p in size && forall x :: x in seen ==> x in size
    ensures Total(seen + {p}, size) == Total(seen, size) + size[p]
  {
    TotalTake(seen + {p}, size, p);
    assert seen + {p} - {p} == seen;
  }

  lemma CountVisit(free: set<int>, size: map<int, int>, live: set<int>, cores: seq<Core>, base: int, p: int, seen: set<int>)
    requires Laid(free, size, live, cores, base) && p in free && p in size && p !in seen
    ensures |seen + {p} - {base}| == |seen - {base}| + if size[p] != 0 then 1 else 0
  {
    assert p != base ==> p in Blocks(free, live, base);
    if p == base {
      assert seen + {p} - {base} == seen - {base};
    } else {
      assert seen + {p} - {base} == seen - {base} + {p};
    }
  }

  /** Every unit of a core but its header lies in exactly one block, free or live. */
  lemma EachUnitOnce(free: set<int>, size: map<int, int>, live: set<int>, cores: seq<Core>, base: int, i: nat, u: int)
    requires Laid(free, size, live, cores, base) && i < |cores| && Within(u, 1, cores[i])
    ensures exists b :: b in free + live && b in size && Covers(b, size[b], u)
    ensures forall a, b :: (a in free + live && b in free + live && a in size && b in size
                            && Covers(a, size[a], u) && Covers(b, size[b], u)) ==> a == b
    ensures forall b :: b in free + live && b in size && Covers(b, size[b], u) ==> Within(b, size[b], cores[i])
  {
    var blocks := Blocks(free, live, base);
    assert Covered(blocks, size, u);
    forall b | b in free + live && b in size && Covers(b, size[b], u)
      ensures b in blocks && Within(b, size[b], cores[i])
    {
      var j :| 0 <= j < |cores| && Within(b, size[b], cores[j]);
      SameCore(cores, base, i, j, u);
    }
  }

  lemma SameCore(cores: seq<Core>, base: int, i: nat, j: nat, u: int)
    requires CoresOk(cores, base) && i < |cores| && j < |cores|
    requires Within(u, 1, cores[i]) && Within(u, 1, cores[j])
    ensures i == j
  {
  }

  /** Once everything is freed, each core is one free block. */
  lemma AllFreed(free: set<int>, size: map<int, int>, cores: seq<Core>, base: int)
    requires Stocked(free, size, {}, cores, base)
    ensures forall i :: 0 <= i < |cores| ==>
      cores[i].at + 1 in free && cores[i].at + 1 in size && size[cores[i].at + 1] == cores[i].size - 1
    ensures forall b :: b in free && b != base ==> exists i :: 0 <= i < |cores| && b == cores[i].at + 1
  {
    forall i | 0 <= i < |cores|
      ensures WholeCore(free, size, cores[i])
    {
      OneBlock(free, size, cores, base, i);
    }
    forall b | b in free && b != base
      ensures exists i :: 0 <= i < |cores| && b == cores[i].at + 1
    {
      assert b in Blocks(free, {}, base);
      var i :| 0 <= i < |cores| && Within(b, size[b], cores[i]);
      assert WholeCore(free, size, cores[i]);
      EachUnitOnce(free, size, {}, cores, base, i, b);
      assert Covers(b, size[b], b) && Covers(cores[i].at + 1, size[cores[i].at + 1], b);
    }
  }

  ghost predicate WholeCore(free: set<int>, size: map<int, int>, c: Core) {
    c.at + 1 in free && c.at + 1 in size && size[c.at + 1] == c.size - 1
  }

  lemma OneBlock(free: set<int>, size: map<int, int>, cores: seq<Core>, base: int, i: nat)
    requires Stocked(free, size, {}, cores, base) && i < |cores|
    ensures WholeCore(free, size, cores[i])
  {
    var c := cores[i];
    EachUnitOnce(free, size, {}, cores, base, i, c.at + 1);
    var b :| b in free + {} && b in size && Covers(b, size[b], c.at + 1);
    assert Within(b, size[b], c);
    var end := b + size[b];
    forall d | d in free + {} && d in size
      ensures !Covers(d, size[d], end)
    {
      assert d != base ==> d in Blocks(free, {}, base);
      assert b != base;
    }
    if end < c.at + c.size {
      EachUnitOnce(free, size, {}, cores, base, i, end);
      assert false;
    }
  }
}
