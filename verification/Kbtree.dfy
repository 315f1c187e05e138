/** ext/klib/kbtree.h: a B-tree whose nodes are split on the way down to a put and filled on the way down to a delete. */
module Kbtree {
  import opened BtreeNode
  import opened BtreeShape

  /** The memory `m` says what its nodes hold; every node has room for `cap` keys. */
  ghost predicate Synced(m: Memory, cap: nat)
    reads m.Keys, set n | n in m :: n.keys, set n | n in m :: n.ptr
  {
    forall n :: n in m ==> n.Shaped(cap) && m[n] == n.Fields()
  }

  /** The nodes of the memory and their arrays. */
  ghost function Foot(m: Memory): set<object> {
    (set n | n in m :: n as object) + (set n | n in m :: n.keys as object) + (set n | n in m :: n.ptr as object)
  }

  /** No two nodes share an array. */
  ghost predicate Owned(m: Memory) {
    forall a, b :: a in m && b in m && a != b ==> a.keys != b.keys && a.ptr != b.ptr
  }

  /** `z`, still unknown to the memory, takes the upper half of `y`. */
  method UpperHalf(z: Node, y: Node, t: nat, ghost m: Memory, ghost cap: nat) returns (ghost m': Memory)
    requires Synced(m, cap) && Owned(m) && y in m && z !in m && t <= y.n && z.internal == y.internal && z.Shaped(cap)
    requires forall n :: n in m ==> n.keys != z.keys && n.ptr != z.ptr
    modifies z, z.keys, z.ptr
    ensures Synced(m', cap) && Owned(m')
    ensures m' == m[z := Cell(m[y].keys[t..], if y.internal then m[y].kids[t..] else [])]
  {
    z.TakeTail(y, t, cap);
    m' := m[z := z.Fields()];
  }

  method LowerHalf(y: Node, t: nat, ghost m: Memory, ghost cap: nat) returns (ghost m': Memory)
    requires Synced(m, cap) && Owned(m) && y in m && t <= y.n
    modifies y
    ensures Synced(m', cap) && Owned(m')
    ensures m' == m[y := Cell(m[y].keys[..t], if y.internal then m[y].kids[..t + 1] else [])]
  {
    y.Truncate(t, cap);
    m' := m[y := y.Fields()];
  }

  /** `z` takes the upper half of the full node `y`, which keeps the lower one. */
  method Halve(y: Node, t: nat, ghost m: Memory) returns (z: Node, k: int, ghost m': Memory)
    requires 0 < t && Synced(m, 2 * t - 1) && Owned(m) && y in m && y.n == 2 * t - 1
    modifies y
    ensures Synced(m', 2 * t - 1) && Owned(m') && fresh(z) && fresh(z.keys) && fresh(z.ptr)
    ensures z !in m && z.internal == y.internal && k == m[y].keys[t - 1]
    ensures m' == m[z := Cell(m[y].keys[t..], if y.internal then m[y].kids[t..] else [])]
                   [y := Cell(m[y].keys[..t - 1], if y.internal then m[y].kids[..t - 1 + 1] else [])]
  {
    hide *;
    HalveFacts(m, y, t);
    ghost var m1;
    z, m1 := NewHalf(y, t, m);
    m' := LowerHalf(y, t - 1, m1, 2 * t - 1);
    k := y.keys[t - 1];
  }

  /** A new node with the upper half. */
  method NewHalf(y: Node, t: nat, ghost m: Memory) returns (z: Node, ghost m': Memory)
    requires 0 < t && Synced(m, 2 * t - 1) && Owned(m) && y in m && y.n == 2 * t - 1
    ensures Synced(m', 2 * t - 1) && Owned(m') && fresh(z) && fresh(z.keys) && fresh(z.ptr)
    ensures z !in m && z.internal == y.internal
    ensures m' == m[z := Cell(m[y].keys[t..], if y.internal then m[y].kids[t..] else [])]
  {
    HalveFacts(m, y, t);
    hide Synced, Owned;
    z := new Node(y.internal, 2 * t - 1);
    m' := UpperHalf(z, y, t, m, 2 * t - 1);
  }

  lemma HalveFacts(m: Memory, y: Node, t: nat)
    requires 0 < t && Synced(m, 2 * t - 1) && y in m && y.n == 2 * t - 1
    ensures |m[y].keys| == 2 * t - 1 == y.keys.Length && (y.internal ==> |m[y].kids| == 2 * t)
    ensures m[y].keys[t - 1] == y.keys[t - 1]
  {
  }

  /** The upper half `z` of child `i` goes into `x`. */
  method AddHalf(x: Node, i: nat, k: int, z: Node, ghost m: Memory, ghost cap: nat) returns (ghost m': Memory)
    requires Synced(m, cap) && Owned(m) && x in m && x.internal && i <= x.n < cap
    modifies x, x.keys, x.ptr
    ensures Synced(m', cap)
    ensures m' == m[x := Cell(m[x].keys[..i] + [k] + m[x].keys[i..], m[x].kids[..i + 1] + [z] + m[x].kids[i + 1..])]
  {
    x.InsertHalf(i, k, z, cap);
    m' := m[x := x.Fields()];
  }

  // ---- splitting a child ---------------------------------------------------------------------

  function Lower(y: Tree, t: nat): Tree
    requires 0 < t <= |y.keys| && (y.kids == [] || t <= |y.kids|)
  {
    Tree(y.node, y.keys[..t - 1], if y.kids == [] then [] else y.kids[..t])
  }

  function Upper(y: Tree, t: nat, z: Node): Tree
    requires t <= |y.keys| && (y.kids == [] || t <= |y.kids|)
  {
    Tree(z, y.keys[t..], if y.kids == [] then [] else y.kids[t..])
  }

  lemma HalvesJoin(y: Tree, t: nat, z: Node)
    requires 0 < t <= |y.keys| && (y.kids == [] || |y.kids| == |y.keys| + 1)
    ensures Join(Lower(y, t), y.keys[t - 1], Upper(y, t, z)) == y && Alike(Lower(y, t), Upper(y, t, z))
  {
  }

  /** The children of `y` can be cut at `t`. */
  predicate Cuttable(y: Tree, t: nat) {
    0 < t <= |y.keys| && (y.kids == [] || |y.kids| == |y.keys| + 1)
  }

  /** `x` with its full child `i` in two halves. */
  function Splitted(x: Tree, i: nat, t: nat, z: Node): Tree
    requires i < |x.kids| && i <= |x.keys| && Cuttable(x.kids[i], t)
  {
    var y := x.kids[i];
    Middle(x, x.keys[..i] + [y.keys[t - 1]] + x.keys[i..], i, i + 1, [Lower(y, t), Upper(y, t, z)])
  }

  lemma SplittedOrder(x: Tree, i: nat, t: nat, z: Node)
    requires i <= |x.keys| && |x.kids| == |x.keys| + 1 && Cuttable(x.kids[i], t)
    ensures Order(Splitted(x, i, t, z)) == Order(x)
  {
    hide Order;
    var y, x' := x.kids[i], Splitted(x, i, t, z);
    HalvesJoin(y, t, z);
    JoinOrder(Lower(y, t), y.keys[t - 1], Upper(y, t, z));
    MergedOrder(x', i, y);
    var m := Merged(x', i, y);
    assert m.keys == x.keys && m.kids == x.kids;
  }

  lemma HalvesNodes(y: Tree, t: nat, z: Node)
    requires Cuttable(y, t)
    ensures var a, b := Lower(y, t), Upper(y, t, z);
      && Under([a, b]) == Nodes(y) + {z}
      && (Distinct(y) && z !in Nodes(y) ==> Apart([a, b]))
  {
    var a, b := Lower(y, t), Upper(y, t, z);
    if y.kids != [] {
      assert y.kids == y.kids[..t] + y.kids[t..];
      UnderJoin(y.kids[..t], y.kids[t..]);
    }
    UnderPair(a, b);
  }

  lemma UnderPair(a: Tree, b: Tree)
    ensures Under([a, b]) == Nodes(a) + Nodes(b)
    ensures Apart([a, b]) <==> Distinct(a) && Distinct(b) && Nodes(a) !! Nodes(b)
  {
    assert [a, b] == [a] + [b];
    UnderJoin([a], [b]);
    UnderOne(a);
    UnderOne(b);
  }

  lemma SplittedNodes(x: Tree, i: nat, t: nat, z: Node)
    requires i < |x.kids| && i <= |x.keys| && Distinct(x) && z !in Nodes(x) && Cuttable(x.kids[i], t)
    ensures Nodes(Splitted(x, i, t, z)) == Nodes(x) + {z} && Distinct(Splitted(x, i, t, z))
  {
    hide Under, Apart, Nodes, Distinct, Lower, Upper;
    var y := x.kids[i];
    var mid := [Lower(y, t), Upper(y, t, z)];
    assert x.kids[i..i + 1] == [y];
    UnderOne(y);
    HalvesNodes(y, t, z);
    MiddleNodes(x, x.keys[..i] + [y.keys[t - 1]] + x.keys[i..], i, i + 1, mid);
  }

  lemma HalvesFit(y: Tree, h: nat, t: nat, z: Node)
    requires t >= 1 && Fits(y, h, t) && |y.keys| == 2 * t - 1
    ensures Cuttable(y, t) && Fits(Lower(y, t), h, t) && Fits(Upper(y, t, z), h, t)
    ensures |Lower(y, t).keys| == t - 1 && |Upper(y, t, z).keys| == t - 1
  {
  }

  lemma SplittedFits(x: Tree, i: nat, t: nat, z: Node, h: nat)
    requires h > 0 && t >= 1 && Fits(x, h, t) && |x.keys| < 2 * t - 1 && i <= |x.keys| && |x.kids[i].keys| == 2 * t - 1
    ensures Cuttable(x.kids[i], t) && Fits(Splitted(x, i, t, z), h, t)
  {
    var y := x.kids[i];
    HalvesFit(y, h - 1, t, z);
    MiddleFits(x, x.keys[..i] + [y.keys[t - 1]] + x.keys[i..], i, i + 1, [Lower(y, t), Upper(y, t, z)], h, t);
  }

  lemma HalvesRep(m: Memory, m': Memory, y: Tree, t: nat, z: Node, changed: set<Node>)
    requires Rep(m, y) && Cuttable(y, t) && SameBut(m, m', changed) && changed !! Under(y.kids) && z.internal == y.node.internal
    requires var a, b := Lower(y, t), Upper(y, t, z);
      && a.node in m' && m'[a.node] == Cell(a.keys, Roots(a.kids)) && z in m' && m'[z] == Cell(b.keys, Roots(b.kids))
    ensures RepAll(m', [Lower(y, t), Upper(y, t, z)])
  {
    var a, b := Lower(y, t), Upper(y, t, z);
    RepAllFrame(m, m', y.kids, changed);
    assert Rep(m', a);
    assert Rep(m', b);
  }

  /** `__kb_split`: the full child `y` at `i` is split, its middle key comes up. */
  method Split(x: Node, i: nat, y: Node, t: nat, ghost m: Memory, ghost c: Tree, ghost h: nat)
    returns (z: Node, ghost m': Memory)
    requires t >= 1 && Synced(m, 2 * t - 1) && Owned(m) && Rep(m, c) && Distinct(c) && Fits(c, h, t) && h > 0
    requires c.node == x && i <= |c.keys| < 2 * t - 1 && y == c.kids[i].node && |c.kids[i].keys| == 2 * t - 1
    modifies Foot(m)
    ensures Synced(m', 2 * t - 1) && Owned(m') && fresh(z) && fresh(z.keys) && fresh(z.ptr) && z !in m
    ensures m'.Keys == m.Keys + {z} && SameBut(m, m', {x, y})
    ensures Cuttable(c.kids[i], t) && Rep(m', Splitted(c, i, t, z))
  {
    hide *;
    SplitFacts(m, c, i, t, h);
    FootHas(m, x);
    FootHas(m, y);
    ghost var cap := 2 * t - 1;
    var k;
    ghost var m1;
    SyncedAt(m, y, cap);
    z, k, m1 := Halve(y, t, m);
    SyncedAt(m1, x, cap);
    m' := AddHalf(x, i, k, z, m1, cap);
    SplitDone(m, m', c, i, t, z);
    OwnedSame(m1, m');
  }

  lemma FootHas(m: Memory, n: Node)
    requires n in m
    ensures n in Foot(m) && n.keys in Foot(m) && n.ptr in Foot(m)
  {
  }

  lemma SyncedAt(m: Memory, n: Node, cap: nat)
    requires Synced(m, cap) && n in m
    ensures n.Shaped(cap) && m[n] == n.Fields() && n.n == |m[n].keys|
  {
  }

  lemma OwnedSame(m: Memory, m': Memory)
    requires Owned(m) && m'.Keys == m.Keys
    ensures Owned(m')
  {
  }

  lemma SplitFacts(m: Memory, c: Tree, i: nat, t: nat, h: nat)
    requires t >= 1 && Rep(m, c) && Distinct(c) && Fits(c, h, t) && h > 0 && i <= |c.keys| && |c.kids[i].keys| == 2 * t - 1
    ensures var x, y := c.node, c.kids[i].node;
      && x in m && y in m && x != y && x.internal && m[x] == Cell(c.keys, Roots(c.kids))
      && m[y] == Cell(c.kids[i].keys, Roots(c.kids[i].kids)) && y.internal == (c.kids[i].kids != [])
      && Cuttable(c.kids[i], t) && |c.kids| == |c.keys| + 1
  {
    UnderAt(c.kids, i);
    assert Rep(m, c.kids[i]);
  }

  lemma HalvesRoots(y: Tree, t: nat, z: Node)
    requires Cuttable(y, t)
    ensures Roots(Lower(y, t).kids) == if y.kids != [] then Roots(y.kids)[..t - 1 + 1] else []
    ensures Roots(Upper(y, t, z).kids) == if y.kids != [] then Roots(y.kids)[t..] else []
  {
  }

  lemma SplitRoots(c: Tree, i: nat, t: nat, z: Node)
    requires i <= |c.keys| && |c.kids| == |c.keys| + 1 && Cuttable(c.kids[i], t)
    ensures Roots(Splitted(c, i, t, z).kids) == Roots(c.kids)[..i + 1] + [z] + Roots(c.kids)[i + 1..]
  {
    var y, r := c.kids[i], Roots(c.kids);
    RootsMiddle(c, Splitted(c, i, t, z).keys, i, i + 1, [Lower(y, t), Upper(y, t, z)]);
    assert Roots([Lower(y, t), Upper(y, t, z)]) == [r[i]] + [z];
    hide Roots;
    assert r[..i] + ([r[i]] + [z]) + r[i + 1..] == r[..i + 1] + [z] + r[i + 1..];
  }

  /** The nodes of the parent and of child `i` lie nowhere else. */
  lemma ChildApart(c: Tree, i: nat)
    requires Distinct(c) && i < |c.kids|
    ensures var changed := {c.node, c.kids[i].node};
      && c.node != c.kids[i].node && changed !! Under(c.kids[i].kids)
      && changed !! Under(c.kids[..i]) && changed !! Under(c.kids[i + 1..])
  {
    UnderAt(c.kids, i);
    assert Nodes(c.kids[i]) == {c.kids[i].node} + Under(c.kids[i].kids);
    hide Under, Nodes;
  }

  lemma ChildRep(m: Memory, c: Tree, i: nat)
    requires Rep(m, c) && i < |c.kids|
    ensures c.node in m && m[c.node] == Cell(c.keys, Roots(c.kids)) && c.node.internal
    ensures Rep(m, c.kids[i]) && c.kids[i].node in m && c.kids[i].node.internal == (c.kids[i].kids != [])
    ensures m[c.kids[i].node] == Cell(c.kids[i].keys, Roots(c.kids[i].kids)) && RepAll(m, c.kids[i].kids)
  {
    assert Rep(m, c.kids[i]);
  }

  lemma SplitDone(m: Memory, m': Memory, c: Tree, i: nat, t: nat, z: Node)
    requires Rep(m, c) && Distinct(c) && i <= |c.keys| && |c.kids| == |c.keys| + 1 && Cuttable(c.kids[i], t) && z !in m
    requires z.internal == c.kids[i].node.internal && c.kids[i].node.internal == (c.kids[i].kids != [])
    requires var y := c.kids[i];
      var m1 := m[z := Cell(y.keys[t..], if y.kids != [] then Roots(y.kids)[t..] else [])]
                 [y.node := Cell(y.keys[..t - 1], if y.kids != [] then Roots(y.kids)[..t - 1 + 1] else [])];
      m' == m1[c.node := Cell(c.keys[..i] + [y.keys[t - 1]] + c.keys[i..], Roots(c.kids)[..i + 1] + [z] + Roots(c.kids)[i + 1..])]
    ensures Rep(m', Splitted(c, i, t, z)) && m'.Keys == m.Keys + {z} && SameBut(m, m', {c.node, c.kids[i].node})
  {
    hide Under, Nodes, Distinct, Apart, Rep, RepAll, Roots;
    var y, x' := c.kids[i], Splitted(c, i, t, z);
    ChildApart(c, i);
    ChildRep(m, c, i);
    SplitRoots(c, i, t, z);
    HalvesRoots(y, t, z);
    var changed := {c.node, y.node};
    HalvesRep(m, m', y, t, z, changed);
    MiddleRep(m, m', c, x'.keys, i, i + 1, [Lower(y, t), Upper(y, t, z)], changed);
  }

  // ---- keys in order -----------------------------------------------------------------------------

  predicate AllBelow(s: seq<int>, k: int) {
    forall i :: 0 <= i < |s| ==> s[i] < k
  }

  predicate AllAbove(s: seq<int>, k: int) {
    forall i :: 0 <= i < |s| ==> k < s[i]
  }

  /** How many keys come before the first that is not below `k`. */
  function Rank(s: seq<int>, k: int): (r: nat)
    ensures r <= |s|
  {
    if s == [] || s[0] >= k then 0 else 1 + Rank(s[1..], k)
  }

  /** `s` with `k` in its place. */
  function With(s: seq<int>, k: int): seq<int> {
    s[..Rank(s, k)] + [k] + s[Rank(s, k)..]
  }

  /** `s` without the key `k`, if it has it. */
  function Without(s: seq<int>, k: int): seq<int> {
    var r := Rank(s, k);
    if r < |s| && s[r] == k then s[..r] + s[r + 1..] else s
  }

  lemma {:induction false} RankBehind(a: seq<int>, b: seq<int>, k: int)
    requires AllBelow(a, k)
    ensures Rank(a + b, k) == |a| + Rank(b, k)
  {
    if a == [] {
      assert a + b == b;
    } else {
      assert (a + b)[0] == a[0] && (a + b)[1..] == a[1..] + b;
      RankBehind(a[1..], b, k);
    }
  }

  lemma {:induction false} RankBefore(a: seq<int>, b: seq<int>, k: int)
    requires b == [] || k <= b[0]
    ensures Rank(a + b, k) == Rank(a, k)
  {
    if a == [] {
      assert a + b == b;
    } else {
      assert (a + b)[0] == a[0] && (a + b)[1..] == a[1..] + b;
      RankBefore(a[1..], b, k);
    }
  }

  lemma RankAmong(a: seq<int>, b: seq<int>, c: seq<int>, k: int)
    requires AllBelow(a, k) && (c == [] || k <= c[0])
    ensures Rank(a + b + c, k) == |a| + Rank(b, k)
  {
    assert a + b + c == a + (b + c);
    RankBehind(a, b + c, k);
    RankBefore(b, c, k);
  }

  /** Only the middle part changes when `k` belongs there. */
  lemma WithAmong(a: seq<int>, b: seq<int>, c: seq<int>, k: int)
    requires AllBelow(a, k) && AllAbove(c, k)
    ensures With(a + b + c, k) == a + With(b, k) + c
  {
    RankAmong(a, b, c, k);
    var r := Rank(b, k);
    hide Rank;
    Around(a, b, c, r);
    Regrouped(a, b[..r], [k], b[r..], c);
  }

  lemma Regrouped(a: seq<int>, p: seq<int>, k: seq<int>, q: seq<int>, c: seq<int>)
    ensures a + (p + k + q) + c == (a + p) + k + (q + c)
  {
  }

  lemma RegroupedTwo(a: seq<int>, p: seq<int>, q: seq<int>, c: seq<int>)
    ensures a + (p + q) + c == (a + p) + (q + c)
  {
  }

  lemma Around(a: seq<int>, b: seq<int>, c: seq<int>, r: nat)
    requires r <= |b|
    ensures (a + b + c)[..|a| + r] == a + b[..r] && (a + b + c)[|a| + r..] == b[r..] + c
  {
  }

  lemma WithoutAt(s: seq<int>, k: int, r: nat)
    requires Rank(s, k) == r < |s| && s[r] == k
    ensures Without(s, k) == s[..r] + s[r + 1..]
  {
    hide Rank;
  }

  lemma Among(a: seq<int>, b: seq<int>, c: seq<int>, r: nat)
    requires r < |b|
    ensures |a + b + c| == |a| + |b| + |c| && (a + b + c)[|a| + r] == b[r]
  {
  }

  lemma WithoutAmong(a: seq<int>, b: seq<int>, c: seq<int>, k: int)
    requires AllBelow(a, k) && AllAbove(c, k) && k in b && Ascending(b)
    ensures Without(a + b + c, k) == a + Without(b, k) + c
  {
    hide Rank, Without;
    RankAmong(a, b, c, k);
    RankHit(b, k);
    var r := Rank(b, k);
    WithoutAt(b, k, r);
    Around(a, b, c, r);
    Around(a, b, c, r + 1);
    Among(a, b, c, r);
    WithoutAt(a + b + c, k, |a| + r);
    RegroupedTwo(a, b[..r], b[r + 1..], c);
  }

  /** Where a key of an ascending sequence is. */
  lemma {:induction false} RankHit(s: seq<int>, k: int)
    requires Ascending(s) && k in s
    ensures Rank(s, k) < |s| && s[Rank(s, k)] == k
  {
    if s[0] < k {
      assert forall i :: 0 < i < |s| ==> s[i] == s[1..][i - 1];
      RankHit(s[1..], k);
    } else {
      var i :| 0 <= i < |s| && s[i] == k;
    }
  }

  /** The first `r` keys and no others are below `k`. */
  lemma {:induction false} RankIs(s: seq<int>, k: int, r: nat)
    requires r <= |s| && AllBelow(s[..r], k) && (r < |s| ==> k <= s[r])
    ensures Rank(s, k) == r
  {
    assert s == s[..r] + s[r..];
    RankBehind(s[..r], s[r..], k);
  }

  lemma AscendingThree(a: seq<int>, b: seq<int>, c: seq<int>)
    requires Ascending(a + b + c)
    ensures Ascending(a) && Ascending(b) && Ascending(c)
    ensures forall i, j :: 0 <= i < |a| && 0 <= j < |b| ==> a[i] < b[j]
    ensures forall i, j :: 0 <= i < |a| && 0 <= j < |c| ==> a[i] < c[j]
    ensures forall i, j :: 0 <= i < |b| && 0 <= j < |c| ==> b[i] < c[j]
  {
    var s := a + b + c;
    assert forall i :: 0 <= i < |a| ==> s[i] == a[i];
    assert forall i :: 0 <= i < |b| ==> s[|a| + i] == b[i];
    assert forall i :: 0 <= i < |c| ==> s[|a| + |b| + i] == c[i];
  }

  lemma {:induction false} WithAscending(s: seq<int>, k: int)
    requires Ascending(s) && k !in s
    ensures Ascending(With(s, k)) && |With(s, k)| == |s| + 1
    ensures forall n :: n in With(s, k) <==> n in s || n == k
  {
    WithHas(s, k);
    RankBounds(s, k);
    WithAt(s, k);
    var r, w := Rank(s, k), With(s, k);
    hide Rank, With;
    forall i, j | 0 <= i < j < |w|
      ensures w[i] < w[j]
    {
      assert w[i] == if i < r then s[i] else if i == r then k else s[i - 1];
      assert w[j] == if j < r then s[j] else if j == r then k else s[j - 1];
    }
  }

  lemma WithHas(s: seq<int>, k: int)
    ensures forall n :: n in With(s, k) <==> n in s || n == k
  {
    hide Rank;
    var a, b := s[..Rank(s, k)], s[Rank(s, k)..];
    assert s == a + b;
    assert With(s, k) == a + [k] + b;
  }

  lemma WithAt(s: seq<int>, k: int)
    ensures |With(s, k)| == |s| + 1
    ensures forall i :: 0 <= i <= |s| ==>
      With(s, k)[i] == if i < Rank(s, k) then s[i] else if i == Rank(s, k) then k else s[i - 1]
  {
  }

  lemma {:induction false} RankBounds(s: seq<int>, k: int)
    requires Ascending(s)
    ensures forall i :: 0 <= i < Rank(s, k) ==> s[i] < k
    ensures forall i :: Rank(s, k) <= i < |s| ==> k <= s[i]
  {
    if s != [] && s[0] < k {
      assert forall i :: 0 < i < |s| ==> s[i] == s[1..][i - 1];
      RankBounds(s[1..], k);
    }
  }

  // ---- search ---------------------------------------------------------------------------------------

  /** `__kb_getp_aux`: the last key no greater than `k`, and whether it is `k`. An empty node leaves `r` alone. */
  method GetAux(x: Node, k: int, r0: int) returns (i: int, r: int)
    requires x.n <= x.keys.Length && Ascending(x.keys[..x.n])
    ensures -1 <= i < x.n
    ensures forall j :: 0 <= j <= i ==> x.keys[j] <= k
    ensures forall j :: i < j < x.n ==> k < x.keys[j]
    ensures if x.n == 0 then r == r0 else r == 0 <==> i >= 0 && x.keys[i] == k
  {
    var begin, end := 0, x.n;
    if x.n == 0 {
      return -1, r0;
    }
    assert forall a, b :: 0 <= a < b < x.n ==> x.keys[..x.n][a] < x.keys[..x.n][b];
    while begin < end
      invariant 0 <= begin <= end <= x.n
      invariant forall j :: 0 <= j < begin ==> x.keys[j] < k
      invariant forall j :: end <= j < x.n ==> k <= x.keys[j]
    {
      var mid := (begin + end) / 2;
      if x.keys[mid] < k {
        begin := mid + 1;
      } else {
        end := mid;
      }
    }
    if begin == x.n {
      return x.n - 1, 1;
    }
    r := if k < x.keys[begin] then -1 else if k > x.keys[begin] then 1 else 0;
    i := begin;
    if r < 0 {
      i := i - 1;
    }
  }

  // ---- the child a key belongs to ---------------------------------------------------------------------

  lemma {:induction false} HeadEnds(keys: seq<int>, parts: seq<seq<int>>)
    requires |parts| == |keys| && keys != []
    ensures var h := Head(keys, parts);
      h != [] && h[|h| - 1] == keys[|keys| - 1]
  {
    if |keys| > 1 {
      HeadEnds(keys[1..], parts[1..]);
    } else {
      assert keys[1..] == [];
    }
  }

  lemma {:induction false} HeadHas(keys: seq<int>, parts: seq<seq<int>>, i: nat)
    requires |parts| == |keys| && i < |keys|
    ensures keys[i] in Head(keys, parts)
  {
    if i > 0 {
      HeadHas(keys[1..], parts[1..], i - 1);
    }
  }

  /** Key `k` belongs below child `i` of `c`. */
  ghost predicate Belongs(c: Tree, i: nat, k: int) {
    && i <= |c.keys| && |c.kids| == |c.keys| + 1
    && (i > 0 ==> c.keys[i - 1] < k) && (i < |c.keys| ==> k < c.keys[i])
  }

  lemma Place(c: Tree, i: nat, k: int)
    requires Belongs(c, i, k) && Ascending(Order(c))
    ensures Order(c) == HeadOf(c, i) + Order(c.kids[i]) + TailOf(c, i)
    ensures AllBelow(HeadOf(c, i), k) && AllAbove(TailOf(c, i), k) && Ascending(Order(c.kids[i]))
  {
    OrderAt(c, i);
    var h, t := HeadOf(c, i), TailOf(c, i);
    if i > 0 {
      HeadEnds(c.keys[..i], Orders(c.kids[..i]));
    }
    hide Order, Orders, Head;
    AscendingThree(h, Order(c.kids[i]), t);
    assert i < |c.keys| ==> t[0] == c.keys[i];
    assert i == |c.keys| ==> t == [];
  }

  lemma KeysAscending(c: Tree)
    requires |c.kids| == |c.keys| + 1 && Ascending(Order(c))
    ensures Ascending(c.keys) && forall i :: 0 <= i < |c.keys| ==> c.keys[i] in Order(c)
  {
    forall i, j | 0 <= i < j < |c.keys|
      ensures c.keys[i] < c.keys[j]
    {
      OrderAt(c, j);
      HeadHas(c.keys[..j], Orders(c.kids[..j]), i);
      AscendingThree(HeadOf(c, j), Order(c.kids[j]), TailOf(c, j));
      assert TailOf(c, j)[0] == c.keys[j];
    }
    forall i | 0 <= i < |c.keys|
      ensures c.keys[i] in Order(c)
    {
      OrderAt(c, i);
      assert TailOf(c, i)[0] == c.keys[i];
    }
  }

  /** A key of `c` that belongs below child `i` is there. */
  lemma PlaceHas(c: Tree, i: nat, k: int)
    requires Belongs(c, i, k) && Ascending(Order(c))
    ensures k in Order(c) <==> k in Order(c.kids[i])
  {
    Place(c, i, k);
    hide Order, HeadOf, TailOf;
  }

  // ---- changing one child -------------------------------------------------------------------------------

  /** What a change below child `i` does to the whole. */
  lemma KidDone(m: Memory, m': Memory, c: Tree, i: nat, d: Tree)
    requires i < |c.kids| && Rep(m, c) && Distinct(c) && SameBut(m, m', Nodes(c.kids[i]))
    requires Rep(m', d) && Distinct(d) && d.node == c.kids[i].node && Nodes(d) <= Nodes(c.kids[i]) + (m'.Keys - m.Keys)
    ensures Rep(m', WithKid(c, i, d)) && Distinct(WithKid(c, i, d)) && WithKid(c, i, d).node == c.node
    ensures Nodes(WithKid(c, i, d)) <= Nodes(c) + (m'.Keys - m.Keys)
    ensures Nodes(c.kids[i]) <= Nodes(c)
  {
    hide Under, Nodes, Distinct, Apart, Rep, SameBut, Roots;
    ChildRep(m, c, i);
    KidNodes(m, m', c, i, d);
    KidRoots(c, i, d);
    assert RepAll(m', [d]);
    SameAt(m, m', Nodes(c.kids[i]), c.node);
    MiddleRep(m, m', c, c.keys, i, i + 1, [d], Nodes(c.kids[i]));
  }

  lemma KidNodes(m: Memory, m': Memory, c: Tree, i: nat, d: Tree)
    requires i < |c.kids| && Rep(m, c) && Distinct(c)
    requires Distinct(d) && d.node == c.kids[i].node && Nodes(d) <= Nodes(c.kids[i]) + (m'.Keys - m.Keys)
    ensures Distinct(WithKid(c, i, d)) && Nodes(WithKid(c, i, d)) <= Nodes(c) + (m'.Keys - m.Keys)
    ensures Nodes(c.kids[i]) <= Nodes(c) && c.node !in Nodes(c.kids[i])
    ensures Nodes(c.kids[i]) !! Under(c.kids[..i]) && Nodes(c.kids[i]) !! Under(c.kids[i + 1..])
  {
    RepNodes(m, c);
    assert c.kids[i..i + 1] == [c.kids[i]];
    UnderOne(c.kids[i]);
    UnderOne(d);
    MiddleNodes(c, c.keys, i, i + 1, [d]);
    hide Under, Nodes, Distinct, Apart, Rep;
  }

  lemma KidRoots(c: Tree, i: nat, d: Tree)
    requires i < |c.kids| && d.node == c.kids[i].node
    ensures Roots(WithKid(c, i, d).kids) == Roots(c.kids)
  {
    RootsMiddle(c, c.keys, i, i + 1, [d]);
    assert Roots([d]) == [Roots(c.kids)[i]];
  }

  lemma SameAt(m: Memory, m': Memory, changed: set<Node>, n: Node)
    requires SameBut(m, m', changed) && n in m && n !in changed
    ensures n in m' && m'[n] == m[n]
  {
  }

  // ---- putting a key -----------------------------------------------------------------------------------------

  /** A sound subtree in memory. */
  ghost predicate Holds(m: Memory, c: Tree, h: nat, t: nat) {
    Rep(m, c) && Distinct(c) && Fits(c, h, t) && Ascending(Order(c))
  }

  /** What a put or a delete leaves: a sound subtree with the same root, made of the old nodes and new ones. */
  ghost predicate Left(m: Memory, c: Tree, m': Memory, c': Tree, h: nat, t: nat) {
    && Holds(m', c', h, t) && c'.node == c.node && SameBut(m, m', Nodes(c))
    && Nodes(c') <= Nodes(c) + (m'.Keys - m.Keys)
  }

  lemma NodeFacts(m: Memory, c: Tree, h: nat, t: nat, cap: nat)
    requires Synced(m, cap) && Holds(m, c, h, t)
    ensures c.node in m && c.node.Shaped(cap) && c.node.n == |c.keys| && c.node.keys[..c.node.n] == c.keys
    ensures c.node.internal == (h > 0) && m[c.node] == Cell(c.keys, Roots(c.kids))
    ensures h > 0 ==> |c.kids| == |c.keys| + 1 && forall i :: 0 <= i < |c.kids| ==> c.node.ptr[i] == c.kids[i].node
    ensures h == 0 ==> c.kids == [] && Order(c) == c.keys
    ensures Ascending(c.keys)
  {
    if h > 0 {
      KeysAscending(c);
      assert m[c.node].kids == c.node.ptr[..c.node.n + 1];
    }
  }

  /** One more key in a leaf. */
  method AddKey(x: Node, i: nat, k: int, ghost m: Memory, ghost cap: nat) returns (ghost m': Memory)
    requires Synced(m, cap) && Owned(m) && x in m && !x.internal && i <= x.n < cap
    modifies x, x.keys
    ensures Synced(m', cap) && m' == m[x := Cell(m[x].keys[..i] + [k] + m[x].keys[i..], [])]
  {
    x.InsertKey(i, k, cap);
    m' := m[x := x.Fields()];
  }

  /** Key `i` of node `at` in the subtree `c` is `k`. */
  ghost predicate Stored(m: Memory, c: Tree, at: Node, i: nat, k: int) {
    at in Nodes(c) && at in m && i < |m[at].keys| && m[at].keys[i] == k
  }

  lemma StoredBelow(m: Memory, c: Tree, j: nat, d: Tree, at: Node, i: nat, k: int)
    requires Stored(m, d, at, i, k) && j < |c.kids|
    ensures Stored(m, WithKid(c, j, d), at, i, k)
  {
    MiddleNodes(c, c.keys, j, j + 1, [d]);
    UnderOne(d);
    hide Nodes, Under, Distinct, Apart;
  }

  method PutLeaf(x: Node, k: int, t: nat, ghost m: Memory, ghost c: Tree) returns (i: nat, ghost m': Memory, ghost c': Tree)
    requires t >= 1 && Synced(m, 2 * t - 1) && Owned(m) && Holds(m, c, 0, t) && c.node == x
    requires |c.keys| < 2 * t - 1 && k !in Order(c)
    modifies Foot(m)
    ensures Synced(m', 2 * t - 1) && Owned(m') && m.Keys <= m'.Keys && fresh(Foot(m') - Foot(m)) && Left(m, c, m', c', 0, t)
    ensures Order(c') == With(Order(c), k) && |c'.keys| == |c.keys| + 1 && Stored(m', c', x, i, k)
  {
    hide *;
    NodeFacts(m, c, 0, t, 2 * t - 1);
    FootHas(m, x);
    i := SpotFor(x, k, c.keys);
    m' := AddKey(x, i, k, m, 2 * t - 1);
    c' := Tree(x, With(c.keys, k), []);
    OwnedSame(m, m');
    WithAscending(c.keys, k);
    WithIs(c.keys, k);
    LeafLeft(m, c, m', c', t);
    SameFoot(m, m');
    LeafStored(m', c', i, k);
  }

  lemma LeafStored(m: Memory, c: Tree, i: nat, k: int)
    requires c.node in m && m[c.node].keys == c.keys && i < |c.keys| && c.keys[i] == k
    ensures Stored(m, c, c.node, i, k)
  {
  }

  lemma WithIs(s: seq<int>, k: int)
    ensures With(s, k) == s[..Rank(s, k)] + [k] + s[Rank(s, k)..]
  {
  }

  /** The place of an absent key in a leaf. */
  method SpotFor(x: Node, k: int, ghost keys: seq<int>) returns (i: nat)
    requires x.n <= x.keys.Length && x.keys[..x.n] == keys && Ascending(keys) && k !in keys
    ensures i == Rank(keys, k)
  {
    var j, r := GetAux(x, k, 0);
    hide Ascending;
    LeafRank(x, keys, k, j);
    i := j + 1;
  }

  lemma LeafRank(x: Node, keys: seq<int>, k: int, i: int)
    requires x.n <= x.keys.Length && x.keys[..x.n] == keys && -1 <= i < x.n && k !in keys
    requires forall j :: 0 <= j <= i ==> x.keys[j] <= k
    requires forall j :: i < j < x.n ==> k < x.keys[j]
    ensures Rank(keys, k) == i + 1
  {
    assert forall j :: 0 <= j < |keys| ==> keys[j] == x.keys[j] && keys[j] != k;
    RankIs(keys, k, i + 1);
  }

  lemma LeafLeft(m: Memory, c: Tree, m': Memory, c': Tree, t: nat)
    requires Holds(m, c, 0, t) && c'.node == c.node && c'.kids == [] && |c'.keys| <= 2 * t - 1 && Ascending(c'.keys)
    requires m' == m[c.node := Cell(c'.keys, [])]
    ensures Left(m, c, m', c', 0, t) && Order(c') == c'.keys
  {
    assert Roots([]) == [];
    assert Nodes(c') == {c'.node} + Under([]);
    assert Nodes(c) == {c.node} + Under([]);
  }

  lemma SameFoot(m: Memory, m': Memory)
    requires m'.Keys == m.Keys
    ensures Foot(m') == Foot(m)
  {
  }

  lemma MoreFoot(m: Memory, m': Memory, z: Node)
    requires m'.Keys == m.Keys + {z}
    ensures Foot(m') == Foot(m) + {z as object, z.keys as object, z.ptr as object}
  {
  }

  lemma BelongsThere(x: Node, c: Tree, k: int, i: int)
    requires x.n <= x.keys.Length && x.keys[..x.n] == c.keys && 0 <= i <= x.n && |c.kids| == |c.keys| + 1
    requires forall j :: 0 <= j < i ==> x.keys[j] <= k
    requires forall j :: i <= j < x.n ==> k < x.keys[j]
    requires Ascending(Order(c)) && k !in Order(c)
    ensures Belongs(c, i, k)
  {
    KeysAscending(c);
    assert forall j :: 0 <= j < |c.keys| ==> c.keys[j] == x.keys[j];
  }

  lemma HoldsParts(m: Memory, c: Tree, h: nat, t: nat)
    requires Holds(m, c, h, t)
    ensures Rep(m, c) && Distinct(c) && Fits(c, h, t) && Ascending(Order(c)) && |c.keys| <= 2 * t - 1
    ensures h > 0 ==> |c.kids| == |c.keys| + 1
  {
  }

  lemma KidHolds(m: Memory, c: Tree, h: nat, t: nat, i: nat)
    requires Holds(m, c, h, t) && h > 0 && i < |c.kids|
    ensures Holds(m, c.kids[i], h - 1, t) && t - 1 <= |c.kids[i].keys| <= 2 * t - 1
    ensures Nodes(c.kids[i]) <= Nodes(c)
  {
    ChildRep(m, c, i);
    UnderAt(c.kids, i);
    OrderAt(c, i);
    AscendingThree(HeadOf(c, i), Order(c.kids[i]), TailOf(c, i));
  }

  /** The subtree after a split. */
  lemma SplitHolds(m: Memory, m': Memory, c: Tree, i: nat, t: nat, z: Node, h: nat)
    requires t >= 1 && h > 0 && Holds(m, c, h, t) && i <= |c.keys| < 2 * t - 1 && |c.kids| == |c.keys| + 1
    requires |c.kids[i].keys| == 2 * t - 1 && Cuttable(c.kids[i], t) && z !in m && Rep(m', Splitted(c, i, t, z))
    ensures var c1 := Splitted(c, i, t, z);
      && Holds(m', c1, h, t) && Order(c1) == Order(c) && Nodes(c1) == Nodes(c) + {z} && c1.node == c.node
      && |c1.keys| == |c.keys| + 1 && |c1.kids| == |c1.keys| + 1
      && |c1.kids[i].keys| == t - 1 && |c1.kids[i + 1].keys| == t - 1 && c1.keys[i] == c.kids[i].keys[t - 1]
      && c.node in Nodes(c) && c.kids[i].node in Nodes(c)
  {
    RepNodes(m, c);
    SplittedOrder(c, i, t, z);
    SplittedNodes(c, i, t, z);
    SplittedFits(c, i, t, z, h);
    UnderAt(c.kids, i);
    hide Order, Under, Rep, Distinct, Fits;
  }

  /** The half the key belongs to. */
  lemma BelongsHalf(c: Tree, i: nat, t: nat, z: Node, k: int)
    requires Belongs(c, i, k) && Cuttable(c.kids[i], t)
    requires k != c.kids[i].keys[t - 1]
    ensures Belongs(Splitted(c, i, t, z), if k > c.kids[i].keys[t - 1] then i + 1 else i, k)
  {
  }

  /** A put below child `i`, after a split or without one. */
  lemma PutDone(m: Memory, m1: Memory, m2: Memory, c: Tree, c1: Tree, i: nat, d: Tree, k: int, h: nat, t: nat, changed: set<Node>)
    requires h > 0 && Holds(m1, c1, h, t) && Belongs(c1, i, k) && Left(m1, c1.kids[i], m2, d, h - 1, t)
    requires Order(d) == With(Order(c1.kids[i]), k) && |c1.kids[i].keys| <= |d.keys| && k !in Order(c1)
    requires c1.node == c.node && Order(c1) == Order(c) && Nodes(c1) <= Nodes(c) + (m1.Keys - m.Keys)
    requires SameBut(m, m1, changed) && changed <= Nodes(c)
    ensures Left(m, c, m2, WithKid(c1, i, d), h, t) && Order(WithKid(c1, i, d)) == With(Order(c), k)
  {
    hide Rep, Distinct, Fits, Order, Nodes, With, Ascending, SameBut, HeadOf, TailOf;
    HoldsParts(m1, c1, h, t);
    KidHolds(m1, c1, h, t, i);
    LeftParts(m1, c1.kids[i], m2, d, h - 1, t);
    KidDone(m1, m2, c1, i, d);
    MiddleFits(c1, c1.keys, i, i + 1, [d], h, t);
    Place(c1, i, k);
    WithKidOrder(c1, i, d);
    WithAmong(HeadOf(c1, i), Order(c1.kids[i]), TailOf(c1, i), k);
    WithAscending(Order(c1), k);
    Grew(m, m1, m2, changed, Nodes(c1.kids[i]), Nodes(c), Nodes(c1), Nodes(WithKid(c1, i, d)));
  }

  lemma LeftParts(m: Memory, c: Tree, m': Memory, c': Tree, h: nat, t: nat)
    requires Left(m, c, m', c', h, t)
    ensures Rep(m', c') && Distinct(c') && Fits(c', h, t) && Ascending(Order(c')) && c'.node == c.node
    ensures SameBut(m, m', Nodes(c)) && Nodes(c') <= Nodes(c) + (m'.Keys - m.Keys) && m.Keys <= m'.Keys
  {
  }

  lemma Grew(m: Memory, m1: Memory, m2: Memory, a: set<Node>, b: set<Node>, all: set<Node>, n1: set<Node>, n2: set<Node>)
    requires SameBut(m, m1, a) && SameBut(m1, m2, b) && a <= all && b <= n1
    requires n1 <= all + (m1.Keys - m.Keys) && n2 <= n1 + (m2.Keys - m1.Keys)
    ensures SameBut(m, m2, all) && n2 <= all + (m2.Keys - m.Keys)
  {
  }

  /** `__kb_putp_aux`: into a node that is not full. The result is the place of the key. */
  method PutAux(x: Node, k: int, t: nat, ghost m: Memory, ghost c: Tree, ghost h: nat)
    returns (at: Node, i: nat, ghost m': Memory, ghost c': Tree)
    requires t >= 2 && Synced(m, 2 * t - 1) && Owned(m) && Holds(m, c, h, t) && c.node == x
    requires |c.keys| < 2 * t - 1 && k !in Order(c)
    modifies Foot(m)
    ensures Synced(m', 2 * t - 1) && Owned(m') && m.Keys <= m'.Keys && fresh(Foot(m') - Foot(m))
    ensures Left(m, c, m', c', h, t) && Order(c') == With(Order(c), k) && |c.keys| <= |c'.keys| && Stored(m', c', at, i, k)
    decreases h, 1
  {
    hide *;
    NodeFacts(m, c, h, t, 2 * t - 1);
    if !x.internal {
      at := x;
      i, m', c' := PutLeaf(x, k, t, m, c);
    } else {
      var j := KidFor(x, k, t, m, c, h);
      at, i, m', c' := PutInner(x, j, k, t, m, c, h);
    }
  }

  /** The child that an absent key belongs to. */
  method KidFor(x: Node, k: int, t: nat, ghost m: Memory, ghost c: Tree, ghost h: nat) returns (i: nat)
    requires t >= 1 && Synced(m, 2 * t - 1) && Holds(m, c, h, t) && c.node == x && h > 0 && k !in Order(c)
    ensures Belongs(c, i, k)
  {
    NodeFacts(m, c, h, t, 2 * t - 1);
    HoldsParts(m, c, h, t);
    hide Holds, Synced, Order, Ascending, Rep, Distinct, Fits;
    var j, r := GetAux(x, k, 0);
    i := j + 1;
    BelongsThere(x, c, k, i);
  }

  /** Child `i` of a node, as the node and the memory show it. */
  lemma KidNode(m: Memory, c: Tree, i: nat, h: nat, t: nat, cap: nat)
    requires Synced(m, cap) && Holds(m, c, h, t) && h > 0 && i <= |c.keys|
    ensures |c.kids| == |c.keys| + 1 && i < c.node.ptr.Length && c.node.ptr[i] == c.kids[i].node && c.kids[i].node in m
    ensures c.kids[i].node.n == |c.kids[i].keys| && Holds(m, c.kids[i], h - 1, t)
    ensures t - 1 <= |c.kids[i].keys| <= 2 * t - 1 && Nodes(c.kids[i]) <= Nodes(c)
  {
    NodeFacts(m, c, h, t, cap);
    KidHolds(m, c, h, t, i);
    NodeFacts(m, c.kids[i], h - 1, t, cap);
  }

  lemma NotMiddle(c: Tree, c1: Tree, i: nat, k: int)
    requires |c1.kids| == |c1.keys| + 1 && i < |c1.keys| && Ascending(Order(c1)) && Order(c1) == Order(c) && k !in Order(c)
    ensures c1.keys[i] != k
  {
    KeysAscending(c1);
  }

  /** The part of `__kb_putp_aux` that splits a full child and picks the half for `k`. */
  method SplitFor(x: Node, i: nat, y: Node, k: int, t: nat, ghost m: Memory, ghost c: Tree, ghost h: nat)
    returns (i': nat, ghost m': Memory, ghost c': Tree)
    requires t >= 2 && Synced(m, 2 * t - 1) && Owned(m) && Holds(m, c, h, t) && c.node == x && h > 0
    requires |c.keys| < 2 * t - 1 && k !in Order(c) && Belongs(c, i, k)
    requires i < |c.kids| && y == c.kids[i].node && |c.kids[i].keys| == 2 * t - 1
    modifies Foot(m)
    ensures Synced(m', 2 * t - 1) && Owned(m') && m.Keys <= m'.Keys && fresh(Foot(m') - Foot(m))
    ensures Holds(m', c', h, t) && Belongs(c', i', k) && i' < |c'.kids| && |c'.kids[i'].keys| == t - 1
    ensures Order(c') == Order(c) && c'.node == c.node && |c.keys| <= |c'.keys|
    ensures Nodes(c') <= Nodes(c) + (m'.Keys - m.Keys) && SameBut(m, m', {x, y}) && {x, y} <= Nodes(c)
  {
    hide *;
    HoldsParts(m, c, h, t);
    BelongsParts(c, i, k);
    var z;
    z, m' := Split(x, i, y, t, m, c, h);
    SplitHolds(m, m', c, i, t, z, h);
    c' := Splitted(c, i, t, z);
    MoreFoot(m, m', z);
    NodeFacts(m', c', h, t, 2 * t - 1);
    HoldsParts(m', c', h, t);
    NotMiddle(c, c', i, k);
    BelongsHalf(c, i, t, z, k);
    assert x.keys[..x.n][i] == x.keys[i];
    i' := i;
    if k > x.keys[i] {
      i' := i + 1;
    }
  }

  lemma BelongsParts(c: Tree, i: nat, k: int)
    requires Belongs(c, i, k)
    ensures i <= |c.keys| && |c.kids| == |c.keys| + 1
  {
  }

  method PutInner(x: Node, i0: nat, k: int, t: nat, ghost m: Memory, ghost c: Tree, ghost h: nat)
    returns (at: Node, j: nat, ghost m': Memory, ghost c': Tree)
    requires t >= 2 && Synced(m, 2 * t - 1) && Owned(m) && Holds(m, c, h, t) && c.node == x && h > 0
    requires |c.keys| < 2 * t - 1 && k !in Order(c) && Belongs(c, i0, k)
    modifies Foot(m)
    ensures Synced(m', 2 * t - 1) && Owned(m') && m.Keys <= m'.Keys && fresh(Foot(m') - Foot(m))
    ensures Left(m, c, m', c', h, t) && Order(c') == With(Order(c), k) && |c.keys| <= |c'.keys| && Stored(m', c', at, j, k)
    decreases h, 0
  {
    hide *;
    var i;
    ghost var m1, c1, changed, d;
    i, m1, c1, changed := MakeRoom(x, i0, k, t, m, c, h);
    BelongsParts(c1, i, k);
    KidNode(m1, c1, i, h, t, 2 * t - 1);
    KidWithout(m1, c1, h, t, i, k);
    at, j, m', d := PutAux(x.ptr[i], k, t, m1, c1.kids[i], h - 1);
    assert Foot(m') - Foot(m) <= (Foot(m') - Foot(m1)) + (Foot(m1) - Foot(m));
    PutDone(m, m1, m', c, c1, i, d, k, h, t, changed);
    c' := WithKid(c1, i, d);
    KeysKept(c1, i, d);
    StoredBelow(m', c1, i, d, at, j, k);
  }

  /** The child for `k` is not full after this. */
  method MakeRoom(x: Node, i0: nat, k: int, t: nat, ghost m: Memory, ghost c: Tree, ghost h: nat)
    returns (i: nat, ghost m': Memory, ghost c': Tree, ghost changed: set<Node>)
    requires t >= 2 && Synced(m, 2 * t - 1) && Owned(m) && Holds(m, c, h, t) && c.node == x && h > 0
    requires |c.keys| < 2 * t - 1 && k !in Order(c) && Belongs(c, i0, k)
    modifies Foot(m)
    ensures Synced(m', 2 * t - 1) && Owned(m') && m.Keys <= m'.Keys && fresh(Foot(m') - Foot(m))
    ensures Holds(m', c', h, t) && Belongs(c', i, k) && i < |c'.kids| && |c'.kids[i].keys| < 2 * t - 1
    ensures Order(c') == Order(c) && c'.node == c.node && |c.keys| <= |c'.keys|
    ensures Nodes(c') <= Nodes(c) + (m'.Keys - m.Keys) && SameBut(m, m', changed) && changed <= Nodes(c)
  {
    hide *;
    BelongsParts(c, i0, k);
    NodeFacts(m, c, h, t, 2 * t - 1);
    KidNode(m, c, i0, h, t, 2 * t - 1);
    var y: Node := x.ptr[i0];
    if y.n == 2 * t - 1 {
      changed := {x, y};
      i, m', c' := SplitFor(x, i0, y, k, t, m, c, h);
    } else {
      SameSelf(m);
      i, m', c', changed := i0, m, c, {};
    }
  }

  lemma SameSelf(m: Memory)
    ensures SameBut(m, m, {})
  {
  }

  lemma KidWithout(m: Memory, c: Tree, h: nat, t: nat, i: nat, k: int)
    requires Holds(m, c, h, t) && h > 0 && Belongs(c, i, k) && k !in Order(c)
    ensures k !in Order(c.kids[i])
  {
    PlaceHas(c, i, k);
  }

  lemma KeysKept(c: Tree, i: nat, d: Tree)
    requires i < |c.kids|
    ensures WithKid(c, i, d).keys == c.keys
  {
  }
}
