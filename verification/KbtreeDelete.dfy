/** Deleting from the B-tree of ext/klib/kbtree.h (lines 221-314). */
module KbtreeDelete {
  import opened BtreeNode
  import opened BtreeShape
  import opened Kbtree

  // ---- one node at a time, in memory ----------------------------------------------------------

  method FrontKey(x: Node, k: int, c: Node?, ghost m: Memory, ghost cap: nat) returns (ghost m': Memory)
    requires Synced(m, cap) && Owned(m) && x in m && x.n < cap
    modifies x, x.keys, x.ptr
    ensures Synced(m', cap) && m' == m[x := Cell([k] + m[x].keys, if x.internal then [c] + m[x].kids else [])]
  {
    x.PushFront(k, c, cap);
    m' := m[x := x.Fields()];
  }

  method BackKey(x: Node, k: int, c: Node?, ghost m: Memory, ghost cap: nat) returns (ghost m': Memory)
    requires Synced(m, cap) && Owned(m) && x in m && x.n < cap
    modifies x, x.keys, x.ptr
    ensures Synced(m', cap) && m' == m[x := Cell(m[x].keys + [k], if x.internal then m[x].kids + [c] else [])]
  {
    x.PushBack(k, c, cap);
    m' := m[x := x.Fields()];
  }

  method ChangeKey(x: Node, i: nat, k: int, ghost m: Memory, ghost cap: nat) returns (ghost m': Memory)
    requires Synced(m, cap) && Owned(m) && x in m && i < x.n
    modifies x.keys
    ensures Synced(m', cap) && m' == m[x := m[x].(keys := m[x].keys[i := k])]
  {
    x.SetKey(i, k, cap);
    m' := m[x := x.Fields()];
  }

  method DropBack(x: Node, ghost m: Memory, ghost cap: nat) returns (ghost m': Memory)
    requires Synced(m, cap) && Owned(m) && x in m && x.n > 0
    modifies x
    ensures Synced(m', cap)
    ensures m' == m[x := Cell(m[x].keys[..|m[x].keys| - 1], if x.internal then m[x].kids[..|m[x].keys|] else [])]
  {
    x.PopBack(cap);
    m' := m[x := x.Fields()];
  }

  method DropFront(x: Node, ghost m: Memory, ghost cap: nat) returns (ghost m': Memory)
    requires Synced(m, cap) && Owned(m) && x in m && x.n > 0
    modifies x, x.keys, x.ptr
    ensures Synced(m', cap) && m' == m[x := Cell(m[x].keys[1..], if x.internal then m[x].kids[1..] else [])]
  {
    x.PopFront(cap);
    m' := m[x := x.Fields()];
  }

  method Append(x: Node, k: int, z: Node, ghost m: Memory, ghost cap: nat) returns (ghost m': Memory)
    requires Synced(m, cap) && Owned(m) && x in m && z in m && x != z && x.internal == z.internal && x.n + 1 + z.n <= cap
    modifies x, x.keys, x.ptr
    ensures Synced(m', cap)
    ensures m' == m[x := Cell(m[x].keys + [k] + m[z].keys, if x.internal then m[x].kids + m[z].kids else [])]
  {
    x.AppendAll(k, z, cap);
    m' := m[x := x.Fields()];
  }

  method TakeOut(x: Node, i: nat, ghost m: Memory, ghost cap: nat) returns (ghost m': Memory)
    requires Synced(m, cap) && Owned(m) && x in m && x.internal && i < x.n
    modifies x, x.keys, x.ptr
    ensures Synced(m', cap)
    ensures m' == m[x := Cell(m[x].keys[..i] + m[x].keys[i + 1..], m[x].kids[..i + 1] + m[x].kids[i + 2..])]
  {
    x.RemoveAt(i, cap);
    m' := m[x := x.Fields()];
  }

  method TakeKey(x: Node, i: nat, ghost m: Memory, ghost cap: nat) returns (ghost m': Memory)
    requires Synced(m, cap) && Owned(m) && x in m && !x.internal && i < x.n
    modifies x, x.keys
    ensures Synced(m', cap) && m' == m[x := Cell(m[x].keys[..i] + m[x].keys[i + 1..], [])]
  {
    x.RemoveKey(i, cap);
    m' := m[x := x.Fields()];
  }

  // ---- two neighbours ------------------------------------------------------------------------------

  /** The neighbours `a` and `b` around `k` and `a'` and `b'` around `k'` hold the same between them. */
  ghost predicate Rebalanced(a: Tree, k: int, b: Tree, a': Tree, k': int, b': Tree) {
    && a'.node == a.node && b'.node == b.node && Alike(a, b) && Alike(a', b') && (a.kids == [] <==> a'.kids == [])
    && a'.keys + [k'] + b'.keys == a.keys + [k] + b.keys && a'.kids + b'.kids == a.kids + b.kids
  }

  lemma RebalancedOrder(a: Tree, k: int, b: Tree, a': Tree, k': int, b': Tree)
    requires Rebalanced(a, k, b, a', k', b')
    ensures Order(a') + [k'] + Order(b') == Order(a) + [k] + Order(b)
  {
    hide Order;
    JoinOrder(a, k, b);
    JoinOrder(a', k', b');
    assert Join(a, k, b) == Join(a', k', b');
  }

  lemma RebalancedNodes(a: Tree, k: int, b: Tree, a': Tree, k': int, b': Tree)
    requires Rebalanced(a, k, b, a', k', b')
    ensures Under([a', b']) == Under([a, b]) && (Apart([a, b]) ==> Apart([a', b']))
  {
    UnderPair(a, b);
    UnderPair(a', b');
    UnderJoin(a.kids, b.kids);
    UnderJoin(a'.kids, b'.kids);
    PairNodes(a, b);
    PairNodes(a', b');
  }

  lemma PairNodes(a: Tree, b: Tree)
    ensures Nodes(a) + Nodes(b) == {a.node, b.node} + (Under(a.kids) + Under(b.kids))
    ensures Distinct(a) && Distinct(b) && Nodes(a) !! Nodes(b) <==>
      && a.node != b.node && a.node !in Under(a.kids) && b.node !in Under(b.kids) && Apart(a.kids) && Apart(b.kids)
      && a.node !in Under(b.kids) && b.node !in Under(a.kids) && Under(a.kids) !! Under(b.kids)
  {
  }

  ghost predicate KidsFit(kids: seq<Tree>, h: nat, t: nat) {
    forall i :: 0 <= i < |kids| ==> Fits(kids[i], h, t) && t - 1 <= |kids[i].keys|
  }

  lemma KidsFitJoin(p: seq<Tree>, q: seq<Tree>, h: nat, t: nat)
    ensures KidsFit(p + q, h, t) <==> KidsFit(p, h, t) && KidsFit(q, h, t)
  {
    assert forall i :: 0 <= i < |p| ==> (p + q)[i] == p[i];
    assert forall i :: 0 <= i < |q| ==> (p + q)[|p| + i] == q[i];
  }

  lemma FitsIs(a: Tree, h: nat, t: nat)
    ensures Fits(a, h, t) <==>
      |a.keys| <= 2 * t - 1 && if h == 0 then a.kids == [] else |a.kids| == |a.keys| + 1 && KidsFit(a.kids, h - 1, t)
  {
  }

  lemma RebalancedFits(a: Tree, k: int, b: Tree, a': Tree, k': int, b': Tree, h: nat, t: nat)
    requires Rebalanced(a, k, b, a', k', b') && Fits(a, h, t) && Fits(b, h, t)
    requires |a'.keys| <= 2 * t - 1 && |b'.keys| <= 2 * t - 1
    ensures Fits(a', h, t) && Fits(b', h, t)
  {
    hide Fits, KidsFit;
    FitsIs(a, h, t);
    FitsIs(b, h, t);
    FitsIs(a', h, t);
    FitsIs(b', h, t);
    if h > 0 {
      KidsFitJoin(a.kids, b.kids, h - 1, t);
      KidsFitJoin(a'.kids, b'.kids, h - 1, t);
    } else {
      assert a'.kids + b'.kids == [];
    }
  }

  /** Both neighbours in memory, after a change of them and their parent. */
  lemma RebalancedRep(m: Memory, m': Memory, a: Tree, k: int, b: Tree, a': Tree, k': int, b': Tree, changed: set<Node>)
    requires Rebalanced(a, k, b, a', k', b') && Rep(m, a) && Rep(m, b) && SameBut(m, m', changed)
    requires changed !! Under(a.kids) && changed !! Under(b.kids)
    requires a'.node in m' && m'[a'.node] == Cell(a'.keys, Roots(a'.kids))
    requires b'.node in m' && m'[b'.node] == Cell(b'.keys, Roots(b'.kids))
    ensures RepAll(m', [a', b'])
  {
    RepAllFrame(m, m', a.kids, changed);
    RepAllFrame(m, m', b.kids, changed);
    var all := a.kids + b.kids;
    hide Under, Rep;
    BothRep(m', a.kids, b.kids);
    KidsRep(m', all, a'.kids, b'.kids);
    FlagKept(m, a, a');
    FlagKept(m, b, b');
    MadeRep(m', a');
    MadeRep(m', b');
  }

  lemma KidsRep(m: Memory, all: seq<Tree>, p: seq<Tree>, q: seq<Tree>)
    requires RepAll(m, all) && all == p + q
    ensures RepAll(m, p) && RepAll(m, q)
  {
    assert forall i :: 0 <= i < |p| ==> p[i] == all[i];
    assert forall i :: 0 <= i < |q| ==> q[i] == all[|p| + i];
  }

  lemma FlagKept(m: Memory, a: Tree, a': Tree)
    requires Rep(m, a) && a'.node == a.node && (a.kids == [] <==> a'.kids == [])
    ensures a'.node.internal == (a'.kids != [])
  {
  }

  lemma MadeRep(m: Memory, a: Tree)
    requires a.node in m && m[a.node] == Cell(a.keys, Roots(a.kids)) && a.node.internal == (a.kids != []) && RepAll(m, a.kids)
    ensures Rep(m, a)
  {
  }

  // ---- two neighbours and their parent ---------------------------------------------------------------------

  /** What filling a child leaves of `c`: the same keys in the same order, in the same nodes. */
  ghost predicate Refilled(m: Memory, c: Tree, m': Memory, c': Tree, h: nat, t: nat) {
    && Holds(m', c', h, t) && c'.node == c.node && Order(c') == Order(c) && Nodes(c') <= Nodes(c)
    && SameBut(m, m', Nodes(c)) && m'.Keys == m.Keys
  }

  lemma PairApart(c: Tree, p: nat)
    requires Distinct(c) && p + 1 < |c.kids|
    ensures var a, b := c.kids[p], c.kids[p + 1];
      var changed := {c.node, a.node, b.node};
      && c.kids[p..p + 2] == [a, b] && a.node != b.node && c.node != a.node && c.node != b.node
      && changed !! Under(c.kids[..p]) && changed !! Under(c.kids[p + 2..]) && changed !! Under(a.kids) && changed !! Under(b.kids)
      && changed <= Nodes(c) && Apart([a, b]) && Under([a, b]) <= Nodes(c)
  {
    var a, b := c.kids[p], c.kids[p + 1];
    assert c.kids[p..p + 2] == [a, b];
    MiddleNodes(c, c.keys, p, p + 2, [a, b]);
    UnderPair(a, b);
    PairNodes(a, b);
    hide Nodes, Distinct, Under, Apart;
    assert a.node in Nodes(a) + Nodes(b) && b.node in Nodes(a) + Nodes(b);
    assert Under(a.kids) <= Nodes(a) + Nodes(b) && Under(b.kids) <= Nodes(a) + Nodes(b);
  }

  lemma PairedHolds(m: Memory, m': Memory, c: Tree, p: nat, a': Tree, k': int, b': Tree, h: nat, t: nat)
    requires h > 0 && Holds(m, c, h, t) && p < |c.keys| && |c.kids| == |c.keys| + 1
    requires Rebalanced(c.kids[p], c.keys[p], c.kids[p + 1], a', k', b')
    requires t - 1 <= |a'.keys| <= 2 * t - 1 && t - 1 <= |b'.keys| <= 2 * t - 1
    requires var a, b := c.kids[p], c.kids[p + 1];
      && SameBut(m, m', {c.node, a.node, b.node}) && m'.Keys == m.Keys
      && a.node in m' && m'[a.node] == Cell(a'.keys, Roots(a'.kids))
      && b.node in m' && m'[b.node] == Cell(b'.keys, Roots(b'.kids))
      && c.node in m' && m'[c.node] == Cell(c.keys[p := k'], Roots(c.kids))
    ensures Refilled(m, c, m', Paired(c, p, a', k', b'), h, t)
  {
    hide Rep, Distinct, Fits, Order, Nodes, Under, Apart, SameBut, Roots, Rebalanced;
    HoldsParts(m, c, h, t);
    var a, b := c.kids[p], c.kids[p + 1];
    var c' := Paired(c, p, a', k', b');
    var changed := {c.node, a.node, b.node};
    PairApart(c, p);
    ChildRep(m, c, p);
    ChildRep(m, c, p + 1);
    KidHolds(m, c, h, t, p);
    KidHolds(m, c, h, t, p + 1);
    HoldsParts(m, a, h - 1, t);
    HoldsParts(m, b, h - 1, t);
    RebalancedOrder(a, c.keys[p], b, a', k', b');
    PairedOrder(c, p, a', k', b');
    RebalancedNodes(a, c.keys[p], b, a', k', b');
    MiddleNodes(c, c'.keys, p, p + 2, [a', b']);
    RebalancedFits(a, c.keys[p], b, a', k', b', h - 1, t);
    MiddleFits(c, c'.keys, p, p + 2, [a', b'], h, t);
    RebalancedRep(m, m', a, c.keys[p], b, a', k', b', changed) by {
      RebalancedRoots(a, c.keys[p], b, a', k', b');
    }
    PairedRoots(c, p, a', k', b');
    MiddleRep(m, m', c, c'.keys, p, p + 2, [a', b'], changed);
    SameWider(m, m', changed, Nodes(c));
  }

  lemma RebalancedRoots(a: Tree, k: int, b: Tree, a': Tree, k': int, b': Tree)
    requires Rebalanced(a, k, b, a', k', b')
    ensures a'.node == a.node && b'.node == b.node
  {
  }

  lemma PairedRoots(c: Tree, p: nat, a': Tree, k': int, b': Tree)
    requires p < |c.keys| && |c.kids| == |c.keys| + 1 && Rebalanced(c.kids[p], c.keys[p], c.kids[p + 1], a', k', b')
    ensures Roots(Paired(c, p, a', k', b').kids) == Roots(c.kids)
  {
    RootsMiddle(c, c.keys[p := k'], p, p + 2, [a', b']);
    assert Roots([a', b']) == Roots(c.kids)[p..p + 2];
    hide Roots;
    assert Roots(c.kids)[..p] + Roots(c.kids)[p..p + 2] + Roots(c.kids)[p + 2..] == Roots(c.kids);
  }

  lemma SameWider(m: Memory, m': Memory, some: set<Node>, all: set<Node>)
    requires SameBut(m, m', some) && some <= all
    ensures SameBut(m, m', all)
  {
  }

  lemma MergedRoots(c: Tree, p: nat, d: Tree)
    requires p < |c.keys| && |c.kids| == |c.keys| + 1 && d.node == c.kids[p].node
    ensures Roots(Merged(c, p, d).kids) == Roots(c.kids)[..p + 1] + Roots(c.kids)[p + 2..]
  {
    RootsMiddle(c, c.keys[..p] + c.keys[p + 1..], p, p + 2, [d]);
    assert Roots([d]) == [Roots(c.kids)[p]];
    hide Roots;
    assert Roots(c.kids)[..p] + [Roots(c.kids)[p]] + Roots(c.kids)[p + 2..] == Roots(c.kids)[..p + 1] + Roots(c.kids)[p + 2..];
  }

  lemma JoinedNodes(a: Tree, k: int, b: Tree)
    requires Apart([a, b])
    ensures Under([Join(a, k, b)]) <= Under([a, b]) && Apart([Join(a, k, b)])
  {
    UnderPair(a, b);
    PairNodes(a, b);
    JoinNodes(a, k, b);
    UnderOne(Join(a, k, b));
    hide Under, Apart, Nodes, Distinct;
  }

  lemma JoinedRep(m: Memory, m': Memory, a: Tree, k: int, b: Tree, changed: set<Node>)
    requires Rep(m, a) && Rep(m, b) && SameBut(m, m', changed) && changed !! Under(a.kids) && changed !! Under(b.kids)
    requires Alike(a, b) && a.node in m' && m'[a.node] == Cell(a.keys + [k] + b.keys, Roots(a.kids) + Roots(b.kids))
    ensures RepAll(m', [Join(a, k, b)])
  {
    RepAllFrame(m, m', a.kids, changed);
    RepAllFrame(m, m', b.kids, changed);
    hide Under, RepAll;
    BothRep(m', a.kids, b.kids);
    RootsJoin(a.kids, b.kids);
    MadeRep(m', Join(a, k, b));
    OneRep(m', Join(a, k, b));
  }

  lemma OneRep(m: Memory, t: Tree)
    requires Rep(m, t)
    ensures RepAll(m, [t])
  {
  }

  lemma BothRep(m: Memory, p: seq<Tree>, q: seq<Tree>)
    requires RepAll(m, p) && RepAll(m, q)
    ensures RepAll(m, p + q)
  {
    hide Rep;
    forall i | 0 <= i < |p + q|
      ensures Rep(m, (p + q)[i])
    {
      assert (p + q)[i] == if i < |p| then p[i] else q[i - |p|];
    }
  }

  lemma RootsJoin(p: seq<Tree>, q: seq<Tree>)
    ensures Roots(p + q) == Roots(p) + Roots(q)
  {
  }

  lemma MergedHolds(m: Memory, m': Memory, c: Tree, p: nat, h: nat, t: nat)
    requires h > 0 && Holds(m, c, h, t) && p < |c.keys| && |c.kids| == |c.keys| + 1
    requires |c.kids[p].keys| + 1 + |c.kids[p + 1].keys| <= 2 * t - 1
    requires var a, b := c.kids[p], c.kids[p + 1];
      && SameBut(m, m', {c.node, a.node, b.node}) && m'.Keys == m.Keys
      && a.node in m' && m'[a.node] == Cell(a.keys + [c.keys[p]] + b.keys, Roots(a.kids) + Roots(b.kids))
      && c.node in m'
      && m'[c.node] == Cell(c.keys[..p] + c.keys[p + 1..], Roots(c.kids)[..p + 1] + Roots(c.kids)[p + 2..])
    ensures Refilled(m, c, m', Merged(c, p, Join(c.kids[p], c.keys[p], c.kids[p + 1])), h, t)
    ensures Order(Join(c.kids[p], c.keys[p], c.kids[p + 1])) == Order(c.kids[p]) + [c.keys[p]] + Order(c.kids[p + 1])
  {
    hide Rep, Distinct, Fits, Order, Nodes, Under, Apart, SameBut, Roots;
    HoldsParts(m, c, h, t);
    var a, k, b := c.kids[p], c.keys[p], c.kids[p + 1];
    var d := Join(a, k, b);
    var c' := Merged(c, p, d);
    var changed := {c.node, a.node, b.node};
    PairApart(c, p);
    ChildRep(m, c, p);
    ChildRep(m, c, p + 1);
    KidHolds(m, c, h, t, p);
    KidHolds(m, c, h, t, p + 1);
    HoldsParts(m, a, h - 1, t);
    HoldsParts(m, b, h - 1, t);
    JoinFits(a, k, b, h - 1, t);
    JoinOrder(a, k, b);
    MergedOrder(c, p, d);
    JoinedNodes(a, k, b);
    MiddleNodes(c, c'.keys, p, p + 2, [d]);
    MiddleFits(c, c'.keys, p, p + 2, [d], h, t);
    JoinedRep(m, m', a, k, b, changed);
    MergedRoots(c, p, d);
    MiddleRep(m, m', c, c'.keys, p, p + 2, [d], changed);
    SameWider(m, m', changed, Nodes(c));
  }

  // ---- filling a child -----------------------------------------------------------------------------------------

  /** The last key of the left neighbour goes up, the key between comes down. */
  function FromLeft(a: Tree, k: int, b: Tree): (Tree, int, Tree)
    requires a.keys != []
  {
    var n := |a.keys|;
    if a.kids == [] || b.kids == [] then (Tree(a.node, a.keys[..n - 1], []), a.keys[n - 1], Tree(b.node, [k] + b.keys, []))
    else (Tree(a.node, a.keys[..n - 1], a.kids[..|a.kids| - 1]), a.keys[n - 1],
          Tree(b.node, [k] + b.keys, [a.kids[|a.kids| - 1]] + b.kids))
  }

  /** The first key of the right neighbour goes up, the key between comes down. */
  function FromRight(a: Tree, k: int, b: Tree): (Tree, int, Tree)
    requires b.keys != []
  {
    if a.kids == [] || b.kids == [] then (Tree(a.node, a.keys + [k], []), b.keys[0], Tree(b.node, b.keys[1..], []))
    else (Tree(a.node, a.keys + [k], a.kids + [b.kids[0]]), b.keys[0], Tree(b.node, b.keys[1..], b.kids[1..]))
  }

  lemma FromLeftRebalances(a: Tree, k: int, b: Tree)
    requires Alike(a, b) && a.keys != []
    ensures var r := FromLeft(a, k, b);
      Rebalanced(a, k, b, r.0, r.1, r.2)
  {
    var r := FromLeft(a, k, b);
    assert r.0.keys + [r.1] + r.2.keys == a.keys + [k] + b.keys;
    assert r.0.kids + r.2.kids == a.kids + b.kids;
  }

  lemma FromRightRebalances(a: Tree, k: int, b: Tree)
    requires Alike(a, b) && b.keys != []
    ensures var r := FromRight(a, k, b);
      Rebalanced(a, k, b, r.0, r.1, r.2)
  {
    var r := FromRight(a, k, b);
    assert r.0.keys + [r.1] + r.2.keys == a.keys + [k] + b.keys;
    assert r.0.kids + r.2.kids == a.kids + b.kids;
  }

  lemma FromLeftRoots(a: Tree, k: int, b: Tree)
    requires Alike(a, b) && a.keys != []
    ensures var r := FromLeft(a, k, b);
      && Roots(r.0.kids) == (if a.kids == [] then [] else Roots(a.kids)[..|a.keys|])
      && Roots(r.2.kids) == (if a.kids == [] then [] else [Roots(a.kids)[|a.keys|]] + Roots(b.kids))
  {
  }

  lemma FromRightRoots(a: Tree, k: int, b: Tree)
    requires Alike(a, b) && b.keys != []
    ensures var r := FromRight(a, k, b);
      && Roots(r.0.kids) == (if a.kids == [] then [] else Roots(a.kids) + [Roots(b.kids)[0]])
      && Roots(r.2.kids) == (if a.kids == [] then [] else Roots(b.kids)[1..])
  {
  }

  /** Two neighbouring children and their parent, as nodes and memory show them. */
  lemma PairNodeFacts(m: Memory, c: Tree, p: nat, h: nat, t: nat, cap: nat)
    requires Synced(m, cap) && Holds(m, c, h, t) && h > 0 && p < |c.keys|
    ensures |c.kids| == |c.keys| + 1
    ensures var a, b := c.kids[p], c.kids[p + 1];
      && c.node != a.node && c.node != b.node && a.node != b.node && c.node in m && a.node in m && b.node in m
      && m[c.node] == Cell(c.keys, Roots(c.kids)) && m[a.node] == Cell(a.keys, Roots(a.kids)) && m[b.node] == Cell(b.keys, Roots(b.kids))
      && c.node.internal && a.node.internal == (a.kids != []) && b.node.internal == (b.kids != []) && Alike(a, b)
      && a.node.internal == b.node.internal
      && c.node.n == |c.keys| && a.node.n == |a.keys| && b.node.n == |b.keys|
      && c.node.keys[..c.node.n] == c.keys && a.node.keys[..a.node.n] == a.keys && b.node.keys[..b.node.n] == b.keys
      && c.node.Shaped(cap) && a.node.Shaped(cap) && b.node.Shaped(cap)
  {
    hide Rep, Distinct, Order, Nodes, Under, Apart, Synced, Roots;
    HoldsParts(m, c, h, t);
    var a, b := c.kids[p], c.kids[p + 1];
    PairApart(c, p);
    KidHolds(m, c, h, t, p);
    KidHolds(m, c, h, t, p + 1);
    NodeFacts(m, c, h, t, cap);
    NodeFacts(m, a, h - 1, t, cap);
    NodeFacts(m, b, h - 1, t, cap);
  }

  lemma ThreeCells(m: Memory, m1: Memory, x: Node, a: Node, b: Node, cx: Cell, ca: Cell, cb: Cell)
    requires x in m && a in m && b in m && x != a && x != b && a != b
    requires m1 == m[b := cb][x := cx][a := ca] || m1 == m[a := ca][x := cx][b := cb]
    ensures m1.Keys == m.Keys && SameBut(m, m1, {x, a, b}) && m1[x] == cx && m1[a] == ca && m1[b] == cb
  {
  }

  lemma FootThree(m: Memory, x: Node, a: Node, b: Node)
    requires x in m && a in m && b in m
    ensures {x as object, a as object, b as object, x.keys as object, a.keys as object, b.keys as object,
             x.ptr as object, a.ptr as object, b.ptr as object} <= Foot(m)
  {
  }

  /** The moves of `__kb_delp_aux` when the left neighbour `y` of `xp` spares a key. */
  method MoveFromLeft(x: Node, p: nat, y: Node, xp: Node, ghost m: Memory, ghost cap: nat) returns (ghost m': Memory)
    requires Synced(m, cap) && Owned(m) && x in m && y in m && xp in m && x != y && x != xp && y != xp
    requires p < x.n && 0 < y.n && xp.n < cap && y.internal == xp.internal
    modifies Foot(m)
    ensures Synced(m', cap) && Owned(m') && m'.Keys == m.Keys && SameBut(m, m', {x, y, xp})
    ensures var cx, cy, cp := m[x], m[y], m[xp];
      && |cx.keys| == x.n && 0 < |cy.keys| && (y.internal ==> |cy.kids| == |cy.keys| + 1)
      && m'[xp] == Cell([cx.keys[p]] + cp.keys, if y.internal then [cy.kids[|cy.keys|]] + cp.kids else [])
      && m'[x] == cx.(keys := cx.keys[p := cy.keys[|cy.keys| - 1]])
      && m'[y] == Cell(cy.keys[..|cy.keys| - 1], if y.internal then cy.kids[..|cy.keys|] else [])
  {
    hide *;
    FootThree(m, x, y, xp);
    StillSynced(m, x, cap);
    StillSynced(m, y, cap);
    var up := y.keys[y.n - 1];
    var last := LastChild(y, m, cap);
    ghost var m1, m2;
    m1 := FrontKey(xp, x.keys[p], last, m, cap);
    OwnedSame(m, m1);
    StillSynced(m1, x, cap);
    m2 := ChangeKey(x, p, up, m1, cap);
    OwnedSame(m1, m2);
    StillSynced(m2, y, cap);
    m' := DropBack(y, m2, cap);
    OwnedSame(m2, m');
    ThreeCells(m, m', x, y, xp, m'[x], m'[y], m'[xp]);
  }

  /** Child `p + 1` takes a key from its left neighbour, which can spare one. */
  method BorrowLeft(x: Node, p: nat, y: Node, xp: Node, t: nat, ghost m: Memory, ghost c: Tree, ghost h: nat)
    returns (ghost m': Memory, ghost c': Tree)
    requires t >= 2 && Synced(m, 2 * t - 1) && Owned(m) && Holds(m, c, h, t) && c.node == x && h > 0 && p < |c.keys|
    requires |c.kids| == |c.keys| + 1 && y == c.kids[p].node && xp == c.kids[p + 1].node
    requires t <= |c.kids[p].keys| && |c.kids[p + 1].keys| == t - 1
    modifies Foot(m)
    ensures Synced(m', 2 * t - 1) && Owned(m') && Refilled(m, c, m', c', h, t)
    ensures var r := FromLeft(c.kids[p], c.keys[p], c.kids[p + 1]);
      c' == Paired(c, p, r.0, r.1, r.2) && |r.2.keys| == t
  {
    hide *;
    ghost var cap := 2 * t - 1;
    ghost var a, b := c.kids[p], c.kids[p + 1];
    KidSizes(m, c, h, t, p);
    PairNodeFacts(m, c, p, h, t, cap);
    ghost var r := FromLeft(a, c.keys[p], b);
    FromLeftRebalances(a, c.keys[p], b);
    FromLeftRoots(a, c.keys[p], b);
    FromLeftIs(a, c.keys[p], b);
    m' := MoveFromLeft(x, p, y, xp, m, cap);
    c' := Paired(c, p, r.0, r.1, r.2);
    PairedHolds(m, m', c, p, r.0, r.1, r.2, h, t);
  }

  lemma StillSynced(m: Memory, n: Node, cap: nat)
    requires Synced(m, cap) && n in m
    ensures n.Shaped(cap) && m[n] == n.Fields() && n.n == |m[n].keys| && m[n].keys == n.keys[..n.n]
  {
  }

  lemma KidSizes(m: Memory, c: Tree, h: nat, t: nat, p: nat)
    requires Holds(m, c, h, t) && h > 0 && p < |c.keys| && |c.kids| == |c.keys| + 1
    ensures |c.keys| <= 2 * t - 1 && |c.kids[p].keys| <= 2 * t - 1 && |c.kids[p + 1].keys| <= 2 * t - 1
  {
    KidHolds(m, c, h, t, p);
    KidHolds(m, c, h, t, p + 1);
  }

  lemma FromLeftIs(a: Tree, k: int, b: Tree)
    requires Alike(a, b) && a.keys != []
    ensures var r := FromLeft(a, k, b);
      && r.0.node == a.node && r.2.node == b.node && r.1 == a.keys[|a.keys| - 1]
      && r.0.keys == a.keys[..|a.keys| - 1] && r.2.keys == [k] + b.keys
  {
  }

  /** The last child of an internal node, null for a leaf. */
  method LastChild(y: Node, ghost m: Memory, ghost cap: nat) returns (c: Node?)
    requires Synced(m, cap) && y in m
    ensures y.internal ==> |m[y].kids| == y.n + 1 && c == m[y].kids[y.n]
  {
    c := if y.internal then y.ptr[y.n] else null;
  }

  lemma FromRightIs(a: Tree, k: int, b: Tree)
    requires Alike(a, b) && b.keys != []
    ensures var r := FromRight(a, k, b);
      && r.0.node == a.node && r.2.node == b.node && r.1 == b.keys[0]
      && r.0.keys == a.keys + [k] && r.2.keys == b.keys[1..]
  {
  }

  method FirstChild(y: Node, ghost m: Memory, ghost cap: nat) returns (c: Node?)
    requires Synced(m, cap) && y in m
    ensures y.internal ==> |m[y].kids| == y.n + 1 && c == m[y].kids[0]
  {
    c := if y.internal then y.ptr[0] else null;
  }

  /** The moves of `__kb_delp_aux` when the right neighbour `y` of `xp` spares a key. */
  method MoveFromRight(x: Node, p: nat, xp: Node, y: Node, ghost m: Memory, ghost cap: nat) returns (ghost m': Memory)
    requires Synced(m, cap) && Owned(m) && x in m && y in m && xp in m && x != y && x != xp && y != xp
    requires p < x.n && 0 < y.n && xp.n < cap && y.internal == xp.internal
    modifies Foot(m)
    ensures Synced(m', cap) && Owned(m') && m'.Keys == m.Keys && SameBut(m, m', {x, xp, y})
    ensures var cx, cy, cp := m[x], m[y], m[xp];
      && |cx.keys| == x.n && 0 < |cy.keys| && (y.internal ==> |cy.kids| == |cy.keys| + 1)
      && m'[xp] == Cell(cp.keys + [cx.keys[p]], if y.internal then cp.kids + [cy.kids[0]] else [])
      && m'[x] == cx.(keys := cx.keys[p := cy.keys[0]])
      && m'[y] == Cell(cy.keys[1..], if y.internal then cy.kids[1..] else [])
  {
    hide *;
    FootThree(m, x, y, xp);
    StillSynced(m, x, cap);
    StillSynced(m, y, cap);
    var up := y.keys[0];
    var first := FirstChild(y, m, cap);
    ghost var m1, m2;
    m1 := BackKey(xp, x.keys[p], first, m, cap);
    OwnedSame(m, m1);
    StillSynced(m1, x, cap);
    m2 := ChangeKey(x, p, up, m1, cap);
    OwnedSame(m1, m2);
    StillSynced(m2, y, cap);
    m' := DropFront(y, m2, cap);
    OwnedSame(m2, m');
    ThreeCells(m, m', x, xp, y, m'[x], m'[xp], m'[y]);
  }

  /** Child `p` takes a key from its right neighbour, which can spare one. */
  method BorrowRight(x: Node, p: nat, xp: Node, y: Node, t: nat, ghost m: Memory, ghost c: Tree, ghost h: nat)
    returns (ghost m': Memory, ghost c': Tree)
    requires t >= 2 && Synced(m, 2 * t - 1) && Owned(m) && Holds(m, c, h, t) && c.node == x && h > 0 && p < |c.keys|
    requires |c.kids| == |c.keys| + 1 && xp == c.kids[p].node && y == c.kids[p + 1].node
    requires |c.kids[p].keys| == t - 1 && t <= |c.kids[p + 1].keys|
    modifies Foot(m)
    ensures Synced(m', 2 * t - 1) && Owned(m') && Refilled(m, c, m', c', h, t)
    ensures var r := FromRight(c.kids[p], c.keys[p], c.kids[p + 1]);
      c' == Paired(c, p, r.0, r.1, r.2) && |r.0.keys| == t
  {
    hide *;
    ghost var cap := 2 * t - 1;
    ghost var a, b := c.kids[p], c.kids[p + 1];
    KidSizes(m, c, h, t, p);
    PairNodeFacts(m, c, p, h, t, cap);
    ghost var r := FromRight(a, c.keys[p], b);
    FromRightRebalances(a, c.keys[p], b);
    FromRightRoots(a, c.keys[p], b);
    FromRightIs(a, c.keys[p], b);
    m' := MoveFromRight(x, p, xp, y, m, cap);
    c' := Paired(c, p, r.0, r.1, r.2);
    PairedHolds(m, m', c, p, r.0, r.1, r.2, h, t);
  }

  /** The right one `z` of two neighbours joins the left one `y`, with `k`, the key between them. */
  method MergeAt(x: Node, p: nat, y: Node, z: Node, k: int, t: nat, ghost m: Memory, ghost c: Tree, ghost h: nat)
    returns (ghost m': Memory, ghost c': Tree)
    requires t >= 2 && Synced(m, 2 * t - 1) && Owned(m) && Holds(m, c, h, t) && c.node == x && h > 0 && p < |c.keys|
    requires |c.kids| == |c.keys| + 1 && y == c.kids[p].node && z == c.kids[p + 1].node && k == c.keys[p]
    requires |c.kids[p].keys| == t - 1 && |c.kids[p + 1].keys| == t - 1
    modifies Foot(m)
    ensures Synced(m', 2 * t - 1) && Owned(m') && Refilled(m, c, m', c', h, t)
    ensures var d := Join(c.kids[p], c.keys[p], c.kids[p + 1]);
      && c' == Merged(c, p, d) && |d.keys| == 2 * t - 1 && Order(d) == Order(c.kids[p]) + [c.keys[p]] + Order(c.kids[p + 1])
  {
    hide *;
    ghost var cap := 2 * t - 1;
    ghost var a, b := c.kids[p], c.kids[p + 1];
    PairNodeFacts(m, c, p, h, t, cap);
    FootThree(m, x, y, z);
    ghost var m1 := Append(y, k, z, m, cap);
    OwnedSame(m, m1);
    StillSynced(m1, x, cap);
    m' := TakeOut(x, p, m1, cap);
    OwnedSame(m1, m');
    TwoCells(m, m', x, y, z, m'[x], m'[y]);
    MergeCells(a, c.keys[p], b);
    c' := Merged(c, p, Join(a, c.keys[p], b));
    MergedHolds(m, m', c, p, h, t);
  }

  lemma TwoCells(m: Memory, m1: Memory, x: Node, a: Node, b: Node, cx: Cell, ca: Cell)
    requires x in m && a in m && x != a && m1 == m[a := ca][x := cx]
    ensures m1.Keys == m.Keys && SameBut(m, m1, {x, a, b}) && m1[x] == cx && m1[a] == ca
  {
  }

  lemma MergeCells(a: Tree, k: int, b: Tree)
    requires Alike(a, b)
    ensures a.kids == [] ==> Roots(a.kids) + Roots(b.kids) == []
    ensures |Join(a, k, b).keys| == |a.keys| + 1 + |b.keys|
  {
  }

  // ---- where the key is after filling --------------------------------------------------------------------

  /** Every key of `s` is in `s'`. */
  ghost predicate Covers(s: seq<int>, s': seq<int>) {
    forall key :: key in s ==> key in s'
  }

  lemma KeysIn(a: Tree, h: nat, t: nat)
    requires Fits(a, h, t) && Ascending(Order(a))
    ensures forall i :: 0 <= i < |a.keys| ==> a.keys[i] in Order(a)
  {
    if h > 0 {
      KeysAscending(a);
    }
  }

  lemma StillRight(a: seq<int>, k: int, b: seq<int>, a': seq<int>, k': int, b': seq<int>, key: int)
    requires a + [k] + b == a' + [k'] + b' && Ascending(a + [k] + b) && k' in a && key in b
    ensures key in b'
  {
    var s := a + [k] + b;
    assert s[|a'|] == k';
    var i :| 0 <= i < |a| && a[i] == k';
    assert s[i] == k';
    assert i == |a'|;
    var j :| 0 <= j < |b| && b[j] == key;
    assert s[|a| + 1 + j] == key;
    assert b'[|a| - |a'| + j] == key;
  }

  lemma StillLeft(a: seq<int>, k: int, b: seq<int>, a': seq<int>, k': int, b': seq<int>, key: int)
    requires a + [k] + b == a' + [k'] + b' && Ascending(a + [k] + b) && k' in b && key in a
    ensures key in a'
  {
    var s := a + [k] + b;
    assert s[|a'|] == k';
    var i :| 0 <= i < |b| && b[i] == k';
    assert s[|a| + 1 + i] == k';
    assert |a| + 1 + i == |a'|;
    var j :| 0 <= j < |a| && a[j] == key;
    assert s[j] == key && a'[j] == key;
  }

  lemma BorrowedLeft(m: Memory, c: Tree, p: nat, h: nat, t: nat)
    requires h > 0 && Holds(m, c, h, t) && p < |c.keys| && |c.kids| == |c.keys| + 1 && c.kids[p].keys != []
    ensures Covers(Order(c.kids[p + 1]), Order(FromLeft(c.kids[p], c.keys[p], c.kids[p + 1]).2))
  {
    hide Order, Ascending, Fits, Rep, Distinct, Rebalanced, FromLeft, HeadOf, TailOf;
    var a, k, b := c.kids[p], c.keys[p], c.kids[p + 1];
    var r := FromLeft(a, k, b);
    HoldsParts(m, c, h, t);
    KidHolds(m, c, h, t, p);
    KidHolds(m, c, h, t, p + 1);
    HoldsParts(m, a, h - 1, t);
    KidsAlike(m, c, p, h, t);
    FromLeftRebalances(a, k, b);
    FromLeftIs(a, k, b);
    RebalancedOrder(a, k, b, r.0, r.1, r.2);
    KeysIn(a, h - 1, t);
    OrderTwo(c, p);
    AscendingThree(HeadOf(c, p), Order(a) + [k] + Order(b), TailOf(c, p + 1));
    forall key | key in Order(b)
      ensures key in Order(r.2)
    {
      StillRight(Order(a), k, Order(b), Order(r.0), r.1, Order(r.2), key);
    }
  }

  lemma BorrowedRight(m: Memory, c: Tree, p: nat, h: nat, t: nat)
    requires h > 0 && Holds(m, c, h, t) && p < |c.keys| && |c.kids| == |c.keys| + 1 && c.kids[p + 1].keys != []
    ensures Covers(Order(c.kids[p]), Order(FromRight(c.kids[p], c.keys[p], c.kids[p + 1]).0))
  {
    hide Order, Ascending, Fits, Rep, Distinct, Rebalanced, FromRight, HeadOf, TailOf;
    var a, k, b := c.kids[p], c.keys[p], c.kids[p + 1];
    var r := FromRight(a, k, b);
    HoldsParts(m, c, h, t);
    KidHolds(m, c, h, t, p);
    KidHolds(m, c, h, t, p + 1);
    HoldsParts(m, b, h - 1, t);
    KidsAlike(m, c, p, h, t);
    FromRightRebalances(a, k, b);
    FromRightIs(a, k, b);
    RebalancedOrder(a, k, b, r.0, r.1, r.2);
    KeysIn(b, h - 1, t);
    OrderTwo(c, p);
    AscendingThree(HeadOf(c, p), Order(a) + [k] + Order(b), TailOf(c, p + 1));
    forall key | key in Order(a)
      ensures key in Order(r.0)
    {
      StillLeft(Order(a), k, Order(b), Order(r.0), r.1, Order(r.2), key);
    }
  }

  lemma KidsAlike(m: Memory, c: Tree, p: nat, h: nat, t: nat)
    requires h > 0 && Holds(m, c, h, t) && p < |c.keys| && |c.kids| == |c.keys| + 1
    ensures Alike(c.kids[p], c.kids[p + 1])
  {
    KidHolds(m, c, h, t, p);
    KidHolds(m, c, h, t, p + 1);
  }

  /** Child `j` of `c'` has a key to spare and all the keys that child `i` of `c` had. */
  ghost predicate Filled(c: Tree, i: nat, c': Tree, j: nat, t: nat) {
    && i <= |c.keys| && j <= |c'.keys| && |c.kids| == |c.keys| + 1 && |c'.kids| == |c'.keys| + 1
    && t <= |c'.kids[j].keys| && |c.keys| <= |c'.keys| + 1
    && (i == |c.keys| ==> j == |c'.keys|) && (i == 0 ==> j == 0)
    && Covers(Order(c.kids[i]), Order(c'.kids[j]))
  }

  lemma PairedFilled(c: Tree, p: nat, a: Tree, k: int, b: Tree, t: nat)
    requires p < |c.keys| && |c.kids| == |c.keys| + 1
    ensures var c' := Paired(c, p, a, k, b);
      && |c'.kids| == |c'.keys| + 1 && |c'.keys| == |c.keys| && c'.kids[p] == a && c'.kids[p + 1] == b
      && (t <= |b.keys| && Covers(Order(c.kids[p + 1]), Order(b)) ==> Filled(c, p + 1, c', p + 1, t))
      && (t <= |a.keys| && Covers(Order(c.kids[p]), Order(a)) ==> Filled(c, p, c', p, t))
  {
  }

  lemma MergedFilled(c: Tree, p: nat, t: nat)
    requires p < |c.keys| && |c.kids| == |c.keys| + 1
    requires var d := Join(c.kids[p], c.keys[p], c.kids[p + 1]);
      t <= |d.keys| && Order(d) == Order(c.kids[p]) + [c.keys[p]] + Order(c.kids[p + 1])
    ensures var c' := Merged(c, p, Join(c.kids[p], c.keys[p], c.kids[p + 1]));
      && |c'.kids| == |c'.keys| + 1 && |c'.keys| + 1 == |c.keys| && c'.kids[p].node == c.kids[p].node
      && Filled(c, p, c', p, t) && Filled(c, p + 1, c', p, t) && c.keys[p] in Order(c'.kids[p])
  {
    var d := Join(c.kids[p], c.keys[p], c.kids[p + 1]);
    var c' := Merged(c, p, d);
    assert c'.kids[p] == d;
    hide Order;
    assert Covers(Order(c.kids[p]), Order(d));
    assert Covers(Order(c.kids[p + 1]), Order(d));
    assert c.keys[p] in [c.keys[p]];
  }

  lemma Unfilled(m: Memory, c: Tree, i: nat, h: nat, t: nat)
    requires Holds(m, c, h, t) && h > 0 && i <= |c.keys| && |c.kids| == |c.keys| + 1 && t <= |c.kids[i].keys|
    ensures Refilled(m, c, m, c, h, t) && Filled(c, i, c, i, t)
  {
  }

  lemma FromLeftFilled(m: Memory, c: Tree, p: nat, h: nat, t: nat)
    requires h > 0 && Holds(m, c, h, t) && p < |c.keys| && |c.kids| == |c.keys| + 1 && c.kids[p].keys != []
    requires t <= |FromLeft(c.kids[p], c.keys[p], c.kids[p + 1]).2.keys|
    ensures var r := FromLeft(c.kids[p], c.keys[p], c.kids[p + 1]);
      var c' := Paired(c, p, r.0, r.1, r.2);
      && Filled(c, p + 1, c', p + 1, t) && |c'.kids| == |c'.keys| + 1 && |c'.keys| == |c.keys|
      && c'.kids[p + 1].node == c.kids[p + 1].node
  {
    hide *;
    var r := FromLeft(c.kids[p], c.keys[p], c.kids[p + 1]);
    BorrowedLeft(m, c, p, h, t);
    PairedFilled(c, p, r.0, r.1, r.2, t);
    KidsAlike(m, c, p, h, t);
    FromLeftIs(c.kids[p], c.keys[p], c.kids[p + 1]);
  }

  lemma FromRightFilled(m: Memory, c: Tree, p: nat, h: nat, t: nat)
    requires h > 0 && Holds(m, c, h, t) && p < |c.keys| && |c.kids| == |c.keys| + 1 && c.kids[p + 1].keys != []
    requires t <= |FromRight(c.kids[p], c.keys[p], c.kids[p + 1]).0.keys|
    ensures var r := FromRight(c.kids[p], c.keys[p], c.kids[p + 1]);
      var c' := Paired(c, p, r.0, r.1, r.2);
      && Filled(c, p, c', p, t) && |c'.kids| == |c'.keys| + 1 && |c'.keys| == |c.keys|
      && c'.kids[p].node == c.kids[p].node
  {
    hide *;
    var r := FromRight(c.kids[p], c.keys[p], c.kids[p + 1]);
    BorrowedRight(m, c, p, h, t);
    PairedFilled(c, p, r.0, r.1, r.2, t);
    KidsAlike(m, c, p, h, t);
    FromRightIs(c.kids[p], c.keys[p], c.kids[p + 1]);
  }

  /** Child `i`, `xp`, has only `t - 1` keys: it borrows one or is merged. */
  method FillPoor(x: Node, i: nat, xp0: Node, t: nat, ghost m: Memory, ghost c: Tree, ghost h: nat)
    returns (xp: Node, ghost j: nat, ghost m': Memory, ghost c': Tree)
    requires t >= 2 && Synced(m, 2 * t - 1) && Owned(m) && Holds(m, c, h, t) && c.node == x && h > 0
    requires 1 <= |c.keys| && |c.kids| == |c.keys| + 1 && i <= |c.keys| && xp0 == c.kids[i].node && |c.kids[i].keys| == t - 1
    modifies Foot(m)
    ensures Synced(m', 2 * t - 1) && Owned(m') && Refilled(m, c, m', c', h, t)
    ensures Filled(c, i, c', j, t) && xp == c'.kids[j].node
  {
    hide *;
    ghost var cap := 2 * t - 1;
    NodeFacts(m, c, h, t, cap);
    if i > 0 { KidNode(m, c, i - 1, h, t, cap); }
    if i < x.n { KidNode(m, c, i + 1, h, t, cap); }
    if i > 0 && x.ptr[i - 1].n >= t {
      j, xp := i, xp0;
      m', c' := BorrowLeft(x, i - 1, x.ptr[i - 1], xp0, t, m, c, h);
      FromLeftFilled(m, c, i - 1, h, t);
    } else if i < x.n && x.ptr[i + 1].n >= t {
      j, xp := i, xp0;
      m', c' := BorrowRight(x, i, xp0, x.ptr[i + 1], t, m, c, h);
      FromRightFilled(m, c, i, h, t);
    } else if i > 0 && x.ptr[i - 1].n == t - 1 {
      j, xp := i - 1, x.ptr[i - 1];
      m', c' := MergeAt(x, i - 1, xp, xp0, x.keys[i - 1], t, m, c, h);
      MergedFilled(c, i - 1, t);
    } else {
      j, xp := i, xp0;
      m', c' := MergeAt(x, i, xp0, x.ptr[i + 1], x.keys[i], t, m, c, h);
      MergedFilled(c, i, t);
    }
  }

  /** The part of `__kb_delp_aux` that makes sure the child it goes down to has a key to spare. */
  method Fill(x: Node, i: nat, t: nat, ghost m: Memory, ghost c: Tree, ghost h: nat)
    returns (xp: Node, ghost j: nat, ghost m': Memory, ghost c': Tree)
    requires t >= 2 && Synced(m, 2 * t - 1) && Owned(m) && Holds(m, c, h, t) && c.node == x && h > 0
    requires 1 <= |c.keys| && i <= |c.keys|
    modifies Foot(m)
    ensures Synced(m', 2 * t - 1) && Owned(m') && Refilled(m, c, m', c', h, t)
    ensures Filled(c, i, c', j, t) && xp == c'.kids[j].node
  {
    hide *;
    NodeFacts(m, c, h, t, 2 * t - 1);
    KidNode(m, c, i, h, t, 2 * t - 1);
    xp := x.ptr[i];
    if xp.n == t - 1 {
      xp, j, m', c' := FillPoor(x, i, xp, t, m, c, h);
    } else {
      Unfilled(m, c, i, h, t);
      j, m', c' := i, m, c;
    }
  }

  // ---- deleting ---------------------------------------------------------------------------------------------

  /** The key that `__kb_delp_aux` takes out for `s`: `k` for 0, the last for 1, the first for 2. */
  function Target(order: seq<int>, k: int, s: int): int
    requires s != 0 ==> order != []
  {
    if s == 0 then k else if s == 1 then order[|order| - 1] else order[0]
  }

  /** A subtree that is to lose a key: `s` is 0 and `k` one of its keys, or `s` is 1 or 2. */
  ghost predicate Loses(m: Memory, c: Tree, k: int, s: int, h: nat, t: nat) {
    Holds(m, c, h, t) && 1 <= |c.keys| && 0 <= s <= 2 && (s == 0 ==> k in Order(c))
  }

  /** What a delete of `key` leaves of it. */
  ghost predicate Lost(m: Memory, c: Tree, key: int, m': Memory, c': Tree, h: nat, t: nat) {
    && Left(m, c, m', c', h, t) && Order(c') == Without(Order(c), key) && |c.keys| <= |c'.keys| + 1
    && key in Order(c) && m'.Keys == m.Keys
  }

  lemma HasKeys(m: Memory, c: Tree, h: nat, t: nat)
    requires Holds(m, c, h, t) && 1 <= |c.keys|
    ensures Order(c) != []
  {
    if h > 0 {
      KeysAscending(c);
    }
  }

  lemma LosesParts(m: Memory, c: Tree, k: int, s: int, h: nat, t: nat)
    requires Loses(m, c, k, s, h, t)
    ensures Holds(m, c, h, t) && 1 <= |c.keys| && 0 <= s <= 2 && Order(c) != [] && Target(Order(c), k, s) in Order(c)
  {
    HasKeys(m, c, h, t);
  }

  lemma TargetKid(c: Tree, j: nat, k: int, s: int)
    requires |c.kids| == |c.keys| + 1 && j <= |c.keys| && Order(c.kids[j]) != []
    requires (s == 1 ==> j == |c.keys|) && (s == 2 ==> j == 0) && 0 <= s <= 2
    ensures Order(c) != [] && Target(Order(c), k, s) == Target(Order(c.kids[j]), k, s)
  {
    OrderAt(c, j);
    hide Order;
    assert j == 0 ==> HeadOf(c, j) == [];
    assert j == |c.keys| ==> TailOf(c, j) == [];
  }

  lemma KidSides(c: Tree, j: nat, key: int)
    requires |c.kids| == |c.keys| + 1 && j <= |c.keys| && Ascending(Order(c)) && key in Order(c.kids[j])
    ensures Order(c) == HeadOf(c, j) + Order(c.kids[j]) + TailOf(c, j) && Ascending(Order(c.kids[j]))
    ensures AllBelow(HeadOf(c, j), key) && AllAbove(TailOf(c, j), key) && key in Order(c)
    ensures Without(Order(c), key) == HeadOf(c, j) + Without(Order(c.kids[j]), key) + TailOf(c, j)
  {
    OrderAt(c, j);
    hide Order, HeadOf, TailOf, Without;
    AscendingThree(HeadOf(c, j), Order(c.kids[j]), TailOf(c, j));
    WithoutAmong(HeadOf(c, j), Order(c.kids[j]), TailOf(c, j), key);
  }

  lemma WithoutAscending(s: seq<int>, k: int)
    requires Ascending(s) && k in s
    ensures Ascending(Without(s, k)) && |Without(s, k)| == |s| - 1
    ensures forall n :: n in Without(s, k) <==> n in s && n != k
  {
    RankHit(s, k);
    var r, w := Rank(s, k), Without(s, k);
    hide Rank;
    assert forall i :: 0 <= i < |w| ==> w[i] == if i < r then s[i] else s[i + 1];
    forall n
      ensures n in w <==> n in s && n != k
    {
      if n in s && n != k {
        var i :| 0 <= i < |s| && s[i] == n;
        assert w[if i < r then i else i - 1] == n;
      }
    }
  }

  lemma LostParts(m: Memory, c: Tree, key: int, m': Memory, c': Tree, h: nat, t: nat)
    requires Lost(m, c, key, m', c', h, t)
    ensures Left(m, c, m', c', h, t) && Order(c') == Without(Order(c), key) && |c.keys| <= |c'.keys| + 1
    ensures key in Order(c) && m'.Keys == m.Keys
  {
  }

  lemma RefilledParts(m: Memory, c: Tree, m': Memory, c': Tree, h: nat, t: nat)
    requires Refilled(m, c, m', c', h, t)
    ensures Holds(m', c', h, t) && c'.node == c.node && Order(c') == Order(c) && Nodes(c') <= Nodes(c)
    ensures SameBut(m, m', Nodes(c)) && m'.Keys == m.Keys
  {
  }

  /** A delete below child `j`, after filling or without it. */
  lemma KidLost(m: Memory, m1: Memory, m2: Memory, c: Tree, c1: Tree, j: nat, d: Tree, key: int, h: nat, t: nat)
    requires h > 0 && Refilled(m, c, m1, c1, h, t) && j <= |c1.keys| && |c1.kids| == |c1.keys| + 1
    requires |c.keys| <= |c1.keys| + 1 && t <= |c1.kids[j].keys| && Lost(m1, c1.kids[j], key, m2, d, h - 1, t)
    ensures Lost(m, c, key, m2, WithKid(c1, j, d), h, t)
  {
    hide *;
    RefilledParts(m, c, m1, c1, h, t);
    LostParts(m1, c1.kids[j], key, m2, d, h - 1, t);
    HoldsParts(m1, c1, h, t);
    KidHolds(m1, c1, h, t, j);
    LeftParts(m1, c1.kids[j], m2, d, h - 1, t);
    KidDone(m1, m2, c1, j, d);
    MiddleFits(c1, c1.keys, j, j + 1, [d], h, t);
    KidSides(c1, j, key);
    WithKidOrder(c1, j, d);
    WithoutAscending(Order(c1), key);
    Grew(m, m1, m2, Nodes(c), Nodes(c1.kids[j]), Nodes(c), Nodes(c1), Nodes(WithKid(c1, j, d)));
    KeysKept(c1, j, d);
    MakesLost(m, c, key, m2, WithKid(c1, j, d), h, t) by {
      WithKidIs(c1, j, d);
    }
  }

  lemma WithKidIs(c: Tree, j: nat, d: Tree)
    requires j < |c.kids|
    ensures WithKid(c, j, d) == Middle(c, c.keys, j, j + 1, [d])
  {
  }

  lemma MakesLost(m: Memory, c: Tree, key: int, m': Memory, c': Tree, h: nat, t: nat)
    requires Rep(m', c') && Distinct(c') && Fits(c', h, t) && Ascending(Without(Order(c), key))
    requires Order(c') == Without(Order(c), key) && c'.node == c.node && SameBut(m, m', Nodes(c)) && m'.Keys == m.Keys
    requires Nodes(c') <= Nodes(c) + (m'.Keys - m.Keys) && key in Order(c) && |c.keys| <= |c'.keys| + 1
    ensures Lost(m, c, key, m', c', h, t)
  {
  }

  /** Where the key is in a leaf. */
  method LeafIndex(x: Node, k: int, s: int, ghost keys: seq<int>) returns (i: nat)
    requires x.n <= x.keys.Length && x.keys[..x.n] == keys && Ascending(keys) && keys != []
    requires 0 <= s <= 2 && (s == 0 ==> k in keys)
    ensures i < |keys| && keys[i] == Target(keys, k, s)
  {
    var j, r;
    if s != 0 {
      j := if s == 1 then x.n - 1 else -1;
    } else {
      j, r := GetAux(x, k, 0);
      assert forall l :: 0 <= l < |keys| ==> keys[l] == x.keys[l];
    }
    i := if s == 2 then j + 1 else j;
  }

  lemma LeafLost(m: Memory, c: Tree, i: nat, m': Memory, c': Tree, t: nat)
    requires Holds(m, c, 0, t) && i < |c.keys| && c' == Tree(c.node, c.keys[..i] + c.keys[i + 1..], [])
    requires m' == m[c.node := Cell(c'.keys, [])]
    ensures Lost(m, c, c.keys[i], m', c', 0, t)
  {
    var k := c.keys[i];
    RankHit(c.keys, k);
    WithoutAscending(c.keys, k);
    LeafLeft(m, c, m', c', t);
  }

  /** A key out of a leaf. */
  method DelLeaf(x: Node, k: int, s: int, t: nat, ghost m: Memory, ghost c: Tree)
    returns (kp: int, ghost m': Memory, ghost c': Tree)
    requires t >= 2 && Synced(m, 2 * t - 1) && Owned(m) && Loses(m, c, k, s, 0, t) && c.node == x
    modifies Foot(m)
    ensures Synced(m', 2 * t - 1) && Owned(m') && Order(c) != [] && kp == Target(Order(c), k, s)
    ensures Lost(m, c, kp, m', c', 0, t)
  {
    hide *;
    LosesParts(m, c, k, s, 0, t);
    NodeFacts(m, c, 0, t, 2 * t - 1);
    LosesIn(m, c, k, s, 0, t);
    FootHas(m, x);
    var i := LeafIndex(x, k, s, c.keys);
    kp := x.keys[i];
    assert kp == x.keys[..x.n][i];
    m' := TakeKey(x, i, m, 2 * t - 1);
    OwnedSame(m, m');
    c' := Tree(x, c.keys[..i] + c.keys[i + 1..], []);
    LeafLost(m, c, i, m', c', t);
  }

  lemma LosesIn(m: Memory, c: Tree, k: int, s: int, h: nat, t: nat)
    requires Loses(m, c, k, s, h, t)
    ensures s == 0 ==> k in Order(c)
  {
  }

  lemma KidLoses(m: Memory, c: Tree, m1: Memory, c1: Tree, i: nat, j: nat, k: int, s: int, h: nat, t: nat)
    requires t >= 1 && h > 0 && Refilled(m, c, m1, c1, h, t) && Filled(c, i, c1, j, t) && 0 <= s <= 2
    requires (s == 0 ==> k in Order(c.kids[i])) && (s == 1 ==> i == |c.keys|) && (s == 2 ==> i == 0)
    ensures |c1.kids| == |c1.keys| + 1 && j <= |c1.keys| && |c.keys| <= |c1.keys| + 1 && t <= |c1.kids[j].keys|
    ensures Loses(m1, c1.kids[j], k, s, h - 1, t)
    ensures Order(c) != [] && Order(c1.kids[j]) != [] && Target(Order(c), k, s) == Target(Order(c1.kids[j]), k, s)
  {
    hide Order, Fits, Rep, Distinct, Ascending, Target;
    KidHolds(m1, c1, h, t, j);
    HasKeys(m1, c1.kids[j], h - 1, t);
    TargetKid(c1, j, k, s);
  }

  /** What `__kb_delp_aux` does when the key is below child `i`. */
  method DelBelow(x: Node, i: nat, k: int, s: int, t: nat, ghost m: Memory, ghost c: Tree, ghost h: nat)
    returns (kp: int, ghost m': Memory, ghost c': Tree)
    requires t >= 2 && Synced(m, 2 * t - 1) && Owned(m) && Loses(m, c, k, s, h, t) && c.node == x && h > 0
    requires i <= |c.keys| && |c.kids| == |c.keys| + 1
    requires (s == 0 ==> k in Order(c.kids[i])) && (s == 1 ==> i == |c.keys|) && (s == 2 ==> i == 0)
    modifies Foot(m)
    ensures Synced(m', 2 * t - 1) && Owned(m') && Order(c) != [] && kp == Target(Order(c), k, s)
    ensures Lost(m, c, kp, m', c', h, t)
    decreases h, 0
  {
    hide *;
    LosesParts(m, c, k, s, h, t);
    var xp;
    ghost var j, m1, c1, d;
    xp, j, m1, c1 := Fill(x, i, t, m, c, h);
    KidLoses(m, c, m1, c1, i, j, k, s, h, t);
    RefilledParts(m, c, m1, c1, h, t);
    SameFoot(m, m1);
    kp, m', d := DelAux(xp, k, s, t, m1, c1.kids[j], h - 1);
    KidLost(m, m1, m', c, c1, j, d, kp, h, t);
    c' := WithKid(c1, j, d);
  }

  // ---- a key of an internal node -------------------------------------------------------------------

  lemma KeySwapped(m: Memory, m': Memory, c: Tree, i: nat, k: int, h: nat, t: nat)
    requires h > 0 && Rep(m, c) && Distinct(c) && Fits(c, h, t) && i < |c.keys|
    requires m' == m[c.node := m[c.node].(keys := m[c.node].keys[i := k])]
    ensures var c' := c.(keys := c.keys[i := k]);
      && Rep(m', c') && Distinct(c') && Fits(c', h, t) && Nodes(c') == Nodes(c) && m'.Keys == m.Keys
      && SameBut(m, m', {c.node}) && {c.node} <= Nodes(c)
  {
    RepAllFrame(m, m', c.kids, {c.node});
    hide Under, Apart;
  }

  lemma WithoutMiddle(p: seq<int>, k: int, q: seq<int>)
    requires Ascending(p + [k] + q)
    ensures Without(p + [k] + q, k) == p + q
  {
    AscendingThree(p, [k], q);
    assert [k][0] == k;
    WithoutAmong(p, [k], q, k);
    assert Without([k], k) == [] && p + [] == p;
  }

  /** Key `i` goes, and the keys around it become those of `a`, `k` and those of `b`. */
  lemma ReplacedOrder(c: Tree, i: nat, a: Tree, k: int, b: Tree)
    requires |c.kids| == |c.keys| + 1 && i < |c.keys| && Ascending(Order(c))
    requires Order(a) + [k] + Order(b) == Order(c.kids[i]) + Order(c.kids[i + 1])
    ensures Order(Paired(c, i, a, k, b)) == Without(Order(c), c.keys[i])
  {
    hide Order, Without, HeadOf, TailOf, Ascending;
    PairedKeys(c, i, a, k, b);
    OrderTwo(c, i);
    var p, q := Order(c.kids[i]), Order(c.kids[i + 1]);
    Spread(HeadOf(c, i), p, [c.keys[i]], q, TailOf(c, i + 1));
    Spread(HeadOf(c, i), p, [], q, TailOf(c, i + 1));
    WithoutMiddle(HeadOf(c, i) + p, c.keys[i], q + TailOf(c, i + 1));
    assert p + [] == p && (HeadOf(c, i) + p) + [] == HeadOf(c, i) + p;
  }

  lemma Spread(h: seq<int>, p: seq<int>, k: seq<int>, q: seq<int>, t: seq<int>)
    ensures h + (p + k + q) + t == (h + p) + k + (q + t)
  {
  }

  lemma LastOut(s: seq<int>)
    requires Ascending(s) && s != []
    ensures Without(s, s[|s| - 1]) + [s[|s| - 1]] == s
  {
    RankHit(s, s[|s| - 1]);
  }

  lemma FirstOut(s: seq<int>)
    requires Ascending(s) && s != []
    ensures [s[0]] + Without(s, s[0]) == s
  {
  }

  /** The last key `up` before key `i` took its place. */
  lemma LastUpOrder(c: Tree, i: nat, d: Tree, up: int)
    requires |c.kids| == |c.keys| + 1 && i < |c.keys| && Ascending(Order(c)) && Order(c.kids[i]) != []
    requires up == Target(Order(c.kids[i]), 0, 1) && Order(d) == Without(Order(c.kids[i]), up)
    ensures Order(WithKid(c, i, d).(keys := c.keys[i := up])) == Without(Order(c), c.keys[i])
  {
    hide Order, Without, Ascending;
    KidSides(c, i, up);
    LastOut(Order(c.kids[i]));
    ReplacedOrder(c, i, d, up, c.kids[i + 1]);
    var a, b := WithKid(c, i, d), Paired(c, i, d, up, c.kids[i + 1]);
    assert a.kids == b.kids;
  }

  /** The first key `up` behind key `i` took its place. */
  lemma FirstUpOrder(c: Tree, i: nat, d: Tree, up: int)
    requires |c.kids| == |c.keys| + 1 && i < |c.keys| && Ascending(Order(c)) && Order(c.kids[i + 1]) != []
    requires up == Target(Order(c.kids[i + 1]), 0, 2) && Order(d) == Without(Order(c.kids[i + 1]), up)
    ensures Order(WithKid(c, i + 1, d).(keys := c.keys[i := up])) == Without(Order(c), c.keys[i])
  {
    hide Order, Without, Ascending;
    KidSides(c, i + 1, up);
    FirstOut(Order(c.kids[i + 1]));
    FrontMoves(Order(c.kids[i]), up, Order(d), Order(c.kids[i + 1]));
    ReplacedOrder(c, i, c.kids[i], up, d);
    var a, b := WithKid(c, i + 1, d), Paired(c, i, c.kids[i], up, d);
    assert a.kids == b.kids;
  }

  lemma FrontMoves(p: seq<int>, k: int, d: seq<int>, q: seq<int>)
    requires [k] + d == q
    ensures p + [k] + d == p + q
  {
  }

  /** The key `up` next to key `i` left child `j`, one of the two around key `i`, and took its place. */
  lemma SwapLost(m: Memory, m1: Memory, m2: Memory, c: Tree, i: nat, j: nat, d: Tree, up: int, h: nat, t: nat)
    requires h > 0 && Holds(m, c, h, t) && i < |c.keys| && j <= |c.keys| && |c.kids| == |c.keys| + 1
    requires t <= |c.kids[j].keys| && Lost(m, c.kids[j], up, m1, d, h - 1, t)
    requires Order(WithKid(c, j, d).(keys := c.keys[i := up])) == Without(Order(c), c.keys[i])
    requires c.node in m1 && i < |m1[c.node].keys| && m2 == m1[c.node := m1[c.node].(keys := m1[c.node].keys[i := up])]
    ensures Lost(m, c, c.keys[i], m2, WithKid(c, j, d).(keys := c.keys[i := up]), h, t)
  {
    hide *;
    var c1 := WithKid(c, j, d);
    Unfilled(m, c, j, h, t);
    KidLost(m, m, m1, c, c, j, d, up, h, t);
    LostParts(m, c, up, m1, c1, h, t);
    LeftParts(m, c, m1, c1, h, t);
    KeysKept(c, j, d);
    KeySwapped(m1, m2, c1, i, up, h, t);
    HoldsParts(m, c, h, t);
    KeysAscending(c);
    WithoutAscending(Order(c), c.keys[i]);
    SwapSame(m, m1, m2, c, Nodes(c1));
    MakesLost(m, c, c.keys[i], m2, c1.(keys := c.keys[i := up]), h, t);
  }

  lemma SwapSame(m: Memory, m1: Memory, m2: Memory, c: Tree, n1: set<Node>)
    requires SameBut(m, m1, Nodes(c)) && SameBut(m1, m2, {c.node}) && m1.Keys == m.Keys && m2.Keys == m.Keys
    requires n1 <= Nodes(c) + (m1.Keys - m.Keys)
    ensures SameBut(m, m2, Nodes(c)) && n1 <= Nodes(c) + (m2.Keys - m.Keys)
  {
    assert c.node in Nodes(c);
    hide Nodes;
  }

  lemma KidLosesEnd(m: Memory, c: Tree, j: nat, k: int, s: int, h: nat, t: nat)
    requires t >= 1 && h > 0 && Holds(m, c, h, t) && j <= |c.keys| && |c.kids| == |c.keys| + 1 && t <= |c.kids[j].keys|
    requires s == 1 || s == 2
    ensures Loses(m, c.kids[j], k, s, h - 1, t) && Order(c.kids[j]) != []
    ensures Target(Order(c.kids[j]), k, s) == Target(Order(c.kids[j]), 0, s)
  {
    hide Order, Fits, Rep, Distinct, Ascending;
    KidHolds(m, c, h, t, j);
    HasKeys(m, c.kids[j], h - 1, t);
  }

  /** The last key below child `i`, or the first below child `i + 1`, takes the place of key `i`. */
  method DelSwap(x: Node, i: nat, j: nat, xp: Node, k: int, s: int, t: nat, ghost m: Memory, ghost c: Tree, ghost h: nat)
    returns (kp: int, ghost m': Memory, ghost c': Tree)
    requires t >= 2 && Synced(m, 2 * t - 1) && Owned(m) && Holds(m, c, h, t) && c.node == x && h > 0
    requires i < |c.keys| && |c.kids| == |c.keys| + 1 && (if s == 1 then j == i else s == 2 && j == i + 1)
    requires xp == c.kids[j].node && t <= |c.kids[j].keys|
    modifies Foot(m)
    ensures Synced(m', 2 * t - 1) && Owned(m') && kp == c.keys[i] && Lost(m, c, kp, m', c', h, t)
    decreases h, 0
  {
    hide *;
    ghost var cap := 2 * t - 1;
    NodeFacts(m, c, h, t, cap);
    kp := x.keys[i];
    assert kp == x.keys[..x.n][i];
    KidLosesEnd(m, c, j, k, s, h, t);
    var up;
    ghost var m1, d;
    up, m1, d := DelAux(xp, k, s, t, m, c.kids[j], h - 1);
    LostParts(m, c.kids[j], up, m1, d, h - 1, t);
    Untouched(m, m1, c, j, d, h, t, cap);
    SameFoot(m, m1);
    FootHas(m, x);
    m' := ChangeKey(x, i, up, m1, cap);
    OwnedSame(m1, m');
    HoldsParts(m, c, h, t);
    if s == 1 {
      LastUpOrder(c, i, d, up);
    } else {
      FirstUpOrder(c, i, d, up);
    }
    SwapLost(m, m1, m', c, i, j, d, up, h, t);
    c' := WithKid(c, j, d).(keys := c.keys[i := up]);
  }

  /** A change below a child leaves its parent alone. */
  lemma Untouched(m: Memory, m1: Memory, c: Tree, j: nat, d: Tree, h: nat, t: nat, cap: nat)
    requires h > 0 && Holds(m, c, h, t) && j < |c.kids| && Left(m, c.kids[j], m1, d, h - 1, t) && Synced(m1, cap)
    ensures c.node in m && c.node in m1 && m1[c.node] == m[c.node] && m[c.node].keys == c.keys && c.node.n == |c.keys|
  {
    hide Rep, Distinct, Fits, Order, Ascending, Nodes, SameBut;
    HoldsParts(m, c, h, t);
    LeftParts(m, c.kids[j], m1, d, h - 1, t);
    ChildRep(m, c, j);
    OwnApart(c, j);
    SameAt(m, m1, Nodes(c.kids[j]), c.node);
  }

  lemma OwnApart(c: Tree, j: nat)
    requires Distinct(c) && j < |c.kids|
    ensures c.node !in Nodes(c.kids[j])
  {
    UnderAt(c.kids, j);
    hide Under, Nodes;
  }

  /** Both children around the key are poor: they are merged around it, and it is deleted below. */
  method DelMerged(x: Node, i: nat, y: Node, z: Node, k: int, s: int, t: nat, ghost m: Memory, ghost c: Tree, ghost h: nat)
    returns (kp: int, ghost m': Memory, ghost c': Tree)
    requires t >= 2 && Synced(m, 2 * t - 1) && Owned(m) && Holds(m, c, h, t) && c.node == x && h > 0 && s == 0
    requires i < |c.keys| && |c.kids| == |c.keys| + 1 && y == c.kids[i].node && z == c.kids[i + 1].node
    requires |c.kids[i].keys| == t - 1 && |c.kids[i + 1].keys| == t - 1 && k == c.keys[i]
    modifies Foot(m)
    ensures Synced(m', 2 * t - 1) && Owned(m') && kp == k && Lost(m, c, kp, m', c', h, t)
    decreases h, 0
  {
    hide *;
    ghost var m1, c1, d;
    m1, c1 := MergeAt(x, i, y, z, k, t, m, c, h);
    MergedFilled(c, i, t);
    FilledParts(c, i, c1, i, t);
    RefilledParts(m, c, m1, c1, h, t);
    MergedLoses(m1, c1, i, k, h, t);
    SameFoot(m, m1);
    kp, m', d := DelAux(y, k, s, t, m1, c1.kids[i], h - 1);
    TargetZero(Order(c1.kids[i]), k);
    KidLost(m, m1, m', c, c1, i, d, kp, h, t);
    c' := WithKid(c1, i, d);
  }

  lemma TargetZero(order: seq<int>, k: int)
    ensures Target(order, k, 0) == k
  {
  }

  lemma FilledParts(c: Tree, i: nat, c': Tree, j: nat, t: nat)
    requires Filled(c, i, c', j, t)
    ensures |c.keys| <= |c'.keys| + 1 && t <= |c'.kids[j].keys| && |c'.kids| == |c'.keys| + 1 && j <= |c'.keys|
  {
  }

  lemma MergedLoses(m: Memory, c: Tree, i: nat, k: int, h: nat, t: nat)
    requires t >= 1 && h > 0 && Holds(m, c, h, t) && i < |c.kids| && t <= |c.kids[i].keys| && k in Order(c.kids[i])
    ensures Loses(m, c.kids[i], k, 0, h - 1, t)
  {
    KidHolds(m, c, h, t, i);
  }

  /** `__kb_delp_aux` for key `i` of an internal node. */
  method DelHere(x: Node, i: nat, k: int, t: nat, ghost m: Memory, ghost c: Tree, ghost h: nat)
    returns (kp: int, ghost m': Memory, ghost c': Tree)
    requires t >= 2 && Synced(m, 2 * t - 1) && Owned(m) && Holds(m, c, h, t) && c.node == x && h > 0
    requires i < |c.keys| && k == c.keys[i]
    modifies Foot(m)
    ensures Synced(m', 2 * t - 1) && Owned(m') && kp == k && Lost(m, c, kp, m', c', h, t)
    decreases h, 1
  {
    hide *;
    ghost var cap := 2 * t - 1;
    NodeFacts(m, c, h, t, cap);
    KidNode(m, c, i, h, t, cap);
    KidNode(m, c, i + 1, h, t, cap);
    var y: Node, z: Node := x.ptr[i], x.ptr[i + 1];
    if y.n >= t {
      kp, m', c' := DelSwap(x, i, i, y, k, 1, t, m, c, h);
    } else if z.n >= t {
      kp, m', c' := DelSwap(x, i, i + 1, z, k, 2, t, m, c, h);
    } else {
      kp, m', c' := DelMerged(x, i, y, z, k, 0, t, m, c, h);
    }
  }

  /** `__kb_delp_aux` takes the key `k`, or for `s` 1 and 2 the last or the first one, out of a subtree. */
  method DelAux(x: Node, k: int, s: int, t: nat, ghost m: Memory, ghost c: Tree, ghost h: nat)
    returns (kp: int, ghost m': Memory, ghost c': Tree)
    requires t >= 2 && Synced(m, 2 * t - 1) && Owned(m) && Loses(m, c, k, s, h, t) && c.node == x
    modifies Foot(m)
    ensures Synced(m', 2 * t - 1) && Owned(m') && Order(c) != [] && kp == Target(Order(c), k, s)
    ensures Lost(m, c, kp, m', c', h, t)
    decreases h, 3
  {
    hide *;
    LosesParts(m, c, k, s, h, t);
    LosesIn(m, c, k, s, h, t);
    NodeFacts(m, c, h, t, 2 * t - 1);
    if !x.internal {
      kp, m', c' := DelLeaf(x, k, s, t, m, c);
    } else if s != 0 {
      kp, m', c' := DelBelow(x, if s == 1 then x.n else 0, k, s, t, m, c, h);
    } else {
      kp, m', c' := DelKey(x, k, t, m, c, h);
      TargetZero(Order(c), k);
    }
  }

  method DelKey(x: Node, k: int, t: nat, ghost m: Memory, ghost c: Tree, ghost h: nat)
    returns (kp: int, ghost m': Memory, ghost c': Tree)
    requires t >= 2 && Synced(m, 2 * t - 1) && Owned(m) && Loses(m, c, k, 0, h, t) && c.node == x && h > 0
    modifies Foot(m)
    ensures Synced(m', 2 * t - 1) && Owned(m') && kp == k && Lost(m, c, kp, m', c', h, t)
    decreases h, 2
  {
    hide *;
    LosesParts(m, c, k, 0, h, t);
    LosesIn(m, c, k, 0, h, t);
    NodeFacts(m, c, h, t, 2 * t - 1);
    HoldsParts(m, c, h, t);
    var i, r := FindKey(x, k, c);
    if r == 0 {
      kp, m', c' := DelHere(x, i, k, t, m, c, h);
    } else {
      kp, m', c' := DelBelow(x, i + 1, k, 0, t, m, c, h);
      TargetZero(Order(c), k);
    }
  }

  /** A key of the subtree is in its root, or below the child behind the last smaller key of the root. */
  method FindKey(x: Node, k: int, ghost c: Tree) returns (i: int, r: int)
    requires 0 < x.n <= x.keys.Length && x.keys[..x.n] == c.keys && |c.kids| == |c.keys| + 1
    requires Ascending(Order(c)) && k in Order(c)
    ensures if r == 0 then 0 <= i < |c.keys| && c.keys[i] == k else 0 <= i + 1 <= |c.keys| && k in Order(c.kids[i + 1])
  {
    hide Order, Ascending;
    KeysAscending(c);
    i, r := GetAux(x, k, 0);
    assert forall l :: 0 <= l < |c.keys| ==> c.keys[l] == x.keys[l];
    if r != 0 {
      FoundBelow(c, i, k);
    }
  }

  lemma FoundBelow(c: Tree, i: int, k: int)
    requires -1 <= i < |c.keys| && |c.kids| == |c.keys| + 1 && Ascending(Order(c)) && k in Order(c)
    requires (i >= 0 ==> c.keys[i] < k) && (i + 1 < |c.keys| ==> k < c.keys[i + 1])
    ensures k in Order(c.kids[i + 1])
  {
    PlaceHas(c, i + 1, k);
  }
}
