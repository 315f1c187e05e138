/** Range-minimum queries of krmq.h (lines 110-150). */
module KrmqQuery {
  import opened AvlShape
  import opened KrmqRotate

  /** A search tree: what is left of a node is below it, what is right of it above. */
  ghost predicate Searchable(t: Tree) {
    t.Fork? ==>
      && (forall n :: n in Nodes(t.left) ==> n.key < t.node.key)
      && (forall n :: n in Nodes(t.right) ==> t.node.key < n.key)
      && Searchable(t.left) && Searchable(t.right)
  }

  lemma AscendingAround(a: seq<Node>, n: Node, b: seq<Node>)
    requires Ascending(a + [n] + b)
    ensures Ascending(a) && Ascending(b)
    ensures (forall i :: 0 <= i < |a| ==> a[i].key < n.key) && (forall i :: 0 <= i < |b| ==> n.key < b[i].key)
  {
    var s := a + [n] + b;
    assert s[|a|] == n;
    assert forall i :: 0 <= i < |a| ==> s[i] == a[i];
    assert forall i :: 0 <= i < |b| ==> s[|a| + 1 + i] == b[i];
  }

  lemma AtIndex(t: Tree, n: Node)
    requires n in Nodes(t)
    ensures exists i :: 0 <= i < |Order(t)| && Order(t)[i] == n
  {
    OrderNodes(t);
  }

  lemma {:induction false} AscendingSearchable(t: Tree)
    requires Ascending(Order(t))
    ensures Searchable(t)
  {
    if t.Fork? {
      AscendingAround(Order(t.left), t.node, Order(t.right));
      AscendingSearchable(t.left);
      AscendingSearchable(t.right);
      forall n | n in Nodes(t.left)
        ensures n.key < t.node.key
      {
        AtIndex(t.left, n);
      }
      forall n | n in Nodes(t.right)
        ensures t.node.key < n.key
      {
        AtIndex(t.right, n);
      }
    }
  }

  /** The nodes of the closed interval. */
  ghost function Range(t: Tree, lo: int, up: int): set<Node> {
    set n | n in Nodes(t) && lo <= n.key <= up
  }

  function Cmp(a: int, b: int): int {
    if a < b then -1 else if a > b then 1 else 0
  }

  /** A search for `key` as `krmq_rmq` records it: nodes, comparisons and, as ghosts, subtrees. */
  ghost predicate Trace(t: Tree, key: int, nodes: seq<Node>, cmps: seq<int>, subs: seq<Tree>) {
    && |nodes| == |cmps| == |subs|
    && (forall i :: 0 <= i < |subs| ==> subs[i].Fork? && subs[i].node == nodes[i] && cmps[i] == Cmp(key, nodes[i].key))
    && (forall i :: 0 <= i < |subs| - 1 ==> cmps[i] != 0 && subs[i + 1] == subs[i].Sub(cmps[i] > 0))
    && (subs == [] <==> t == Leaf)
    && (subs != [] ==>
      && subs[0] == t
      && (cmps[|cmps| - 1] == 0 || subs[|subs| - 1].Sub(cmps[|cmps| - 1] > 0) == Leaf))
  }

  /** A search that has come to `c`. */
  ghost predicate Tracing(t: Tree, key: int, nodes: seq<Node>, cmps: seq<int>, subs: seq<Tree>, c: Tree) {
    && |nodes| == |cmps| == |subs|
    && (forall i :: 0 <= i < |subs| ==> subs[i].Fork? && subs[i].node == nodes[i] && cmps[i] == Cmp(key, nodes[i].key))
    && (forall i :: 0 <= i < |subs| - 1 ==> cmps[i] != 0 && subs[i + 1] == subs[i].Sub(cmps[i] > 0))
    && (if subs == [] then c == t
        else subs[0] == t && cmps[|cmps| - 1] != 0 && subs[|subs| - 1].Sub(cmps[|cmps| - 1] > 0) == c)
  }

  lemma TracingStep(t: Tree, key: int, nodes: seq<Node>, cmps: seq<int>, subs: seq<Tree>, c: Tree)
    requires Tracing(t, key, nodes, cmps, subs, c) && c.Fork?
    ensures var cmp := Cmp(key, c.node.key);
      if cmp == 0 then Trace(t, key, nodes + [c.node], cmps + [cmp], subs + [c])
      else Tracing(t, key, nodes + [c.node], cmps + [cmp], subs + [c], c.Sub(cmp > 0))
  {
  }

  lemma TracingEnd(t: Tree, key: int, nodes: seq<Node>, cmps: seq<int>, subs: seq<Tree>)
    requires Tracing(t, key, nodes, cmps, subs, Leaf)
    ensures Trace(t, key, nodes, cmps, subs)
  {
  }

  method Descend(root: Node?, key: int, ghost m: Memory, ghost t: Tree)
    returns (nodes: seq<Node>, cmps: seq<int>, ghost subs: seq<Tree>)
    requires Synced(m) && Rep(m, t) && root == t.Root() && Height(t) < MAX_DEPTH
    ensures Trace(t, key, nodes, cmps, subs)
  {
    nodes, cmps, subs := [], [], [];
    assert Tracing(t, key, nodes, cmps, subs, t);
    hide Rep, Tracing, Trace;
    var p := root;
    ghost var c := t;
    while p != null
      invariant p == c.Root() && Rep(m, c) && |nodes| + Height(c) <= Height(t)
      invariant Tracing(t, key, nodes, cmps, subs, c)
      decreases c
    {
      ForkRep(m, c, true);
      TracingStep(t, key, nodes, cmps, subs, c);
      var cmp := Cmp(key, p.key);
      assert |nodes| < MAX_DEPTH;
      nodes, cmps, subs := nodes + [p], cmps + [cmp], subs + [c];
      if cmp < 0 {
        p, c := p.p0, c.left;
      } else if cmp > 0 {
        p, c := p.p1, c.right;
      } else {
        return;
      }
    }
    TracingEnd(t, key, nodes, cmps, subs);
  }

  // ---- the lowest common ancestor -------------------------------------------------------------

  /** Node `i` of both searches is one node, and lies in the interval. */
  predicate Common(nodes0: seq<Node>, cmps0: seq<int>, nodes1: seq<Node>, cmps1: seq<int>, i: nat)
    requires |nodes0| == |cmps0| && |nodes1| == |cmps1| && i < |nodes0| && i < |nodes1|
  {
    nodes0[i] == nodes1[i] && cmps0[i] <= 0 && cmps1[i] >= 0
  }

  /** As long as no common node lies in the interval the searches stay together, and with them the interval. */
  lemma {:induction false} Together(t: Tree, lo: int, up: int, nodes0: seq<Node>, cmps0: seq<int>, subs0: seq<Tree>,
                                    nodes1: seq<Node>, cmps1: seq<int>, subs1: seq<Tree>, i: nat)
    requires Trace(t, lo, nodes0, cmps0, subs0) && Trace(t, up, nodes1, cmps1, subs1) && lo <= up && Searchable(t)
    requires i < |nodes0| && i < |nodes1|
    requires forall k :: 0 <= k < i ==> !Common(nodes0, cmps0, nodes1, cmps1, k)
    ensures subs0[i] == subs1[i] && Range(t, lo, up) == Range(subs0[i], lo, up) && Searchable(subs0[i])
    ensures Nodes(subs0[i]) <= Nodes(t)
  {
    if i > 0 {
      Together(t, lo, up, nodes0, cmps0, subs0, nodes1, cmps1, subs1, i - 1);
      var s := subs0[i - 1];
      assert !Common(nodes0, cmps0, nodes1, cmps1, i - 1);
      assert cmps0[i - 1] > 0 || cmps1[i - 1] < 0;
      Aside(s, lo, up);
    }
  }

  /** A node outside the interval has the whole interval on one side. */
  lemma Aside(s: Tree, lo: int, up: int)
    requires s.Fork? && Searchable(s)
    ensures lo > s.node.key ==> Range(s, lo, up) == Range(s.right, lo, up)
    ensures up < s.node.key ==> Range(s, lo, up) == Range(s.left, lo, up)
  {
  }

  /** The searches end without a common node in the interval: the interval is empty. */
  lemma NoneCommon(t: Tree, lo: int, up: int, nodes0: seq<Node>, cmps0: seq<int>, subs0: seq<Tree>,
                   nodes1: seq<Node>, cmps1: seq<int>, subs1: seq<Tree>, i: nat)
    requires Trace(t, lo, nodes0, cmps0, subs0) && Trace(t, up, nodes1, cmps1, subs1) && Searchable(t)
    requires i == |nodes0| <= |nodes1| || i == |nodes1| <= |nodes0|
    requires forall k :: 0 <= k < i ==> !Common(nodes0, cmps0, nodes1, cmps1, k)
    ensures Range(t, lo, up) == {}
  {
    if lo <= up && i > 0 {
      Together(t, lo, up, nodes0, cmps0, subs0, nodes1, cmps1, subs1, i - 1);
      var s := subs0[i - 1];
      assert !Common(nodes0, cmps0, nodes1, cmps1, i - 1);
      Aside(s, lo, up);
      assert Nodes(Leaf) == {};
    }
  }

  // ---- collecting the minimum ------------------------------------------------------------------

  /** The nodes of `t` on the inner side of the bound: at least `key` for the lower one, at most for the upper. */
  ghost function Inside(t: Tree, key: int, lower: bool): set<Node> {
    set n | n in Nodes(t) && if lower then key <= n.key else n.key <= key
  }

  /** One node of a search adds itself and the subtree between it and the other bound, or nothing. */
  lemma InsideStep(t: Tree, key: int, lower: bool)
    requires t.Fork? && Searchable(t)
    ensures var cmp := Cmp(key, t.node.key);
      Inside(t, key, lower) ==
        if (if lower then cmp <= 0 else cmp >= 0)
        then {t.node} + Nodes(t.Sub(lower)) + (if cmp == 0 then {} else Inside(t.Sub(cmp > 0), key, lower))
        else Inside(t.Sub(cmp > 0), key, lower)
  {
  }

  lemma MinJoin(a: set<Node>, x: Node, b: set<Node>, y: Node)
    requires IsMin(x, a) && IsMin(y, b)
    ensures IsMin(if y.weight < x.weight then y else x, a + b)
  {
  }

  lemma MinOne(n: Node)
    ensures IsMin(n, {n})
  {
  }

  /** What step `i` and the later ones of a search find inside. */
  ghost function Rest(subs: seq<Tree>, i: nat, key: int, lower: bool): set<Node> {
    if i < |subs| then Inside(subs[i], key, lower) else {}
  }

  /** Step `i` of a search counts, with the subtree on the inner side. */
  predicate Counts(cmp: int, lower: bool) {
    if lower then cmp <= 0 else cmp >= 0
  }

  lemma RestStep(t: Tree, key: int, nodes: seq<Node>, cmps: seq<int>, subs: seq<Tree>, i: nat, lower: bool)
    requires Trace(t, key, nodes, cmps, subs) && i < |subs| && Searchable(subs[i])
    ensures subs[i].Fork? && subs[i].node == nodes[i]
    ensures Rest(subs, i, key, lower) == Rest(subs, i + 1, key, lower)
      + if Counts(cmps[i], lower) then {nodes[i]} + Nodes(subs[i].Sub(lower)) else {}
  {
    InsideStep(subs[i], key, lower);
    assert Inside(Leaf, key, lower) == {};
  }

  /** What holds of the tree holds of the subtrees of a search. */
  lemma {:induction false} TraceFacts(m: Memory, t: Tree, key: int, nodes: seq<Node>, cmps: seq<int>, subs: seq<Tree>, i: nat)
    requires Trace(t, key, nodes, cmps, subs) && i < |subs| && Rep(m, t) && Mins(t) && Searchable(t)
    ensures Rep(m, subs[i]) && Mins(subs[i]) && Searchable(subs[i])
  {
    if i > 0 {
      TraceFacts(m, t, key, nodes, cmps, subs, i - 1);
    }
  }

  /** The candidates of one counted node: itself, and the lightest of the subtree on its inner side. */
  method Candidate(n: Node, lower: bool, min: Node, ghost acc: set<Node>, ghost m: Memory, ghost s: Tree) returns (min': Node)
    requires Synced(m) && Rep(m, s) && Mins(s) && s.Fork? && n == s.node && IsMin(min, acc)
    ensures IsMin(min', acc + ({n} + Nodes(s.Sub(lower))))
  {
    ForkRep(m, s, lower);
    RootShows(m, s.Sub(lower));
    MinOne(n);
    MinJoin(acc, min, {n}, n);
    min' := if n.weight < min.weight then n else min;
    var c := n.Child(lower);
    if c != null {
      MinJoin(acc + {n}, min', Nodes(s.Sub(lower)), c.s);
      if c.s.weight < min'.weight {
        min' := c.s;
      }
    } else {
      assert s.Sub(lower) == Leaf;
    }
    assert acc + {n} + Nodes(s.Sub(lower)) == acc + ({n} + Nodes(s.Sub(lower)));
  }

  /** What node `i` of a path adds. */
  method CollectAt(nodes: seq<Node>, cmps: seq<int>, lower: bool, i: nat, min: Node, ghost acc: set<Node>, ghost m: Memory,
                   ghost t: Tree, ghost key: int, ghost subs: seq<Tree>)
    returns (min': Node, ghost acc': set<Node>)
    requires Synced(m) && Rep(m, t) && Mins(t) && Searchable(t) && Trace(t, key, nodes, cmps, subs)
    requires IsMin(min, acc) && i < |nodes| == |cmps| == |subs|
    ensures IsMin(min', acc') && acc' + Rest(subs, i + 1, key, lower) == acc + Rest(subs, i, key, lower)
  {
    hide Rep, Mins, Searchable, Trace, Rest, IsMin, Nodes, Inside, Synced;
    TraceFacts(m, t, key, nodes, cmps, subs, i);
    RestStep(t, key, nodes, cmps, subs, i, lower);
    min', acc' := min, acc;
    if (if lower then cmps[i] <= 0 else cmps[i] >= 0) {
      min' := Candidate(nodes[i], lower, min, acc, m, subs[i]);
      acc' := acc + ({nodes[i]} + Nodes(subs[i].Sub(lower)));
    }
  }

  /** One of the two collecting loops of `krmq_rmq`. */
  method Collect(nodes: seq<Node>, cmps: seq<int>, lower: bool, from: nat, min: Node, ghost acc: set<Node>, ghost m: Memory,
                 ghost t: Tree, ghost key: int, ghost subs: seq<Tree>)
    returns (min': Node)
    requires Synced(m) && Rep(m, t) && Mins(t) && Searchable(t) && Trace(t, key, nodes, cmps, subs)
    requires IsMin(min, acc) && from <= |nodes|
    ensures IsMin(min', acc + Rest(subs, from, key, lower))
  {
    TraceLength(t, key, nodes, cmps, subs);
    hide Rep, Mins, Searchable, Trace, Rest, IsMin, Nodes, Inside, Synced;
    RestEnd(subs, key, lower);
    min' := min;
    ghost var found := acc;
    var i := from;
    while i < |nodes|
      invariant from <= i <= |nodes|
      invariant IsMin(min', found) && found + Rest(subs, i, key, lower) == acc + Rest(subs, from, key, lower)
    {
      min', found := CollectAt(nodes, cmps, lower, i, min', found, m, t, key, subs);
      i := i + 1;
    }
    assert found + {} == found;
  }

  lemma RestEnd(subs: seq<Tree>, key: int, lower: bool)
    ensures Rest(subs, |subs|, key, lower) == {}
  {
  }

  lemma TraceLength(t: Tree, key: int, nodes: seq<Node>, cmps: seq<int>, subs: seq<Tree>)
    requires Trace(t, key, nodes, cmps, subs)
    ensures |nodes| == |cmps| == |subs|
    ensures forall i :: 0 <= i < |subs| ==> subs[i].Fork? && subs[i].node == nodes[i] && cmps[i] == Cmp(key, nodes[i].key)
  {
  }

  /** Below the common node the two searches hold the rest of the interval between them. */
  lemma BothSides(t: Tree, lo: int, up: int, nodes0: seq<Node>, cmps0: seq<int>, subs0: seq<Tree>,
                  nodes1: seq<Node>, cmps1: seq<int>, subs1: seq<Tree>, i: nat)
    requires Trace(t, lo, nodes0, cmps0, subs0) && Trace(t, up, nodes1, cmps1, subs1)
    requires i < |subs0| && i < |subs1| && subs0[i] == subs1[i] && Searchable(subs0[i]) && Common(nodes0, cmps0, nodes1, cmps1, i)
    ensures Range(subs0[i], lo, up) == {nodes0[i]} + Rest(subs0, i + 1, lo, true) + Rest(subs1, i + 1, up, false)
  {
    var s := subs0[i];
    assert Inside(Leaf, lo, true) == {} && Inside(Leaf, up, false) == {};
    LeftOf(s, lo, up);
    hide Range, Inside, Searchable, Nodes;
  }

  lemma LeftOf(s: Tree, lo: int, up: int)
    requires s.Fork? && Searchable(s) && lo <= s.node.key <= up
    ensures Range(s, lo, up) == {s.node} + Inside(s.left, lo, true) + Inside(s.right, up, false)
    ensures lo == s.node.key ==> Inside(s.left, lo, true) == {}
    ensures up == s.node.key ==> Inside(s.right, up, false) == {}
  {
  }

  /** `krmq_rmq`: a lightest node of the closed interval, or null when it is empty. */
  method Rmq(root: Node?, lo: int, up: int, ghost m: Memory, ghost t: Tree) returns (r: Node?)
    requires Synced(m) && Rep(m, t) && root == t.Root() && Mins(t) && Ascending(Order(t)) && Height(t) < MAX_DEPTH
    ensures r == null <==> Range(t, lo, up) == {}
    ensures r != null ==> IsMin(r, Range(t, lo, up))
  {
    AscendingSearchable(t);
    if root == null {
      assert Nodes(t) == {};
      return null;
    }
    hide Rep, Mins, Searchable, Trace, Rest, Nodes, Order, Height, Range, Synced;
    var path0, pcmp0, path1, pcmp1;
    ghost var subs0, subs1;
    path0, pcmp0, subs0 := Descend(root, lo, m, t);
    path1, pcmp1, subs1 := Descend(root, up, m, t);
    TraceLength(t, lo, path0, pcmp0, subs0);
    TraceLength(t, up, path1, pcmp1, subs1);
    var i := 0;
    while i < |path0| && i < |path1|
      invariant 0 <= i <= |path0| && i <= |path1|
      invariant forall k :: 0 <= k < i ==> !Common(path0, pcmp0, path1, pcmp1, k)
    {
      if Common(path0, pcmp0, path1, pcmp1, i) {
        break;
      }
      i := i + 1;
    }
    if i == |path0| || i == |path1| {
      NoneCommon(t, lo, up, path0, pcmp0, subs0, path1, pcmp1, subs1, i);
      return null;
    }
    r := RmqBelow(lo, up, m, t, path0, pcmp0, subs0, path1, pcmp1, subs1, i);
    InRange(r, t, lo, up);
  }

  lemma InRange(r: Node, t: Tree, lo: int, up: int)
    requires IsMin(r, Range(t, lo, up))
    ensures Range(t, lo, up) != {}
  {
  }

  /** The collecting part of `krmq_rmq`, below the common node `lca`. */
  method RmqBelow(lo: int, up: int, ghost m: Memory, ghost t: Tree, path0: seq<Node>, pcmp0: seq<int>, ghost subs0: seq<Tree>,
                  path1: seq<Node>, pcmp1: seq<int>, ghost subs1: seq<Tree>, lca: nat)
    returns (min: Node)
    requires Synced(m) && Rep(m, t) && Mins(t) && Searchable(t)
    requires Trace(t, lo, path0, pcmp0, subs0) && Trace(t, up, path1, pcmp1, subs1)
    requires lca < |path0| && lca < |path1| && Common(path0, pcmp0, path1, pcmp1, lca)
    requires forall k :: 0 <= k < lca ==> !Common(path0, pcmp0, path1, pcmp1, k)
    ensures IsMin(min, Range(t, lo, up))
  {
    hide Rep, Mins, Searchable, Trace, Rest, Nodes, Range, IsMin, Synced;
    TraceLength(t, lo, path0, pcmp0, subs0);
    TraceLength(t, up, path1, pcmp1, subs1);
    Together(t, lo, up, path0, pcmp0, subs0, path1, pcmp1, subs1, lca);
    BothSides(t, lo, up, path0, pcmp0, subs0, path1, pcmp1, subs1, lca);
    min := path0[lca];
    MinOne(min);
    ghost var acc := {min};
    min := Collect(path0, pcmp0, true, lca + 1, min, acc, m, t, lo, subs0);
    min := Collect(path1, pcmp1, false, lca + 1, min, acc + Rest(subs0, lca + 1, lo, true), m, t, up, subs1);
  }
}
