/**
 The trees of ext/klib/krmq.h and ext/klib/kavl.h as values: what hangs from a node, what
 surrounds a node, and what a map of nodes to field values must hold to represent both.
 */
module AvlShape {
  import opened Powers

  /** A tree node: `key` orders the tree, `weight` is what range-minimum queries compare. */
  class Node {
    const key: int
    const weight: int
    var p0: Node?
    var p1: Node?
    var s: Node?          // a node of least weight in the subtree
    var balance: int      // height of the right subtree less height of the left
    var size: nat

    constructor (key: int, weight: int)
      ensures this.key == key && this.weight == weight && Fields() == Cell(null, null, null, 0, 0)
    {
      this.key, this.weight := key, weight;
      p0, p1, s, balance, size := null, null, null, 0, 0;
    }

    /** `p[dir]`, `dir` being true for 1. */
    function Child(dir: bool): Node?
      reads this
    {
      if dir then p1 else p0
    }

    method SetChild(dir: bool, c: Node?)
      modifies this
      ensures Child(dir) == c && Child(!dir) == old(Child(!dir))
      ensures unchanged(this`s) && unchanged(this`balance) && unchanged(this`size)
    {
      if dir {
        p1 := c;
      } else {
        p0 := c;
      }
    }

    function Fields(): Cell
      reads this
    {
      Cell(p0, p1, s, balance, size)
    }
  }

  /** The fields of a node at one time. */
  datatype Cell = Cell(p0: Node?, p1: Node?, s: Node?, balance: int, size: nat)

  type Memory = map<Node, Cell>

  ghost predicate Synced(m: Memory)
    reads m.Keys
  {
    forall n :: n in m ==> m[n] == n.Fields()
  }

  // ---- trees as values -------------------------------------------------------------

  datatype Tree =
    | Leaf
    | Fork(left: Tree, node: Node, balance: int, size: nat, s: Node, right: Tree)
  {
    function Sub(dir: bool): Tree
      requires Fork?
    {
      if dir then right else left
    }

    function Root(): Node? {
      if Leaf? then null else node
    }
  }

  /** A node with subtree `t` on side `dir` and `other` on the other side. */
  function Make(dir: bool, t: Tree, node: Node, balance: int, size: nat, s: Node, other: Tree): Tree {
    if dir then Fork(other, node, balance, size, s, t) else Fork(t, node, balance, size, s, other)
  }

  ghost function Nodes(t: Tree): set<Node> {
    if t.Leaf? then {} else Nodes(t.left) + {t.node} + Nodes(t.right)
  }

  function Order(t: Tree): seq<Node> {
    if t.Leaf? then [] else Order(t.left) + [t.node] + Order(t.right)
  }

  ghost predicate Distinct(t: Tree) {
    t.Fork? ==>
      && t.node !in Nodes(t.left) && t.node !in Nodes(t.right) && Nodes(t.left) !! Nodes(t.right)
      && Distinct(t.left) && Distinct(t.right)
  }

  function Count(t: Tree): nat {
    if t.Leaf? then 0 else Count(t.left) + 1 + Count(t.right)
  }

  function Max(a: int, b: int): int {
    if a < b then b else a
  }

  function Height(t: Tree): nat {
    if t.Leaf? then 0 else 1 + Max(Height(t.left), Height(t.right))
  }

  /** `size` counts the nodes of the subtree. */
  ghost predicate Sized(t: Tree) {
    t.Fork? ==> t.size == Count(t) && Sized(t.left) && Sized(t.right)
  }

  /** `balance` is the difference in height, and at most one. */
  ghost predicate Balanced(t: Tree) {
    t.Fork? ==>
      && t.balance == Height(t.right) - Height(t.left) && -1 <= t.balance <= 1
      && Balanced(t.left) && Balanced(t.right)
  }

  ghost predicate IsMin(s: Node, nodes: set<Node>) {
    s in nodes && forall n :: n in nodes ==> s.weight <= n.weight
  }

  /** `s` points to a node of least weight in the subtree. */
  ghost predicate Mins(t: Tree) {
    t.Fork? ==> IsMin(t.s, Nodes(t)) && Mins(t.left) && Mins(t.right)
  }

  predicate Ascending(order: seq<Node>) {
    forall i, j :: 0 <= i < j < |order| ==> order[i].key < order[j].key
  }

  /** Least number of nodes of a balanced tree of height `h`. */
  function MinNodes(h: nat): nat {
    if h < 2 then h else MinNodes(h - 1) + MinNodes(h - 2) + 1
  }

  /** A fork over subtrees of heights `h` and `k`, which differ by one at most. */
  lemma MinNodesFork(h: nat, k: nat)
    requires -1 <= h - k <= 1
    ensures MinNodes(1 + Max(h, k)) <= MinNodes(h) + MinNodes(k) + 1
  {
    if h == k && h > 0 {
      MinNodesMonotone(h - 1, h);
    }
  }

  lemma {:induction false} BalancedCount(t: Tree)
    requires Balanced(t)
    ensures Count(t) >= MinNodes(Height(t))
  {
    if t.Fork? {
      BalancedCount(t.left);
      BalancedCount(t.right);
      hide MinNodes;
      MinNodesFork(Height(t.left), Height(t.right));
    } else {
      assert MinNodes(0) == 0;
    }
  }

  lemma {:induction false} MinNodesMonotone(h: nat, k: nat)
    requires h <= k
    ensures MinNodes(h) <= MinNodes(k)
    decreases k
  {
    if h < k {
      MinNodesMonotone(h, k - 1);
    }
  }

  lemma {:induction false} MinNodesDouble(k: nat)
    requires k >= 1
    ensures MinNodes(2 * k) >= Pow2(k)
  {
    if k > 1 {
      MinNodesDouble(k - 1);
      MinNodesMonotone(2 * k - 2, 2 * k - 1);
    }
  }

  const MAX_DEPTH := 64

  /** A balanced tree that an unsigned 32-bit size can count is less than 64 high. */
  lemma DepthBound(t: Tree)
    requires Balanced(t) && Count(t) < 0x1_0000_0000
    ensures Height(t) < 64 == MAX_DEPTH
  {
    hide MinNodes, Count, Balanced, Pow2;
    BalancedCount(t);
    MinNodesDouble(32);
    Pow2At32();
    if Height(t) >= 64 {
      MinNodesMonotone(64, Height(t));
    }
  }

  // ---- what surrounds a subtree ------------------------------------------------------

  /** A node above a hole: the hole is on side `dir`, `other` hangs on the other side. */
  datatype Frame = Frame(dir: bool, node: Node, balance: int, size: nat, s: Node, other: Tree)

  /** The nodes from the root down to a hole. */
  type Path = seq<Frame>

  function Fill(f: Frame, t: Tree): Tree {
    Make(f.dir, t, f.node, f.balance, f.size, f.s, f.other)
  }

  function Plug(path: Path, t: Tree): Tree {
    if path == [] then t else Plug(path[..|path| - 1], Fill(path[|path| - 1], t))
  }

  function Before(path: Path): seq<Node> {
    if path == [] then [] else
      var f := path[|path| - 1];
      Before(path[..|path| - 1]) + if f.dir then Order(f.other) + [f.node] else []
  }

  function After(path: Path): seq<Node> {
    if path == [] then [] else
      var f := path[|path| - 1];
      (if f.dir then [] else [f.node] + Order(f.other)) + After(path[..|path| - 1])
  }

  ghost function PathNodes(path: Path): set<Node> {
    if path == [] then {} else
      var f := path[|path| - 1];
      PathNodes(path[..|path| - 1]) + {f.node} + Nodes(f.other)
  }

  /** Going down to side `dir` of `t`. */
  function Step(path: Path, t: Tree, dir: bool): Path
    requires t.Fork?
  {
    path + [Frame(dir, t.node, t.balance, t.size, t.s, t.Sub(!dir))]
  }

  lemma PlugStep(path: Path, t: Tree, dir: bool)
    requires t.Fork?
    ensures Plug(Step(path, t, dir), t.Sub(dir)) == Plug(path, t)
  {
    assert Step(path, t, dir)[..|path|] == path;
  }

  lemma {:induction false} PlugOrder(path: Path, t: Tree)
    ensures Order(Plug(path, t)) == Before(path) + Order(t) + After(path)
    decreases |path|
  {
    if path != [] {
      var f := path[|path| - 1];
      PlugOrder(path[..|path| - 1], Fill(f, t));
    }
  }

  lemma {:induction false} PlugNodes(path: Path, t: Tree)
    ensures Nodes(Plug(path, t)) == PathNodes(path) + Nodes(t)
    decreases |path|
  {
    if path != [] {
      PlugNodes(path[..|path| - 1], Fill(path[|path| - 1], t));
    }
  }

  lemma {:induction false} OrderNodes(t: Tree)
    ensures forall n :: n in Nodes(t) <==> n in Order(t)
    ensures |Order(t)| == Count(t)
  {
    if t.Fork? {
      OrderNodes(t.left);
      OrderNodes(t.right);
    }
  }

  // ---- distinctness along a path ---------------------------------------------------------

  ghost predicate Separate(path: Path) {
    path != [] ==>
      var f, up := path[|path| - 1], path[..|path| - 1];
      && f.node !in Nodes(f.other) && f.node !in PathNodes(up) && Nodes(f.other) !! PathNodes(up)
      && Distinct(f.other) && Separate(up)
  }

  lemma {:induction false} PlugDistinct(path: Path, t: Tree)
    ensures Distinct(Plug(path, t)) <==> Separate(path) && Distinct(t) && PathNodes(path) !! Nodes(t)
    decreases |path|
  {
    if path != [] {
      PlugDistinct(path[..|path| - 1], Fill(path[|path| - 1], t));
    }
  }

  lemma {:induction false} PathNode(path: Path, i: nat)
    requires i < |path|
    ensures path[i].node in PathNodes(path) && Nodes(path[i].other) <= PathNodes(path)
    ensures PathNodes(path[..i]) <= PathNodes(path)
    decreases |path|
  {
    if i < |path| - 1 {
      PathNode(path[..|path| - 1], i);
      assert path[..|path| - 1][..i] == path[..i];
    }
  }

  /** The node of frame `i` occurs nowhere else on the path. */
  ghost predicate Alone(path: Path, i: nat) {
    && i < |path|
    && forall j :: 0 <= j < |path| ==> path[i].node !in Nodes(path[j].other) && (path[j].node == path[i].node ==> j == i)
  }

  lemma {:induction false} SeparateAlone(path: Path, i: nat)
    requires Separate(path) && i < |path|
    ensures Alone(path, i)
    decreases |path|
  {
    var k := |path| - 1;
    if i < k {
      SeparateAlone(path[..k], i);
      PathNode(path[..k], i);
    } else {
      forall j | 0 <= j < k
        ensures path[k].node !in Nodes(path[j].other) && path[j].node != path[k].node
      {
        PathNode(path[..k], j);
      }
    }
  }

  // ---- representation in memory ------------------------------------------------------------

  ghost predicate Rep(m: Memory, t: Tree) {
    t.Fork? ==>
      && t.node in m && m[t.node] == Cell(t.left.Root(), t.right.Root(), t.s, t.balance, t.size)
      && Rep(m, t.left) && Rep(m, t.right)
  }

  function FrameCell(f: Frame, hole: Node?): Cell {
    if f.dir then Cell(f.other.Root(), hole, f.s, f.balance, f.size)
    else Cell(hole, f.other.Root(), f.s, f.balance, f.size)
  }

  function HoleAt(path: Path, i: nat, hole: Node?): Node? {
    if i + 1 < |path| then path[i + 1].node else hole
  }

  ghost predicate FrameRep(m: Memory, path: Path, i: nat, hole: Node?)
    requires i < |path|
  {
    path[i].node in m && m[path[i].node] == FrameCell(path[i], HoleAt(path, i, hole)) && Rep(m, path[i].other)
  }

  ghost predicate PathRep(m: Memory, path: Path, hole: Node?) {
    forall i :: 0 <= i < |path| ==> FrameRep(m, path, i, hole)
  }

  lemma {:induction false} RepFrame(m: Memory, m': Memory, t: Tree)
    requires Rep(m, t)
    requires forall n :: n in Nodes(t) && n in m ==> n in m' && m'[n] == m[n]
    ensures Rep(m', t)
  {
    if t.Fork? {
      RepFrame(m, m', t.left);
      RepFrame(m, m', t.right);
    }
  }

  lemma PathRepPop(m: Memory, path: Path, hole: Node?)
    requires path != []
    ensures PathRep(m, path, hole) <==>
      FrameRep(m, path, |path| - 1, hole) && PathRep(m, path[..|path| - 1], path[|path| - 1].node)
  {
    var k := |path| - 1;
    var up, n := path[..k], path[k].node;
    forall i | 0 <= i < k
      ensures FrameRep(m, path, i, hole) <==> FrameRep(m, up, i, n)
    {
      assert HoleAt(path, i, hole) == HoleAt(up, i, n);
    }
  }

  lemma {:induction false} RepPlug(m: Memory, path: Path, t: Tree)
    ensures Rep(m, Plug(path, t)) <==> PathRep(m, path, t.Root()) && Rep(m, t)
    decreases |path|
  {
    if path != [] {
      var f := path[|path| - 1];
      RepPlug(m, path[..|path| - 1], Fill(f, t));
      PathRepPop(m, path, t.Root());
    }
  }

  /** Writing the node of frame `i` changes that frame and nothing else. */
  lemma SetFrame(m: Memory, path: Path, hole: Node?, i: nat, f: Frame)
    requires PathRep(m, path, hole) && Alone(path, i)
    requires f.node == path[i].node && f.other == path[i].other
    ensures PathRep(m[f.node := FrameCell(f, HoleAt(path, i, hole))], path[i := f], hole)
  {
    var m', path' := m[f.node := FrameCell(f, HoleAt(path, i, hole))], path[i := f];
    forall j | 0 <= j < |path|
      ensures FrameRep(m', path', j, hole)
    {
      assert FrameRep(m, path, j, hole);
      assert HoleAt(path', j, hole) == HoleAt(path, j, hole);
      RepFrame(m, m', path[j].other);
    }
  }

  /** The same nodes in the same places, whatever their numbers say. */
  ghost predicate SameShape(path: Path, path': Path) {
    && |path| == |path'|
    && forall i :: 0 <= i < |path| ==>
      path[i].dir == path'[i].dir && path[i].node == path'[i].node && path[i].other == path'[i].other
  }

  lemma {:induction false} SameShapeKeeps(path: Path, path': Path)
    requires SameShape(path, path')
    ensures PathNodes(path) == PathNodes(path') && Before(path) == Before(path') && After(path) == After(path')
    ensures Separate(path) <==> Separate(path')
    decreases |path|
  {
    if path != [] {
      SameShapeKeeps(path[..|path| - 1], path'[..|path| - 1]);
    }
  }

  lemma {:induction false} PlugHeight(path: Path, t: Tree)
    ensures Height(Plug(path, t)) >= |path| + Height(t)
    decreases |path|
  {
    if path != [] {
      PlugHeight(path[..|path| - 1], Fill(path[|path| - 1], t));
    }
  }
}
