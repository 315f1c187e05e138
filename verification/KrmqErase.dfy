/**
 The passes of `krmq_erase` (krmq.h lines 276-320), in memory and on trees. Frame 0 of every
 path is the node `fake` that stands above the root.
 */
module KrmqErase {
  import opened AvlShape
  import opened AvlMoves
  import opened KrmqRotate
  import opened KrmqInsert

  // ---- sizes ------------------------------------------------------------------------------

  function Less(n: nat): nat {
    if n == 0 then 0 else n - 1
  }

  /** Frames `lo` up to `i` count one node less. */
  function Shrunk(path: Path, lo: nat, i: nat): (p: Path)
    ensures |p| == |path|
  {
    seq(|path|, k requires 0 <= k < |path| => if lo <= k < i then path[k].(size := Less(path[k].size)) else path[k])
  }

  lemma ShrunkNext(path: Path, lo: nat, i: nat)
    requires lo <= i < |path|
    ensures Shrunk(path, lo, i + 1) == Shrunk(path, lo, i)[i := path[i].(size := Less(path[i].size))]
    ensures Shrunk(path, lo, i)[i] == path[i]
  {
  }

  lemma ShrunkNone(path: Path, lo: nat)
    ensures Shrunk(path, lo, lo) == path
  {
  }

  method SubSize(n: Node, ghost m: Memory, ghost path: Path, ghost i: nat, ghost hole: Node?) returns (ghost m': Memory)
    requires Synced(m) && Walk(m, path, hole) && i < |path| && n == path[i].node && n in m && path[i].size > 0
    modifies n`size
    ensures Synced(m') && Walk(m', path[i := path[i].(size := Less(path[i].size))], hole) && SameBut(m, m', {n})
  {
    WalkCell(m, path, hole, i);
    hide Walk;
    n.size := n.size - 1;
    m' := m[n := n.Fields()];
    WalkWrite(m, path, hole, i, path[i].(size := Less(path[i].size)), m');
  }

  /** One node less in every subtree on the path from frame `lo` on. */
  method ShrinkSizes(nodes: seq<Node>, lo: nat, ghost m: Memory, ghost path: Path, ghost hole: Node?) returns (ghost m': Memory)
    requires Synced(m) && Along(nodes, path) && Walk(m, path, hole) && lo <= |path|
    requires forall i :: lo <= i < |path| ==> path[i].size > 0
    modifies m.Keys
    ensures Synced(m') && Walk(m', Shrunk(path, lo, |path|), hole) && SameBut(m, m', Spine(path))
  {
    hide Walk, Shrunk, Spine, FrameCell;
    m' := m;
    ShrunkNone(path, lo);
    var i := lo;
    while i < |nodes|
      invariant lo <= i <= |nodes|
      invariant Synced(m') && Walk(m', Shrunk(path, lo, i), hole) && SameBut(m, m', Spine(path))
    {
      ShrunkNext(path, lo, i);
      InSpine(path, i);
      WalkCell(m', Shrunk(path, lo, i), hole, i);
      ghost var was := m';
      m' := SubSize(nodes[i], m', Shrunk(path, lo, i), i, hole);
      SameButMore(m, was, m', Spine(path), nodes[i]);
      i := i + 1;
    }
  }

  // ---- taking the node out ---------------------------------------------------------------------

  /** The frame of the erased node, taken over by its successor, the root of `t`. */
  function Heir(f: Frame, t: Tree): Frame
    requires t.Fork?
  {
    Frame(true, t.node, f.balance, Less(f.size), t.s, f.other)
  }

  lemma {:induction false} HeirSeparate(path: Path, e: nat, f: Frame)
    requires e < |path| && Separate(path) && f.node !in PathNodes(path) && f.other == path[e].other
    ensures Separate(path[e := f]) && PathNodes(path[e := f]) == PathNodes(path) - {path[e].node} + {f.node}
    decreases |path|
  {
    hide Nodes, Distinct;
    var k := |path| - 1;
    var path' := path[e := f];
    if e < k {
      HeirSeparate(path[..k], e, f);
      assert path'[..k] == path[..k][e := f];
      PathNode(path[..k], e);
    } else {
      assert path'[..k] == path[..k];
    }
  }

  /** The memory after the successor, the root of `t`, has taken the place of the node of frame `e`. */
  ghost predicate Taken(m: Memory, m': Memory, path: Path, e: nat, t: Tree)
    requires 1 <= e < |path| && t.Fork?
  {
    var r, up, last := t.node, path[e - 1], path[|path| - 1];
    && m'.Keys == m.Keys && r in m && up.node in m && last.node in m
    && m'[r] == FrameCell(Heir(path[e], t), HoleAt(path, e, t.right.Root()))
    && m'[up.node] == WithChild(m[up.node], up.dir, r)
    && (e + 1 < |path| ==> m'[last.node] == WithChild(m[last.node], last.dir, t.right.Root()))
    && forall n :: n in m && n != r && n != up.node && (e + 1 < |path| ==> n != last.node) ==> m'[n] == m[n]
  }

  lemma TakenFrame(m: Memory, m': Memory, path: Path, e: nat, t: Tree, i: nat)
    requires 1 <= e < |path| && t.Fork? && t.left == Leaf
    requires Walk(m, path, t.node) && Rep(m, t) && PathNodes(path) !! Nodes(t) && Taken(m, m', path, e, t)
    requires i < |path|
    ensures FrameRep(m', path[e := Heir(path[e], t)], i, t.right.Root())
  {
    var path', k := path[e := Heir(path[e], t)], |path| - 1;
    WalkCell(m, path, t.node, i);
    SeparateAlone(path, i);
    SeparateAlone(path, e - 1);
    SeparateAlone(path, k);
    PathNode(path, i);
    assert t.node in Nodes(t);
    hide Walk, Separate, PathNodes, Nodes;
    assert path[i].other == path'[i].other;
    RepFrame(m, m', path[i].other);
  }

  lemma TakenWalk(m: Memory, m': Memory, path: Path, e: nat, t: Tree)
    requires 1 <= e < |path| && t.Fork? && t.left == Leaf
    requires Walk(m, path, t.node) && Rep(m, t) && PathNodes(path) !! Nodes(t) && Distinct(t)
    requires Taken(m, m', path, e, t)
    ensures Walk(m', path[e := Heir(path[e], t)], t.right.Root()) && Rep(m', t.right)
  {
    var path' := path[e := Heir(path[e], t)];
    assert t.node in Nodes(t);
    HeirSeparate(path, e, Heir(path[e], t));
    PathNode(path, e - 1);
    PathNode(path, |path| - 1);
    RepFrame(m, m', t.right);
    hide Walk, Separate, PathNodes, Nodes, Taken, Rep;
    forall i | 0 <= i < |path'|
      ensures FrameRep(m', path', i, t.right.Root())
    {
      TakenFrame(m, m', path, e, t, i);
    }
    WalkOf(m', path', t.right.Root());
  }

  lemma WalkOf(m: Memory, path: Path, hole: Node?)
    requires Separate(path) && forall i :: 0 <= i < |path| ==> FrameRep(m, path, i, hole)
    ensures Walk(m, path, hole)
  {
  }

  /** `gp` leads on from `t` to its successor, the root of `u`: right once, then left to the end. */
  ghost predicate Successor(path: Path, t: Tree, gp: Path, u: Tree) {
    && t.Fork? && u.Fork? && u.left == Leaf && |path| < |gp| && gp[..|path|] == path
    && gp[|path|] == Frame(true, t.node, t.balance, t.size, t.s, t.left)
    && (forall i :: |path| < i < |gp| ==> !gp[i].dir)
    && Plug(gp, u) == Plug(path, t)
  }

  /** `dirs` are the turns of the path. */
  ghost predicate Turns(dirs: seq<bool>, path: Path) {
    |dirs| == |path| && forall i :: 0 <= i < |path| ==> dirs[i] == path[i].dir
  }

  /** The whole tree, cut at `t`, as memory and trees show it. */
  ghost predicate Config(m: Memory, path: Path, t: Tree) {
    Walk(m, path, t.Root()) && Rep(m, t) && PathNodes(path) !! Nodes(t) && Distinct(t)
  }

  lemma ConfigStep(m: Memory, path: Path, t: Tree, dir: bool)
    requires Config(m, path, t) && t.Fork?
    ensures Config(m, Step(path, t, dir), t.Sub(dir)) && Plug(Step(path, t, dir), t.Sub(dir)) == Plug(path, t)
  {
    PlugStep(path, t, dir);
    RepPlug(m, path, t);
    RepPlug(m, Step(path, t, dir), t.Sub(dir));
    PlugDistinct(path, t);
    PlugDistinct(Step(path, t, dir), t.Sub(dir));
  }

  lemma ConfigTaken(m: Memory, m': Memory, path: Path, e: nat, t: Tree)
    requires 1 <= e < |path| && t.Fork? && t.left == Leaf && Config(m, path, t) && Taken(m, m', path, e, t)
    ensures Config(m', path[e := Heir(path[e], t)], t.right)
  {
    TakenWalk(m, m', path, e, t);
    assert t.node in Nodes(t);
    HeirSeparate(path, e, Heir(path[e], t));
  }

  lemma ConfigRoot(m: Memory, path: Path, t: Tree)
    requires Config(m, path, t) && t.Fork?
    ensures t.node in m && m[t.node] == RootCell(t) && t.node !in PathNodes(path)
  {
    ForkRep(m, t, true);
    assert t.node in Nodes(t);
  }

  lemma ConfigFrame(m: Memory, path: Path, t: Tree, i: nat)
    requires Config(m, path, t) && i < |path|
    ensures path[i].node in m && m[path[i].node] == FrameCell(path[i], HoleAt(path, i, t.Root()))
    ensures path[i].node in PathNodes(path) && path[i].node !in Nodes(t)
    ensures forall k :: 0 <= k < |path| && path[k].node == path[i].node ==> k == i
  {
    WalkCell(m, path, t.Root(), i);
    PathNode(path, i);
    SeparateAlone(path, i);
  }

  /** The right child has no left child: it takes the place of `p`. */
  method TakeNext(p: Node, q: Node, above: Node, dir: bool, ghost m: Memory, ghost path: Path, ghost t: Tree)
    returns (ghost m': Memory)
    requires Synced(m) && path != [] && Config(m, path, t) && t.Fork? && p == t.node
    requires t.right.Fork? && t.right.left == Leaf && q == t.right.node && t.size > 0
    requires above == path[|path| - 1].node && dir == path[|path| - 1].dir
    modifies q, above
    ensures Synced(m') && Taken(m, m', Step(path, t, true), |path|, t.right)
  {
    ghost var gp, e := Step(path, t, true), |path|;
    ConfigStep(m, path, t, true);
    ConfigRoot(m, path, t);
    ConfigRoot(m, gp, t.right);
    ConfigFrame(m, path, t, e - 1);
    ConfigFrame(m, gp, t.right, e - 1);
    ConfigFrame(m, gp, t.right, e);
    assert q != p && q != above && p != above;
    hide Config;
    assert q.Fields() == RootCell(t.right);
    NextFields(p, q, above, dir);
    m' := m[q := q.Fields()][above := above.Fields()];
  }

  method NextFields(p: Node, q: Node, above: Node, dir: bool)
    requires q != p && q != above && p != above && p.size > 0
    modifies q, above
    ensures q.Fields() == Cell(p.p0, old(q.p1), old(q.s), p.balance, p.size - 1)
    ensures above.Fields() == WithChild(old(above.Fields()), dir, q)
  {
    q.p0 := p.p0;
    q.balance := p.balance;
    above.SetChild(dir, q);
    q.size := p.size - 1;
  }

  /** The leftmost node `r` of the right subtree, below `q`, takes the place of `p`. */
  method TakeFar(p: Node, q: Node, r: Node, above: Node, dir: bool, ghost m: Memory, ghost gp: Path, ghost e: nat, ghost u: Tree)
    returns (ghost m': Memory)
    requires Synced(m) && Config(m, gp, u) && u.Fork? && u.left == Leaf && r == u.node
    requires 1 <= e && e + 1 < |gp| && p == gp[e].node && gp[e].dir && gp[e].size > 0
    requires q == gp[|gp| - 1].node && !gp[|gp| - 1].dir
    requires above == gp[e - 1].node && dir == gp[e - 1].dir
    modifies q, r, above
    ensures Synced(m') && Taken(m, m', gp, e, u)
  {
    FarCells(m, gp, e, u);
    hide Config, Taken;
    assert p.Fields() == m[p] && q.Fields() == m[q] && r.Fields() == m[r] && above.Fields() == m[above];
    TakeFields(p, q, r, above, dir);
    m' := m[r := r.Fields()][q := q.Fields()][above := above.Fields()];
    FarTaken(m, m', gp, e, u);
  }

  lemma FarCells(m: Memory, gp: Path, e: nat, u: Tree)
    requires Config(m, gp, u) && u.Fork? && 1 <= e && e + 1 < |gp| && gp[e].size > 0
    ensures var p, q, r, above := gp[e].node, gp[|gp| - 1].node, u.node, gp[e - 1].node;
      && r != p && r != q && r != above && q != p && q != above && p != above
      && p in m && q in m && r in m && above in m && m[p].size > 0
  {
    ConfigRoot(m, gp, u);
    ConfigFrame(m, gp, u, e - 1);
    ConfigFrame(m, gp, u, e);
    ConfigFrame(m, gp, u, |gp| - 1);
    hide Config, PathNodes;
  }

  lemma FarTaken(m: Memory, m': Memory, gp: Path, e: nat, u: Tree)
    requires Config(m, gp, u) && u.Fork? && u.left == Leaf && 1 <= e && e + 1 < |gp|
    requires gp[e].dir && gp[e].size > 0 && !gp[|gp| - 1].dir
    requires var p, q, r, above := gp[e].node, gp[|gp| - 1].node, u.node, gp[e - 1].node;
      && p in m && q in m && r in m && above in m && m[p].size > 0
      && m' == m[r := Cell(m[p].p0, m[p].p1, m[r].s, m[p].balance, m[p].size - 1)][q := WithChild(m[q], false, m[r].p1)]
                [above := WithChild(m[above], gp[e - 1].dir, r)]
    ensures Taken(m, m', gp, e, u)
  {
    FarCells(m, gp, e, u);
    ConfigRoot(m, gp, u);
    ConfigFrame(m, gp, u, e);
    ConfigFrame(m, gp, u, e + 1);
    hide Config, PathNodes;
  }

  method TakeFields(p: Node, q: Node, r: Node, above: Node, dir: bool)
    requires r != p && r != q && r != above && q != p && q != above && p != above && p.size > 0
    modifies q, r, above
    ensures r.Fields() == Cell(p.p0, p.p1, old(r.s), p.balance, p.size - 1)
    ensures q.Fields() == WithChild(old(q.Fields()), false, old(r.p1))
    ensures above.Fields() == WithChild(old(above.Fields()), dir, r)
  {
    r.p0 := p.p0;
    q.p0 := r.p1;
    r.p1 := p.p1;
    r.balance := p.balance;
    above.SetChild(dir, r);
    r.size := p.size - 1;
  }

  lemma DescentStep(path: Path, t: Tree, gp: Path, c: Tree)
    requires Descent(path, t, gp, c) && c.Fork?
    ensures Descent(path, t, Step(gp, c, false), c.left)
  {
    PlugStep(gp, c, false);
  }

  /** `gp` leads from `t` right once and then left, to `c`. */
  ghost predicate Descent(path: Path, t: Tree, gp: Path, c: Tree) {
    && t.Fork? && |path| < |gp| && gp[..|path|] == path
    && gp[|path|] == Frame(true, t.node, t.balance, t.size, t.s, t.left)
    && (forall i :: |path| < i < |gp| ==> !gp[i].dir)
    && Plug(gp, c) == Plug(path, t)
  }

  lemma DescentStart(path: Path, t: Tree)
    requires t.Fork?
    ensures Descent(path, t, Step(path, t, true), t.right)
  {
    PlugStep(path, t, true);
  }

  ghost predicate Positive(path: Path, lo: nat) {
    forall i :: lo <= i < |path| ==> path[i].size > 0
  }

  /** The search for the successor of `p` in a right subtree that has a left child. */
  method FindSuccessor(p: Node, nodes: seq<Node>, dirs: seq<bool>, ghost m: Memory, ghost path: Path, ghost t: Tree)
    returns (q: Node, r: Node, nodes': seq<Node>, dirs': seq<bool>, ghost gp: Path, ghost u: Tree)
    requires Synced(m) && Config(m, path, t) && t.Fork? && p == t.node && Sized(t)
    requires t.right.Fork? && t.right.left.Fork?
    requires Along(nodes, path) && Turns(dirs, path) && |path| + Height(t) <= MAX_DEPTH
    ensures Successor(path, t, gp, u) && Config(m, gp, u) && Sized(u) && |path| + 1 < |gp|
    ensures q == gp[|gp| - 1].node && r == u.node && Along(nodes', gp) && Turns(dirs', gp) && Positive(gp, |path|)
  {
    hide Config, Descent, Along, Turns, Plug;
    var e := |nodes|;
    ConfigRoot(m, path, t);
    ConfigStep(m, path, t, true);
    DescentStart(path, t);
    AlongTurn(nodes, dirs, path, t, true);
    nodes', dirs' := nodes + [p], dirs + [true];
    ghost var c := t.right;
    gp := Step(path, t, true);
    q := p.p1;
    r := q;
    while true
      invariant Config(m, gp, c) && c.Fork? && c.left.Fork? && Descent(path, t, gp, c) && Sized(c)
      invariant q == c.node && Along(nodes', gp) && Turns(dirs', gp)
      invariant Positive(gp, |path|) && |path| < |gp| && |gp| + Height(c) <= MAX_DEPTH
      decreases c
    {
      ConfigRoot(m, gp, c);
      ConfigStep(m, gp, c, false);
      DescentStep(path, t, gp, c);
      AlongTurn(nodes', dirs', gp, c, false);
      assert |nodes'| < MAX_DEPTH by {
        AlongLength(nodes', gp);
      }
      nodes', dirs' := nodes' + [q], dirs' + [false];
      gp, c := Step(gp, c, false), c.left;
      r := q.p0;
      ConfigRoot(m, gp, c);
      if r.p0 == null {
        break;
      }
      q := r;
    }
    u := c;
    SuccessorFound(path, t, gp, u);
  }

  lemma SuccessorFound(path: Path, t: Tree, gp: Path, u: Tree)
    requires Descent(path, t, gp, u) && u.Fork? && u.left.Root() == null
    ensures Successor(path, t, gp, u)
  {
  }

  lemma AlongLength(nodes: seq<Node>, path: Path)
    requires Along(nodes, path)
    ensures |nodes| == |path|
  {
  }

  lemma AlongTurn(nodes: seq<Node>, dirs: seq<bool>, path: Path, t: Tree, dir: bool)
    requires Along(nodes, path) && Turns(dirs, path) && t.Fork?
    ensures Along(nodes + [t.node], Step(path, t, dir)) && Turns(dirs + [dir], Step(path, t, dir))
  {
  }

  /** The path and the subtree at its end once the root of `t` is out: `gp` and `u` lead to its successor. */
  ghost predicate Unlinked(path: Path, t: Tree, gp: Path, u: Tree, path': Path, h: Tree) {
    && t.Fork?
    && if t.right == Leaf then path' == path && h == t.left
       else
         var e := |path|;
         && Successor(path, t, gp, u) && h == u.right
         && path' == Shrunk(gp[e := Heir(gp[e], u)], e + 1, |gp|)
  }

  /** `p` has no right child: the left one takes its place. */
  method UnlinkOnly(p: Node, above: Node, dir: bool, ghost m: Memory, ghost path: Path, ghost t: Tree) returns (ghost m': Memory)
    requires Synced(m) && Config(m, path, t) && t.Fork? && p == t.node && t.right == Leaf
    requires path != [] && above == path[|path| - 1].node && dir == path[|path| - 1].dir
    modifies above
    ensures Synced(m') && m'.Keys == m.Keys && Config(m', path, t.left)
  {
    ConfigRoot(m, path, t);
    ConfigFrame(m, path, t, |path| - 1);
    ForkRep(m, t, false);
    Sides(t, false);
    hide Walk, Rep, Nodes, Distinct, PathNodes;
    m' := Attach(above, dir, p.p0, m, path, p);
    Untouched(m, m', {above}, t.left);
  }

  lemma TakenKeys(m: Memory, m': Memory, path: Path, e: nat, t: Tree)
    requires 1 <= e < |path| && t.Fork? && Taken(m, m', path, e, t)
    ensures m'.Keys == m.Keys
  {
  }

  method UnlinkNext(p: Node, q: Node, nodes: seq<Node>, dirs: seq<bool>, ghost m: Memory, ghost path: Path, ghost t: Tree)
    returns (nodes': seq<Node>, dirs': seq<bool>, ghost m': Memory, ghost path': Path)
    requires Synced(m) && Config(m, path, t) && t.Fork? && p == t.node && Sized(t)
    requires t.right.Fork? && t.right.left == Leaf && q == t.right.node
    requires Along(nodes, path) && Turns(dirs, path) && path != [] && |path| + Height(t) <= MAX_DEPTH
    modifies m.Keys
    ensures Synced(m') && m'.Keys == m.Keys && Config(m', path', t.right.right)
    ensures Along(nodes', path') && Turns(dirs', path')
    ensures Unlinked(path, t, Step(path, t, true), t.right, path', t.right.right)
  {
    ghost var gp, e := Step(path, t, true), |path|;
    ConfigFrame(m, path, t, e - 1);
    ConfigRoot(m, gp, t.right) by {
      ConfigStep(m, path, t, true);
    }
    DescentStart(path, t);
    SuccessorFound(path, t, gp, t.right);
    path' := gp[e := Heir(gp[e], t.right)];
    ShrunkNone(path', e + 1);
    assert Unlinked(path, t, gp, t.right, path', t.right.right);
    assert |nodes| < MAX_DEPTH;
    NextParts(nodes, dirs, path, t);
    var above, dir := nodes[|nodes| - 1], dirs[|dirs| - 1];
    hide *;
    m' := TakeNext(p, q, above, dir, m, path, t);
    ConfigStep(m, path, t, true);
    TakenKeys(m, m', gp, e, t.right);
    ConfigTaken(m, m', gp, e, t.right);
    nodes', dirs' := nodes + [q], dirs + [true];
  }

  lemma NextParts(nodes: seq<Node>, dirs: seq<bool>, path: Path, t: Tree)
    requires Along(nodes, path) && Turns(dirs, path) && path != [] && t.Fork? && t.right.Fork? && t.right.left == Leaf
    ensures |nodes| == |dirs| == |path| && nodes[|nodes| - 1] == path[|path| - 1].node
    ensures dirs[|dirs| - 1] == path[|path| - 1].dir
    ensures var gp := Step(path, t, true);
      |gp| == |path| + 1
      && Along(nodes + [t.right.node], gp[|path| := Heir(gp[|path|], t.right)])
      && Turns(dirs + [true], gp[|path| := Heir(gp[|path|], t.right)])
  {
  }

  lemma ShrunkShape(path: Path, lo: nat)
    ensures SameShape(path, Shrunk(path, lo, |path|)) && PathNodes(Shrunk(path, lo, |path|)) == PathNodes(path)
    ensures Spine(Shrunk(path, lo, |path|)) == Spine(path)
  {
    var p := Shrunk(path, lo, |path|);
    assert SameShape(path, p);
    SameShapeKeeps(path, p);
    SpineSame(path, p);
  }

  lemma SameAlong(nodes: seq<Node>, dirs: seq<bool>, path: Path, p: Path)
    requires Along(nodes, path) && Turns(dirs, path) && SameShape(path, p)
    ensures Along(nodes, p) && Turns(dirs, p)
  {
  }

  /** Config after `ShrinkSizes`. */
  lemma ConfigShrunk(m: Memory, m': Memory, path: Path, lo: nat, h: Tree)
    requires Config(m, path, h) && SameBut(m, m', Spine(path)) && Walk(m', Shrunk(path, lo, |path|), h.Root())
    ensures Config(m', Shrunk(path, lo, |path|), h)
  {
    ShrunkShape(path, lo);
    SpineOff(path, h);
    Untouched(m, m', Spine(path), h);
  }

  lemma ConfigWalk(m: Memory, path: Path, t: Tree)
    requires Config(m, path, t)
    ensures Walk(m, path, t.Root())
  {
  }

  lemma FarParts(nodes: seq<Node>, dirs: seq<bool>, path: Path, t: Tree, gp: Path, u: Tree, nodes1: seq<Node>, dirs1: seq<bool>)
    requires Along(nodes, path) && Turns(dirs, path) && path != [] && Successor(path, t, gp, u) && |path| + 1 < |gp|
    requires Along(nodes1, gp) && Turns(dirs1, gp) && Positive(gp, |path|) && t.Fork? && t.right.Fork?
    ensures var e := |path|;
      var path1 := gp[e := Heir(gp[e], u)];
      && |nodes| == |dirs| == e && |nodes1| == |gp| == |dirs1|
      && nodes[e - 1] == gp[e - 1].node && dirs[e - 1] == gp[e - 1].dir
      && Along(nodes1[e := u.node], path1) && Turns(dirs1, path1) && Positive(path1, e + 1)
      && gp[e].node == t.node && gp[e].dir && gp[e].size > 0 && !gp[|gp| - 1].dir && u.left == Leaf && u.Fork?
      && Unlinked(path, t, gp, u, Shrunk(path1, e + 1, |gp|), u.right)
  {
    assert gp[..|path|][|path| - 1] == path[|path| - 1];
  }

  method UnlinkFar(p: Node, nodes: seq<Node>, dirs: seq<bool>, ghost m: Memory, ghost path: Path, ghost t: Tree)
    returns (nodes': seq<Node>, dirs': seq<bool>, ghost m': Memory, ghost path': Path, ghost gp: Path, ghost u: Tree)
    requires Synced(m) && Config(m, path, t) && t.Fork? && p == t.node && Sized(t)
    requires t.right.Fork? && t.right.left.Fork?
    requires Along(nodes, path) && Turns(dirs, path) && path != [] && |path| + Height(t) <= MAX_DEPTH
    modifies m.Keys
    ensures Synced(m') && m'.Keys == m.Keys && u.Fork? && Config(m', path', u.right)
    ensures Along(nodes', path') && Turns(dirs', path') && Unlinked(path, t, gp, u, path', u.right)
  {
    hide *;
    var q, r;
    q, r, nodes', dirs', gp, u := FindSuccessor(p, nodes, dirs, m, path, t);
    FarParts(nodes, dirs, path, t, gp, u, nodes', dirs');
    var e := |nodes|;
    ConfigFrame(m, gp, u, e - 1);
    ConfigFrame(m, gp, u, |gp| - 1);
    ConfigRoot(m, gp, u);
    ghost var m1, path1;
    m1 := TakeFar(p, q, r, nodes[e - 1], dirs[e - 1], m, gp, e, u);
    path1 := gp[e := Heir(gp[e], u)];
    TakenKeys(m, m1, gp, e, u);
    ConfigTaken(m, m1, gp, e, u);
    ConfigWalk(m1, path1, u.right);
    nodes' := nodes'[e := r];
    m' := ShrinkSizes(nodes', e + 1, m1, path1, u.right.Root());
    path' := Shrunk(path1, e + 1, |path1|);
    ConfigShrunk(m1, m', path1, e + 1, u.right);
    ShrunkShape(path1, e + 1);
    SameAlong(nodes', dirs', path1, path');
    KeysKept(m1, m', Spine(path1));
  }

  lemma KeysKept(m: Memory, m': Memory, changed: set<Node>)
    requires SameBut(m, m', changed)
    ensures m'.Keys == m.Keys
  {
  }

  // ---- the tree with the node out -------------------------------------------------------------------

  lemma FillInjective(f: Frame, t: Tree, t': Tree)
    requires Fill(f, t) == Fill(f, t')
    ensures t == t'
  {
  }

  lemma {:induction false} PlugInjective(path: Path, t: Tree, t': Tree)
    requires Plug(path, t) == Plug(path, t')
    ensures t == t'
    decreases |path|
  {
    if path != [] {
      var f := path[|path| - 1];
      PlugInjective(path[..|path| - 1], Fill(f, t), Fill(f, t'));
      FillInjective(f, t, t');
    }
  }

  /** The part of a path below its first `e` frames. */
  lemma SuccessorSpine(path: Path, t: Tree, gp: Path, u: Tree)
    requires Successor(path, t, gp, u)
    ensures Plug(gp[|path|..], u) == t
  {
    var e := |path|;
    assert gp == path + gp[e..];
    PlugSplit(path, gp[e..], u);
    PlugInjective(path, Plug(gp[e..], u), t);
  }

  lemma {:induction false} LeftTurns(rest: Path)
    requires forall i :: 0 <= i < |rest| ==> !rest[i].dir
    ensures Before(rest) == []
    decreases |rest|
  {
    if rest != [] {
      LeftTurns(rest[..|rest| - 1]);
    }
  }

  /** The tree that `t` becomes: what was left of the root, and what was right of it. */
  ghost predicate Without(t: Tree, t': Tree) {
    t.Fork? && Order(t') == Order(t.left) + Order(t.right) && Nodes(t') == Nodes(t.left) + Nodes(t.right)
  }

  lemma PlugFirst(f: Frame, rest: Path, t: Tree)
    ensures Plug([f] + rest, t) == Fill(f, Plug(rest, t))
  {
    PlugSplit([f], rest, t);
    assert [f][..0] == [];
  }

  lemma OnlyRight(u: Tree)
    requires u.Fork? && u.left == Leaf
    ensures Order(u) == [u.node] + Order(u.right) && Nodes(u) == {u.node} + Nodes(u.right)
  {
    assert Order(u.left) == [];
  }

  lemma HeirOrder(rest: Path, rest': Path, u: Tree)
    requires u.Fork? && u.left == Leaf && SameShape(rest, rest')
    requires forall i :: 0 <= i < |rest| ==> !rest[i].dir
    ensures Order(Plug(rest, u)) == [u.node] + Order(Plug(rest', u.right))
    ensures Nodes(Plug(rest, u)) == {u.node} + Nodes(Plug(rest', u.right))
  {
    hide *;
    PlugOrder(rest, u);
    PlugOrder(rest', u.right);
    PlugNodes(rest, u);
    PlugNodes(rest', u.right);
    SameShapeKeeps(rest, rest');
    LeftTurns(rest);
    OnlyRight(u);
    var a, h := After(rest), Order(u.right);
    assert [] + ([u.node] + h) + a == [u.node] + ([] + h + a);
  }

  lemma MakeOrder(t: Tree)
    requires t.Fork?
    ensures Order(t) == Order(t.left) + [t.node] + Order(t.right)
    ensures Nodes(t) == Nodes(t.left) + {t.node} + Nodes(t.right)
  {
  }

  lemma HeirTree(f: Frame, rest: Path, rest': Path, u: Tree, t: Tree)
    requires t.Fork? && u.Fork? && u.left == Leaf && f.dir && f.node == t.node && f.other == t.left
    requires (forall i :: 0 <= i < |rest| ==> !rest[i].dir) && SameShape(rest, rest')
    requires t.right == Plug(rest, u)
    ensures Without(t, Fill(Heir(f, u), Plug(rest', u.right)))
  {
    hide Order, Nodes, Plug, SameShape;
    var right' := Plug(rest', u.right);
    HeirOrder(rest, rest', u);
    var t' := Fill(Heir(f, u), right');
    MakeOrder(t');
    var l, r := Order(t.left), Order(right');
    assert l + [u.node] + r == l + ([u.node] + r);
    assert Nodes(t.left) + {u.node} + Nodes(right') == Nodes(t.left) + ({u.node} + Nodes(right'));
  }

  lemma UnlinkedParts(path: Path, t: Tree, gp: Path, u: Tree, path': Path, h: Tree)
    requires Unlinked(path, t, gp, u, path', h) && t.right != Leaf
    ensures var e := |path|;
      && e < |gp| == |path'|
      && var f, rest, rest' := gp[e], gp[e + 1..], path'[e + 1..];
        && gp[e..] == [f] + rest && path' == path + ([Heir(f, u)] + rest') && SameShape(rest, rest')
        && (forall i :: 0 <= i < |rest| ==> !rest[i].dir) && f.dir && f.node == t.node && f.other == t.left
        && (forall i :: 0 <= i < |rest| ==> rest'[i] == rest[i].(size := Less(rest[i].size)))
  {
  }

  lemma UnlinkedOrder(path: Path, t: Tree, gp: Path, u: Tree, path': Path, h: Tree) returns (t': Tree)
    requires Unlinked(path, t, gp, u, path', h)
    ensures Plug(path', h) == Plug(path, t') && Without(t, t')
  {
    if t.right == Leaf {
      t' := t.left;
      return;
    }
    var e := |path|;
    SuccessorSpine(path, t, gp, u);
    UnlinkedParts(path, t, gp, u, path', h);
    var f, rest, rest' := gp[e], gp[e + 1..], path'[e + 1..];
    PlugFirst(f, rest, u);
    HeirTree(f, rest, rest', u, t);
    t' := Fill(Heir(f, u), Plug(rest', h));
    PlugSplit(path, [Heir(f, u)] + rest', h);
    PlugFirst(Heir(f, u), rest', h);
  }

  /** The same path with one node less in the hole. */
  ghost predicate Lessened(path: Path, p: Path) {
    && |p| == |path|
    && forall i :: 0 <= i < |path| ==>
      p[i].size == Less(path[i].size) && p[i].balance == path[i].balance
      && p[i].dir == path[i].dir && p[i].other == path[i].other
  }

  lemma {:induction false} LessenedSized(path: Path, p: Path, n: nat)
    requires PathSized(path, n + 1) && Lessened(path, p)
    ensures PathSized(p, n)
    decreases |path|
  {
    if path != [] {
      var k := |path| - 1;
      LessenedSized(path[..k], p[..k], p[k].size);
    }
  }

  ghost predicate OthersMins(path: Path) {
    forall i :: 0 <= i < |path| ==> Mins(path[i].other)
  }

  lemma {:induction false} PathMinsOthers(path: Path, nodes: set<Node>)
    requires PathMins(path, nodes)
    ensures OthersMins(path)
    decreases |path|
  {
    if path != [] {
      var k := |path| - 1;
      PathMinsOthers(path[..k], nodes + {path[k].node} + Nodes(path[k].other));
      assert forall i :: 0 <= i < k ==> path[..k][i] == path[i];
    }
  }

  /** What is known of the path above the erased node, frame 0 aside. */
  ghost predicate Fits(path: Path, n: nat, h: nat) {
    path != [] && PathSized(path[1..], n) && PathBalanced(path[1..], h)
  }

  lemma FitsPlug(path: Path, t: Tree)
    requires path != []
    ensures Sized(Plug(path[1..], t)) && Balanced(Plug(path[1..], t)) <==>
      Fits(path, Count(t), Height(t)) && Sized(t) && Balanced(t)
  {
    PlugSized(path[1..], t);
    PlugBalanced(path[1..], t);
  }

  lemma FitsNonEmpty(path: Path, n: nat, h: nat)
    requires Fits(path, n, h)
    ensures path != []
  {
  }

  lemma FitsLessened(path: Path, p: Path, t: Tree, h: Tree)
    requires Fits(path, Count(t), Height(t)) && p != [] && Lessened(path[1..], p[1..])
    requires Count(t) == Count(h) + 1 && Height(t) == Height(h) + 1
    ensures Fits(p, Count(h), Height(h) + 1)
  {
    LessenedSized(path[1..], p[1..], Count(h));
    AboveSame(path[1..], p[1..], Height(t));
  }

  /** Frame 0 keeps the tree below it. */
  lemma FitsLonger(path: Path, spine: Path, t: Tree, u: Tree)
    requires Fits(path, Count(t), Height(t)) && Sized(t) && Balanced(t) && Plug(spine, u) == t
    ensures Fits(path + spine, Count(u), Height(u)) && Sized(u) && Balanced(u)
  {
    hide *;
    FitsNonEmpty(path, Count(t), Height(t));
    FitsPlug(path, t);
    PlugSplit(path[1..], spine, u);
    assert (path + spine)[1..] == path[1..] + spine;
    FitsPlug(path + spine, u);
  }

  lemma OneRight(u: Tree)
    requires u.Fork? && (u.left == Leaf || u.right == Leaf)
    ensures var h := if u.left == Leaf then u.right else u.left;
      Count(u) == Count(h) + 1 && Height(u) == Height(h) + 1
  {
  }

  lemma Parts(t: Tree)
    requires t.Fork? && Sized(t) && Balanced(t) && Mins(t)
    ensures Sized(t.left) && Balanced(t.left) && Mins(t.left) && Sized(t.right) && Balanced(t.right) && Mins(t.right)
  {
  }

  /** All that fitted the tree before fits it without the node, but for a hole one lower than the balances say. */
  lemma UnlinkedFits(whole: Path, path: Path, t: Tree, gp: Path, u: Tree, path': Path, h: Tree)
    requires whole != [] && path == Shrunk(whole, 1, |whole|) && Unlinked(path, t, gp, u, path', h)
    requires Fits(whole, Count(t), Height(t)) && Sized(t) && Balanced(t) && Mins(t) && OthersMins(whole)
    ensures Fits(path', Count(h), Height(h) + 1) && Sized(h) && Balanced(h) && Mins(h) && OthersMins(path')
  {
    hide Fits, Mins, Sized, Balanced, Count, Height, Plug, Successor;
    Parts(t);
    if t.right == Leaf {
      assert h == t.left && path' == path;
      OnlyLeft(t);
      FitsLessened(whole, path, t, h);
    } else {
      var e := |path|;
      UnlinkedParts(path, t, gp, u, path', h);
      var spine := gp[e..];
      SuccessorSpine(path, t, gp, u);
      SuccessorEnd(path, t, gp, u);
      FitsLonger(whole, spine, t, u);
      OneRight(u);
      SpineLessened(whole, path, t, gp, u, path', h);
      FitsLessened(whole + spine, path', u, h);
      SpineMins(spine, t, u);
      Parts(u);
      OthersMinsJoin(whole, path, gp, u, path', t, h);
    }
  }

  lemma OnlyLeft(t: Tree)
    requires t.Fork? && t.right == Leaf
    ensures Count(t) == Count(t.left) + 1 && Height(t) == Height(t.left) + 1
  {
  }

  lemma SuccessorEnd(path: Path, t: Tree, gp: Path, u: Tree)
    requires Successor(path, t, gp, u)
    ensures u.Fork? && u.left == Leaf
  {
  }

  lemma SpineMins(spine: Path, t: Tree, u: Tree)
    requires Mins(t) && Plug(spine, u) == t
    ensures Mins(u) && OthersMins(spine)
  {
    PlugMins(spine, u);
    PathMinsOthers(spine, Nodes(u));
  }

  lemma SpineLessened(whole: Path, path: Path, t: Tree, gp: Path, u: Tree, path': Path, h: Tree)
    requires whole != [] && path == Shrunk(whole, 1, |whole|) && Unlinked(path, t, gp, u, path', h) && t.right != Leaf
    ensures path' != [] && Lessened((whole + gp[|path|..])[1..], path'[1..])
  {
    UnlinkedParts(path, t, gp, u, path', h);
    hide Successor;
    var a, b := (whole + gp[|path|..])[1..], path'[1..];
    forall i | 0 <= i < |a|
      ensures b[i].size == Less(a[i].size) && b[i].balance == a[i].balance && b[i].dir == a[i].dir && b[i].other == a[i].other
    {
    }
  }

  lemma OthersMinsJoin(whole: Path, path: Path, gp: Path, u: Tree, path': Path, t: Tree, h: Tree)
    requires path == Shrunk(whole, 1, |whole|) && Unlinked(path, t, gp, u, path', h) && t.right != Leaf
    requires OthersMins(whole) && OthersMins(gp[|path|..])
    ensures OthersMins(path')
  {
    UnlinkedParts(path, t, gp, u, path', h);
    hide Successor, Mins;
    var e := |path|;
    forall i | 0 <= i < |path'|
      ensures Mins(path'[i].other)
    {
      if i < e {
        assert path'[i].other == whole[i].other;
      } else {
        assert path'[i].other == gp[e..][i - e].other;
      }
    }
  }

  // ---- lightest nodes -----------------------------------------------------------------------------------

  lemma BelowMins(p: Path, i: nat, h: Tree)
    requires i < |p| && Mins(Below(p, i + 1, h)) && Mins(p[i].other)
    ensures var p' := p[i := Weighed(p[i], Below(p, i + 1, h))];
      Mins(Below(p', i, h))
  {
    var b := Below(p, i + 1, h);
    var f := Weighed(p[i], b);
    var p' := p[i := f];
    assert p'[i + 1..] == p[i + 1..];
    BelowStep(p', i, h);
    WeighedMins(p[i], b);
  }

  lemma FrameReady(m: Memory, p: Path, i: nat, h: Tree)
    requires Config(m, p, h) && i < |p|
    ensures var b, n := Below(p, i + 1, h), p[i].node;
      && n in m && Rep(m, b) && b.Root() == HoleAt(p, i, h.Root())
      && n !in Nodes(b) && n !in Nodes(p[i].other) && n !in Nodes(h)
  {
    WalkCell(m, p, h.Root(), i);
    BelowRep(m, p, i + 1, h);
    PathNode(p, i);
    BelowWhole(p, i + 1, h);
    PlugDistinct(p, h);
    PlugDistinct(p[..i + 1], Below(p, i + 1, h));
    assert p[..i + 1][i] == p[i];
    PathNode(p[..i + 1], i);
    SeparateAlone(p, i);
  }

  lemma ConfigWeighed(m: Memory, m': Memory, p: Path, i: nat, b: Tree, h: Tree)
    requires Config(m, p, h) && i < |p| && SameBut(m, m', {p[i].node})
    requires Walk(m', p[i := Weighed(p[i], b)], h.Root())
    ensures Config(m', p[i := Weighed(p[i], b)], h)
  {
    var p' := p[i := Weighed(p[i], b)];
    assert SameShape(p, p');
    SameShapeKeeps(p, p');
    PathNode(p, i);
    Untouched(m, m', {p[i].node}, h);
  }

  /** Every lightest node on the path, from the bottom up. */
  method WeighAll(nodes: seq<Node>, ghost m: Memory, ghost path: Path, ghost h: Tree) returns (ghost m': Memory, ghost p: Path)
    requires Synced(m) && Along(nodes, path) && Config(m, path, h) && OthersMins(path) && Mins(h)
    modifies m.Keys
    ensures Synced(m') && m'.Keys == m.Keys && Config(m', p, h) && SameButMins(path, p) && Mins(Plug(p, h))
  {
    hide Config, Weighed, Below, Mins, Plug, HoleAt, Nodes, Rep;
    m', p := m, path;
    BelowEnds(path, h);
    var i := |nodes|;
    while i > 0
      invariant 0 <= i <= |nodes|
      invariant Synced(m') && m'.Keys == m.Keys && Config(m', p, h) && SameButMins(path, p)
      invariant Mins(Below(p, i, h))
    {
      i := i - 1;
      FrameReady(m', p, i, h);
      ConfigWalk(m', p, h);
      ghost var b, was := Below(p, i + 1, h), m';
      m' := WeighFrame(nodes[i], m', p, i, h.Root(), b);
      assert Mins(p[i].other);
      BelowMins(p, i, h);
      ConfigWeighed(was, m', p, i, b, h);
      WeighedSame(path, p, i, b);
      p := p[i := Weighed(p[i], b)];
    }
    BelowEnds(p, h);
  }

  // ---- balance -------------------------------------------------------------------------------------------

  /** A single rotation of a tree whose heavy child is even. */
  lemma Evenly(t: Tree, dir: bool)
    requires Distinct(t) && Sized(t) && Mins(t) && Leaning(t, dir)
    requires t.Sub(!dir).Fork? && t.Sub(!dir).balance == 0
    ensures CanRotate1(t, dir)
    ensures var t1 := Rotated1(t, dir);
      && t1.Fork? && t1.node == t.Sub(!dir).node && t1.Sub(dir).Fork? && t1.Sub(dir).node == t.node && Distinct(t1)
      && var t' := Rebalanced(t1, dir, -Lean(!dir), Lean(!dir));
        Settles(t, t') && Height(t') == Height(t) && t'.node == t1.node
  {
    assert t.Fork?;
    hide Distinct, Nodes, Sized, Mins, Leaning, Balanced, Height, Order, Count;
    Rotate1Keeps(t, dir);
    Rotate1Order(t, dir);
    Rotate1Mins(t, dir);
    Rotate1Balances(t, dir);
    Rotated1Roots(t, dir);
    RebalancedKeeps(Rotated1(t, dir), dir, -Lean(!dir), Lean(!dir));
  }

  method RotateEven(q: Node, r: Node, which: bool, ghost m: Memory, ghost t: Tree)
    returns (top: Node, ghost m': Memory, ghost t': Tree)
    requires Synced(m) && Rep(m, t) && Distinct(t) && Sized(t) && Mins(t)
    requires Leaning(t, which) && q == t.node && t.Sub(!which).Fork? && t.Sub(!which).balance == 0
    requires r == t.Sub(!which).node
    modifies Nodes(t)
    ensures Synced(m') && Rep(m', t') && top == t'.Root() && SameBut(m, m', Nodes(t))
    ensures Settles(t, t') && Height(t') == Height(t)
  {
    var b1 := if which then -1 else 1;
    assert b1 == Lean(!which);
    hide *;
    NodesOf(t, !which);
    Evenly(t, which);
    top, m' := TurnEven(q, r, which, -b1, b1, m, t);
    t' := Rebalanced(Rotated1(t, which), which, -b1, b1);
    RootOf(t');
    SameButAll(m, m', {r, q}, Nodes(t));
  }

  lemma SameButAll(m: Memory, m': Memory, some: set<Node>, all: set<Node>)
    requires SameBut(m, m', some) && some <= all
    ensures SameBut(m, m', all)
  {
  }

  /** A single rotation and the balances after it. */
  method TurnEven(q: Node, r: Node, which: bool, rb: int, cb: int, ghost m: Memory, ghost t: Tree)
    returns (top: Node, ghost m': Memory)
    requires Synced(m) && Rep(m, t) && Distinct(t) && CanRotate1(t, which) && q == t.node && r == t.Sub(!which).node
    requires var t1 := Rotated1(t, which);
      t1.Fork? && t1.node == r && t1.Sub(which).Fork? && t1.Sub(which).node == q && Distinct(t1)
    modifies q, r
    ensures Synced(m') && Rep(m', Rebalanced(Rotated1(t, which), which, rb, cb)) && top == r
    ensures SameBut(m, m', {r, q})
  {
    hide *;
    ghost var m1;
    top, m1 := Rotate1(q, which, m, t);
    m' := SetBalances(r, q, which, rb, cb, m1, Rotated1(t, which));
    TwoChanges(m, m1, m', {r, q}, {r, q});
  }

  /** The rotations of a deletion; `even` tells that the height stays as it was. */
  method RotateErase(q: Node, which: bool, ghost m: Memory, ghost t: Tree)
    returns (top: Node, even: bool, ghost m': Memory, ghost t': Tree)
    requires Synced(m) && Rep(m, t) && Distinct(t) && Sized(t) && Mins(t)
    requires Leaning(t, which) && q == t.node && t.Sub(!which).Fork?
    modifies Nodes(t)
    ensures Synced(m') && Rep(m', t') && top == t'.Root() && SameBut(m, m', Nodes(t))
    ensures Settles(t, t') && Height(t') == Height(t) - if even then 0 else 1
  {
    ForkRep(m, t, which);
    ForkRep(m, t.Sub(!which), which);
    SubBalance(t, which);
    var b1 := if which then -1 else 1;
    var r: Node := q.Child(!which);
    assert r.balance == t.Sub(!which).balance && b1 == Lean(!which);
    hide *;
    even := false;
    if r.balance == -b1 {
      top, m', t' := RotateIn(q, which, m, t);
    } else if r.balance == 0 {
      top, m', t' := RotateEven(q, r, which, m, t);
      even := true;
    } else {
      top, m', t' := RotateOut(q, r, which, m, t);
    }
  }

  /** The tree at the end of the path with another balance at its root. */
  lemma RootBalance(t: Tree, b: int)
    requires t.Fork?
    ensures var t' := t.(balance := b);
      && Order(t') == Order(t) && Nodes(t') == Nodes(t) && Height(t') == Height(t) && Count(t') == Count(t)
      && (Sized(t') <==> Sized(t)) && (Distinct(t') <==> Distinct(t)) && (Mins(t') <==> Mins(t))
      && t'.Root() == t.Root()
  {
  }

  method AddToBalance(q: Node, b1: int, ghost m: Memory, ghost path: Path, ghost t: Tree) returns (ghost m': Memory)
    requires Synced(m) && Config(m, path, t) && t.Fork? && q == t.node
    modifies q
    ensures Synced(m') && m'.Keys == m.Keys && Config(m', path, t.(balance := t.balance + b1))
    ensures q.balance == t.balance + b1
  {
    ConfigRoot(m, path, t);
    RootBalance(t, t.balance + b1);
    ForkRep(m, t, true);
    Sides(t, true);
    hide Rep, Walk, Distinct, Nodes, PathNodes, Sized, Mins, Balanced;
    q.balance := q.balance + b1;
    m' := m[q := q.Fields()];
    WalkFrame(m, m', path, q, {q});
    Untouched(m, m', {q}, t.left);
    Untouched(m, m', {q}, t.right);
    MakeRep(m', t.(balance := t.balance + b1), true);
  }

  lemma ConfigFill(m: Memory, path: Path, t: Tree)
    requires path != [] && Config(m, path, t)
    ensures Config(m, path[..|path| - 1], Fill(path[|path| - 1], t))
  {
    var up, f := path[..|path| - 1], path[|path| - 1];
    assert Plug(path, t) == Plug(up, Fill(f, t));
    RepPlug(m, path, t);
    RepPlug(m, up, Fill(f, t));
    PlugDistinct(path, t);
    PlugDistinct(up, Fill(f, t));
  }

  /** A frame whose hole has become one lower than its balance says. */
  ghost predicate Lowered(f: Frame, t: Tree) {
    && Balanced(t) && Balanced(f.other) && -1 <= f.balance <= 1
    && f.balance == Tilt(f.dir, Height(t) + 1, Height(f.other))
  }

  function OldHeight(f: Frame, t: Tree): nat {
    1 + Max(Height(t) + 1, Height(f.other))
  }

  lemma LoweredCases(f: Frame, t: Tree)
    requires Lowered(f, t)
    ensures var b1 := Lean(!f.dir);
      var c := Fill(f, t).(balance := f.balance + b1);
      && Fill(f, t).Fork? && Fill(f, t).balance == f.balance
      && (c.balance == b1 ==> Balanced(c) && Height(c) == OldHeight(f, t))
      && (c.balance == 2 * b1 ==> Leaning(c, f.dir) && c.Sub(!f.dir).Fork? && Height(c) == OldHeight(f, t))
      && (c.balance != b1 && c.balance != 2 * b1 ==> Balanced(c) && Height(c) + 1 == OldHeight(f, t))
  {
    FillNode(f, t);
    var c := Fill(f, t).(balance := f.balance + Lean(!f.dir));
    Sides(c, f.dir);
  }

  lemma FillNode(f: Frame, t: Tree)
    ensures Fill(f, t).Fork? && Fill(f, t).node == f.node
  {
  }

  lemma SettlesBalanced(c: Tree, t: Tree, b: int)
    requires c.Fork? && t == c.(balance := b) && Balanced(t) && Sized(c) && Distinct(c) && Mins(c)
    ensures Settles(c, t)
  {
    RootBalance(c, b);
  }

  lemma SettlesOn(c: Tree, c1: Tree, t: Tree, b: int)
    requires c.Fork? && c1 == c.(balance := b) && Settles(c1, t)
    ensures Settles(c, t)
  {
    RootBalance(c, b);
  }

  /** The new top of a rotated subtree is linked from above. */
  lemma ConfigFrom(m: Memory, path: Path, t: Tree)
    requires Walk(m, path, t.Root()) && Rep(m, t) && PathNodes(path) !! Nodes(t) && Distinct(t)
    ensures Config(m, path, t)
  {
  }

  lemma ConfigParts(m: Memory, path: Path, t: Tree)
    requires Config(m, path, t)
    ensures Walk(m, path, t.Root()) && Rep(m, t) && PathNodes(path) !! Nodes(t) && Distinct(t)
  {
  }

  lemma SettledFacts(t: Tree, t': Tree)
    requires Settles(t, t')
    ensures Nodes(t') == Nodes(t) && Distinct(t') && Balanced(t') && t'.Fork?
  {
  }

  method RotateLowered(q: Node, which: bool, above: Node, adir: bool, ghost m: Memory, ghost up: Path, ghost c: Tree)
    returns (even: bool, ghost m': Memory, ghost t': Tree)
    requires Synced(m) && up != [] && Config(m, up, c) && Sized(c) && Mins(c)
    requires Leaning(c, which) && q == c.node && c.Sub(!which).Fork?
    requires above == up[|up| - 1].node && adir == up[|up| - 1].dir
    modifies m.Keys
    ensures Synced(m') && m'.Keys == m.Keys && Config(m', up, t')
    ensures Settles(c, t') && Height(t') == Height(c) - if even then 0 else 1
  {
    hide *;
    ConfigParts(m, up, c);
    InKeys(m, c);
    var top;
    ghost var m1;
    top, even, m1, t' := RotateErase(q, which, m, c);
    WalkFrame(m, m1, up, c.Root(), Nodes(c));
    ConfigFrame(m, up, c, |up| - 1);
    KeysKept(m, m1, Nodes(c));
    SettledFacts(c, t');
    m' := Attach(above, adir, top, m1, up, c.Root());
    KeysKept(m1, m', {above});
    Untouched(m1, m', {above}, t') by {
      SameButParts(m1, m', {above});
    }
    ConfigFrom(m', up, t');
  }

  lemma SameButParts(m: Memory, m': Memory, changed: set<Node>)
    requires SameBut(m, m', changed)
    ensures m'.Keys == m.Keys && forall n :: n in m && n !in changed ==> m'[n] == m[n]
  {
  }

  lemma {:induction false} InKeys(m: Memory, t: Tree)
    requires Rep(m, t)
    ensures Nodes(t) <= m.Keys
  {
    if t.Fork? {
      InKeys(m, t.left);
      InKeys(m, t.right);
    }
  }

  /** One turn of the last loop of `krmq_erase`; `stop` when the height is what it was. */
  method Restore(q: Node, which: bool, above: Node, adir: bool, ghost m: Memory, ghost up: Path, ghost f: Frame, ghost t: Tree)
    returns (stop: bool, ghost m': Memory, ghost t': Tree)
    requires Synced(m) && up != [] && Config(m, up, Fill(f, t)) && Sized(Fill(f, t)) && Mins(Fill(f, t))
    requires Lowered(f, t) && q == f.node && which == f.dir
    requires above == up[|up| - 1].node && adir == up[|up| - 1].dir
    modifies m.Keys
    ensures Synced(m') && m'.Keys == m.Keys && Config(m', up, t')
    ensures Settles(Fill(f, t), t') && Height(t') == OldHeight(f, t) - if stop then 0 else 1
  {
    var b1 := if which then -1 else 1;
    assert b1 == Lean(!f.dir);
    hide *;
    LoweredCases(f, t);
    FillNode(f, t);
    ghost var c := Fill(f, t);
    ghost var b := c.balance + b1;
    ConfigRoot(m, up, c);
    ConfigParts(m, up, c);
    RootBalance(c, b);
    ghost var m1 := AddToBalance(q, b1, m, up, c);
    ghost var c1 := c.(balance := b);
    if q.balance == b1 {
      stop, m', t' := true, m1, c1;
      SettlesBalanced(c, c1, b);
    } else if q.balance == 2 * b1 {
      stop, m', t' := RotateLowered(q, which, above, adir, m1, up, c1);
      SettlesOn(c, c1, t', b);
    } else {
      stop, m', t' := false, m1, c1;
      SettlesBalanced(c, c1, b);
    }
  }

  /** The tree below frame 0. */
  function Whole(path: Path, t: Tree): Tree
    requires path != []
  {
    Plug(path[1..], t)
  }

  lemma WholeUp(path: Path, t: Tree)
    requires |path| > 1
    ensures var up, f := path[..|path| - 1], path[|path| - 1];
      Whole(path, t) == Whole(up, Fill(f, t))
  {
    assert path[1..][..|path| - 2] == path[..|path| - 1][1..];
  }

  lemma PlugWhole(path: Path, t: Tree)
    requires path != []
    ensures Plug(path, t) == Fill(path[0], Whole(path, t))
  {
    assert path == [path[0]] + path[1..];
    PlugFirst(path[0], path[1..], t);
  }

  /** The state of the last loop: the balances above `t` wait for a tree one higher, or no longer. */
  ghost predicate Settling(path: Path, t: Tree, order: seq<Node>, nodes: set<Node>, waiting: bool) {
    && path != [] && Balanced(t) && PathBalanced(path[1..], Height(t) + if waiting then 1 else 0)
    && var whole := Whole(path, t);
      Sized(whole) && Distinct(whole) && Mins(whole) && Order(whole) == order && Nodes(whole) == nodes
  }

  lemma SettlingFrame(path: Path, t: Tree, order: seq<Node>, nodes: set<Node>)
    requires |path| > 1 && Settling(path, t, order, nodes, true)
    ensures var up, f := path[..|path| - 1], path[|path| - 1];
      && Lowered(f, t) && Sized(Fill(f, t)) && Mins(Fill(f, t)) && PathBalanced(up[1..], OldHeight(f, t))
  {
    hide Balanced, Height, Plug, Sized, Mins, Distinct, Order, Nodes, Fill, Tilt, Max;
    var up, f := path[..|path| - 1], path[|path| - 1];
    var inner := path[1..];
    assert inner[|inner| - 1] == f && inner[..|inner| - 1] == up[1..];
    WholeUp(path, t);
    PlugSized(up[1..], Fill(f, t));
    PlugMins(up[1..], Fill(f, t));
  }

  lemma SettlingStep(path: Path, t: Tree, order: seq<Node>, nodes: set<Node>, t': Tree, stop: bool)
    requires |path| > 1 && Settling(path, t, order, nodes, true)
    requires var f := path[|path| - 1];
      Settles(Fill(f, t), t') && Height(t') == OldHeight(f, t) - if stop then 0 else 1
    ensures Settling(path[..|path| - 1], t', order, nodes, !stop)
  {
    hide Settles, Balanced, Height, Plug, Sized, Mins, Distinct, Order, Nodes, PathBalanced, Fill, OldHeight, Lowered;
    var up, f := path[..|path| - 1], path[|path| - 1];
    SettlingFrame(path, t, order, nodes);
    WholeUp(path, t);
    SettledFacts(Fill(f, t), t');
    ReplaceSound(up[1..], Fill(f, t), t');
  }

  lemma SettlingDone(path: Path, t: Tree, order: seq<Node>, nodes: set<Node>, waiting: bool)
    requires Settling(path, t, order, nodes, waiting) && (|path| == 1 || !waiting)
    ensures Balanced(Whole(path, t))
  {
    PlugBalanced(path[1..], t);
    if |path| == 1 {
      assert path[1..] == [];
    }
  }

  /** The last loop of `krmq_erase`. */
  method BalanceUp(nodes: seq<Node>, dirs: seq<bool>, ghost m: Memory, ghost path: Path, ghost t: Tree,
                   ghost order: seq<Node>, ghost all: set<Node>)
    returns (ghost m': Memory, ghost whole: Tree)
    requires Synced(m) && Along(nodes, path) && Turns(dirs, path) && path != [] && Config(m, path, t)
    requires Settling(path, t, order, all, true)
    modifies m.Keys
    ensures Synced(m') && m'.Keys == m.Keys && Rep(m', Fill(path[0], whole))
    ensures Sized(whole) && Distinct(whole) && Mins(whole) && Balanced(whole) && Order(whole) == order && Nodes(whole) == all
  {
    hide *;
    AlongAll(nodes, dirs, path);
    m' := m;
    ghost var p, c, waiting := path, t, true;
    var d := |nodes|;
    while d > 1
      invariant 1 <= d <= |nodes| && p == path[..d]
      invariant Synced(m') && m'.Keys == m.Keys && Config(m', p, c) && Settling(p, c, order, all, waiting)
      invariant waiting
    {
      d := d - 1;
      ghost var up, f := path[..d], path[d];
      assert p[..d] == up && p[d] == f;
      SettlingFrame(p, c, order, all);
      ConfigFill(m', p, c);
      var stop;
      ghost var c';
      stop, m', c' := Restore(nodes[d], dirs[d], nodes[d - 1], dirs[d - 1], m', up, f, c);
      SettlingStep(p, c, order, all, c', stop);
      p, c, waiting := up, c', !stop;
      if stop {
        break;
      }
    }
    SettlingDone(p, c, order, all, waiting);
    SettlingWhole(p, c, order, all, waiting);
    WholeRep(m', p, c);
    assert p[0] == path[0];
    whole := Whole(p, c);
  }

  lemma AlongAll(nodes: seq<Node>, dirs: seq<bool>, path: Path)
    requires Along(nodes, path) && Turns(dirs, path)
    ensures |nodes| == |dirs| == |path| && path[..|nodes|] == path
    ensures forall i :: 0 <= i < |path| ==> nodes[i] == path[i].node && dirs[i] == path[i].dir
  {
  }

  lemma SettlingWhole(path: Path, t: Tree, order: seq<Node>, nodes: set<Node>, waiting: bool)
    requires Settling(path, t, order, nodes, waiting)
    ensures var whole := Whole(path, t);
      Sized(whole) && Distinct(whole) && Mins(whole) && Order(whole) == order && Nodes(whole) == nodes
  {
  }

  lemma WholeRep(m: Memory, path: Path, t: Tree)
    requires path != [] && Config(m, path, t)
    ensures Rep(m, Fill(path[0], Whole(path, t)))
  {
    RepPlug(m, path, t);
    PlugWhole(path, t);
  }

  // ---- all together ----------------------------------------------------------------------------------------

  lemma {:induction false} SizedPositive(path: Path, n: nat)
    requires PathSized(path, n)
    ensures Positive(path, 0)
    decreases |path|
  {
    if path != [] {
      SizedPositive(path[..|path| - 1], path[|path| - 1].size);
      assert forall i :: 0 <= i < |path| - 1 ==> path[..|path| - 1][i] == path[i];
    }
  }

  lemma FitsPositive(path: Path, n: nat, h: nat)
    requires Fits(path, n, h)
    ensures Positive(path, 1)
  {
    SizedPositive(path[1..], n);
    assert forall i :: 1 <= i < |path| ==> path[1..][i - 1] == path[i];
  }

  /** The frame of `fake` holds the tree on its left. */
  ghost predicate Faked(path: Path) {
    path != [] && !path[0].dir && path[0].other == Leaf
  }

  lemma WholeOrder(path: Path, t: Tree)
    requires Faked(path)
    ensures Order(Plug(path, t)) == Order(Whole(path, t)) + [path[0].node]
    ensures Nodes(Plug(path, t)) == Nodes(Whole(path, t)) + {path[0].node}
    ensures Distinct(Plug(path, t)) ==> Distinct(Whole(path, t)) && path[0].node !in Nodes(Whole(path, t))
    ensures Mins(Plug(path, t)) ==> Mins(Whole(path, t))
  {
    PlugWhole(path, t);
    MakeOrder(Fill(path[0], Whole(path, t)));
    assert Order(Leaf) == [];
  }

  /** Paths of one shape put a tree into one order. */
  lemma ShapeOrder(path: Path, p: Path, t: Tree)
    requires SameShape(path, p)
    ensures Order(Plug(path, t)) == Order(Plug(p, t)) && Nodes(Plug(path, t)) == Nodes(Plug(p, t))
  {
    SameShapeKeeps(path, p);
    PlugOrder(path, t);
    PlugOrder(p, t);
    PlugNodes(path, t);
    PlugNodes(p, t);
  }

  lemma SameTail(a: seq<Node>, b: seq<Node>, x: Node)
    requires a + [x] == b + [x]
    ensures a == b
  {
    assert (a + [x])[..|a|] == a && (b + [x])[..|b|] == b;
  }

  lemma SameButMinsShape(path: Path, p: Path)
    requires SameButMins(path, p) && Faked(path)
    ensures SameShape(path, p) && Faked(p) && p[0].node == path[0].node && SameButMins(path[1..], p[1..])
  {
  }

  lemma ShrunkFaked(path: Path)
    requires Faked(path)
    ensures SameShape(path, Shrunk(path, 1, |path|)) && Faked(Shrunk(path, 1, |path|))
  {
  }

  lemma UnlinkedFaked(path: Path, t: Tree, gp: Path, u: Tree, path': Path, h: Tree)
    requires Unlinked(path, t, gp, u, path', h) && Faked(path)
    ensures Faked(path') && path'[0].node == path[0].node
  {
    if t.right != Leaf {
      UnlinkedParts(path, t, gp, u, path', h);
    }
  }

  /** The order and the nodes of the tree without `t`'s root, below `fake`. */
  lemma ErasedOrder(whole: Path, path: Path, t: Tree, gp: Path, u: Tree, path': Path, h: Tree, p: Path)
    returns (t': Tree)
    requires Faked(whole) && path == Shrunk(whole, 1, |whole|) && Unlinked(path, t, gp, u, path', h)
    requires SameButMins(path', p) && Faked(p)
    requires Distinct(Plug(p, h)) && Distinct(Plug(whole, t))
    ensures Without(t, t') && Order(Whole(p, h)) == Order(Whole(whole, t')) && Nodes(Whole(p, h)) == Nodes(Whole(whole, t'))
  {
    hide Unlinked, Without, Distinct, Order, Nodes, Plug, Whole, Shrunk;
    t' := UnlinkedOrder(path, t, gp, u, path', h);
    ShrunkFaked(whole);
    UnlinkedFaked(path, t, gp, u, path', h);
    SameButMinsShape(path', p);
    ShapeOrder(path', p, h);
    ShapeOrder(whole, path, t');
    WholeOrder(p, h);
    WholeOrder(whole, t');
    SameTail(Order(Whole(p, h)), Order(Whole(whole, t')), whole[0].node);
    WithoutDistinct(whole, t, t');
    assert Nodes(Whole(p, h)) == Nodes(Whole(p, h)) + {p[0].node} - {p[0].node};
    assert Nodes(Whole(whole, t')) == Nodes(Whole(whole, t')) + {p[0].node} - {p[0].node};
  }

  lemma WithoutDistinct(whole: Path, t: Tree, t': Tree)
    requires Faked(whole) && Distinct(Plug(whole, t)) && Without(t, t')
    ensures whole[0].node !in Nodes(Whole(whole, t'))
  {
    WholeOrder(whole, t);
    PlugNodes(whole[1..], t);
    PlugNodes(whole[1..], t');
  }

  /** What `krmq_erase` may rely on when it has found the node to erase at the root of `t`. */
  ghost predicate Found(path: Path, t: Tree) {
    && Faked(path) && t.Fork? && Fits(path, Count(t), Height(t)) && Sized(t) && Balanced(t) && Mins(t)
    && OthersMins(path) && |path| + Height(t) <= MAX_DEPTH
  }

  lemma FoundParts(path: Path, t: Tree)
    requires Found(path, t)
    ensures path != [] && Faked(path) && t.Fork? && Fits(path, Count(t), Height(t)) && Sized(t) && Balanced(t) && Mins(t)
    ensures OthersMins(path) && |path| + Height(t) <= MAX_DEPTH && Positive(path, 1)
  {
    FitsPositive(path, Count(t), Height(t));
  }

  method Unlink(p: Node, nodes: seq<Node>, dirs: seq<bool>, ghost m: Memory, ghost path: Path, ghost t: Tree)
    returns (nodes': seq<Node>, dirs': seq<bool>, ghost m': Memory, ghost path': Path, ghost h: Tree, ghost gp: Path, ghost u: Tree)
    requires Synced(m) && Config(m, path, t) && t.Fork? && p == t.node && Sized(t)
    requires Along(nodes, path) && Turns(dirs, path) && path != [] && |path| + Height(t) <= MAX_DEPTH
    modifies m.Keys
    ensures Synced(m') && m'.Keys == m.Keys && Config(m', path', h)
    ensures Along(nodes', path') && Turns(dirs', path') && Unlinked(path, t, gp, u, path', h)
  {
    ConfigRoot(m, path, t);
    NothingRight(path, t);
    if p.p1 == null {
      AlongAll(nodes, dirs, path);
      assert t.right == Leaf;
      hide *;
      ConfigFrame(m, path, t, |path| - 1);
      m' := UnlinkOnly(p, nodes[|nodes| - 1], dirs[|dirs| - 1], m, path, t);
      nodes', dirs', path', h, gp, u := nodes, dirs, path, t.left, path, t;
      return;
    }
    assert t.right.Fork?;
    ConfigStep(m, path, t, true);
    ConfigRoot(m, Step(path, t, true), t.right);
    InKeys(m, t) by {
      ConfigParts(m, path, t);
    }
    var q := p.p1;
    if q.p0 == null {
      assert t.right.left == Leaf;
      hide *;
      gp, u := Step(path, t, true), t.right;
      nodes', dirs', m', path' := UnlinkNext(p, q, nodes, dirs, m, path, t);
      h := t.right.right;
    } else {
      assert t.right.left.Fork?;
      hide *;
      nodes', dirs', m', path', gp, u := UnlinkFar(p, nodes, dirs, m, path, t);
      h := u.right;
    }
  }

  lemma NothingRight(path: Path, t: Tree)
    ensures t.Fork? && t.right == Leaf ==> Unlinked(path, t, path, t, path, t.left)
  {
  }

  lemma ReadyToSettle(m: Memory, path: Path, p: Path, h: Tree)
    requires Config(m, p, h) && Fits(path, Count(h), Height(h) + 1) && Sized(h) && Balanced(h)
    requires SameButMins(path, p) && Faked(path) && Mins(Plug(p, h))
    ensures Faked(p) && Distinct(Plug(p, h))
    ensures Settling(p, h, Order(Whole(p, h)), Nodes(Whole(p, h)), true)
  {
    ConfigParts(m, p, h);
    PlugDistinct(p, h);
    SameButMinsShape(path, p);
    WholeOrder(p, h);
    SameButMinsKeeps(path[1..], p[1..], Count(h), Height(h) + 1);
    hide Mins, Balanced, Distinct, Order, Nodes, Config, Walk, Separate, Rep;
    PlugSized(p[1..], h);
  }

  /** `krmq_erase` once the node `p` is found, up to its return. */
  method EraseFound(p: Node, nodes: seq<Node>, dirs: seq<bool>, ghost m: Memory, ghost path: Path, ghost t: Tree)
    returns (ghost m': Memory, ghost top: Frame, ghost whole: Tree, ghost t': Tree)
    requires Synced(m) && Config(m, path, t) && Found(path, t) && t.Fork? && p == t.node
    requires Along(nodes, path) && Turns(dirs, path) && path != []
    modifies m.Keys
    ensures Synced(m') && m'.Keys == m.Keys && Rep(m', Fill(top, whole)) && !top.dir && top.node == path[0].node
    ensures Sized(whole) && Distinct(whole) && Mins(whole) && Balanced(whole)
    ensures Without(t, t') && Order(whole) == Order(Whole(path, t')) && Nodes(whole) == Nodes(Whole(path, t'))
  {
    hide *;
    FoundParts(path, t);
    ConfigWalk(m, path, t);
    ConfigPlug(m, path, t);
    ghost var m1, m2, m3, path1, path2, p3, h, gp, u;
    m1 := ShrinkSizes(nodes, 1, m, path, t.Root());
    path1 := Shrunk(path, 1, |path|);
    KeysKept(m, m1, Spine(path));
    ConfigShrunk(m, m1, path, 1, t);
    ShrunkFaked(path);
    SameAlong(nodes, dirs, path, path1);
    var nodes', dirs';
    nodes', dirs', m2, path2, h, gp, u := Unlink(p, nodes, dirs, m1, path1, t);
    UnlinkedFits(path, path1, t, gp, u, path2, h);
    UnlinkedFaked(path1, t, gp, u, path2, h);
    m3, p3 := WeighAll(nodes', m2, path2, h);
    ReadyToSettle(m3, path2, p3, h);
    SameButMinsShape(path2, p3);
    SameAlong(nodes', dirs', path2, p3);
    t' := ErasedOrder(path, path1, t, gp, u, path2, h, p3);
    FakedNonEmpty(p3);
    m', whole := BalanceUp(nodes', dirs', m3, p3, h, Order(Whole(p3, h)), Nodes(Whole(p3, h)));
    top := p3[0];
  }

  lemma ConfigPlug(m: Memory, path: Path, t: Tree)
    requires Config(m, path, t)
    ensures Distinct(Plug(path, t))
  {
    PlugDistinct(path, t);
  }

  lemma FakedNonEmpty(path: Path)
    requires Faked(path)
    ensures path != [] && !path[0].dir
  {
  }

  // ---- the search ------------------------------------------------------------------------------------------

  /** `fake`, with the tree on its left. */
  function FakeFrame(fake: Node): Frame {
    Frame(false, fake, 0, 0, fake, Leaf)
  }

  lemma FakeStep(fake: Node, path: Path, t: Tree, dir: bool)
    requires t.Fork?
    ensures [FakeFrame(fake)] + Step(path, t, dir) == Step([FakeFrame(fake)] + path, t, dir)
  {
  }

  /** The whole tree under `fake`, cut at `t`. */
  lemma FakeConfig(m: Memory, m': Memory, fake: Node, tree: Tree, path: Path, t: Tree)
    requires Rep(m, tree) && Distinct(tree) && Plug(path, t) == tree && fake !in m && fake !in Nodes(tree)
    requires m' == m[fake := Cell(tree.Root(), null, fake, 0, 0)]
    ensures Config(m', [FakeFrame(fake)] + path, t)
  {
    RepMore(m, m', tree);
    var all := [FakeFrame(fake)] + path;
    assert all[1..] == path;
    PlugWhole(all, t);
    RepPlug(m', all, t);
    PlugDistinct(all, t);
  }

  lemma FakeFound(fake: Node, tree: Tree, path: Path, t: Tree)
    requires Plug(path, t) == tree && t.Fork? && Sized(tree) && Balanced(tree) && Mins(tree) && Height(tree) < MAX_DEPTH
    ensures Found([FakeFrame(fake)] + path, t)
  {
    hide *;
    var all := [FakeFrame(fake)] + path;
    assert all[1..] == path;
    FitsPlug(all, t);
    PlugMins(path, t);
    PathMinsOthers(path, Nodes(t));
    FakeOthers(fake, path);
    PlugHeight(path, t);
    MakeFound(fake, path, t);
  }

  lemma MakeFound(fake: Node, path: Path, t: Tree)
    requires var all := [FakeFrame(fake)] + path;
      Fits(all, Count(t), Height(t)) && OthersMins(all) && |path| + 1 + Height(t) <= MAX_DEPTH
    requires t.Fork? && Sized(t) && Balanced(t) && Mins(t)
    ensures Found([FakeFrame(fake)] + path, t)
  {
    hide Fits, OthersMins, Sized, Balanced, Mins, Height, Count;
  }

  lemma FakeOthers(fake: Node, path: Path)
    requires OthersMins(path)
    ensures OthersMins([FakeFrame(fake)] + path)
  {
    var all := [FakeFrame(fake)] + path;
    hide Mins;
    forall i | 0 <= i < |all|
      ensures Mins(all[i].other)
    {
      if i > 0 {
        assert all[i] == path[i - 1];
      } else {
        LeafMins();
      }
    }
  }

  lemma LeafMins()
    ensures Mins(Leaf)
  {
  }

  /** The memory of the tree alone, and the pointer `fake` has to it. */
  lemma FakeDone(m: Memory, top: Frame, whole: Tree) returns (m': Memory)
    requires Rep(m, Fill(top, whole)) && !top.dir
    ensures top.node in m && m[top.node].p0 == whole.Root()
    ensures m'.Keys == Nodes(whole) && Rep(m', whole) && forall n :: n in m' ==> n in m && m'[n] == m[n]
  {
    InKeys(m, whole);
    m' := map n | n in Nodes(whole) :: m[n];
    RepFrame(m, m', whole);
  }

  lemma ErasedOrderIs(path: Path, t: Tree, t': Tree)
    requires path != [] && Without(t, t')
    ensures Order(Whole(path, t')) == Before(path[1..]) + (Order(t.left) + Order(t.right)) + After(path[1..])
  {
    PlugOrder(path[1..], t');
  }
}
