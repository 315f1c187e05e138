/** The passes over the path of an insertion (krmq.h lines 218-240), in memory and on trees. */
module KrmqInsert {
  import opened AvlShape
  import opened AvlMoves
  import opened KrmqRotate

  /** `nodes` are the nodes of the path, from the root down. */
  ghost predicate Along(nodes: seq<Node>, path: Path) {
    |nodes| == |path| && forall i :: 0 <= i < |path| ==> nodes[i] == path[i].node
  }

  ghost function Spine(path: Path): set<Node> {
    set i | 0 <= i < |path| :: path[i].node
  }

  /** The tree below frame `i`, when `t` fills the path. */
  function Below(path: Path, i: nat, t: Tree): Tree
    requires i <= |path|
  {
    Plug(path[i..], t)
  }

  lemma BelowStep(path: Path, i: nat, t: Tree)
    requires i < |path|
    ensures Below(path, i, t) == Fill(path[i], Below(path, i + 1, t))
  {
    assert path[i..] == [path[i]] + path[i + 1..];
    PlugSplit([path[i]], path[i + 1..], t);
    assert [path[i]][..0] == [];
  }

  lemma BelowWhole(path: Path, i: nat, t: Tree)
    requires i <= |path|
    ensures Plug(path, t) == Plug(path[..i], Below(path, i, t))
  {
    assert path == path[..i] + path[i..];
    PlugSplit(path[..i], path[i..], t);
  }

  lemma {:induction false} BelowRep(m: Memory, path: Path, i: nat, t: Tree)
    requires i <= |path| && PathRep(m, path, t.Root()) && Rep(m, t)
    ensures Rep(m, Below(path, i, t)) && Below(path, i, t).Root() == (if i < |path| then path[i].node else t.Root())
    decreases |path| - i
  {
    if i < |path| {
      BelowRep(m, path, i + 1, t);
      BelowStep(path, i, t);
      assert FrameRep(m, path, i, t.Root());
    } else {
      assert path[i..] == [];
    }
  }

  /** Memory `m` holds the path down to `hole`, all of whose nodes are different. */
  ghost predicate Walk(m: Memory, path: Path, hole: Node?) {
    PathRep(m, path, hole) && Separate(path)
  }

  ghost predicate SameBut(m: Memory, m': Memory, changed: set<Node>) {
    m'.Keys == m.Keys && forall n :: n in m && n !in changed ==> m'[n] == m[n]
  }

  lemma SameButMore(m: Memory, m1: Memory, m2: Memory, changed: set<Node>, n: Node)
    requires SameBut(m, m1, changed) && SameBut(m1, m2, {n}) && n in changed
    ensures SameBut(m, m2, changed)
  {
  }

  lemma InSpine(path: Path, i: nat)
    requires i < |path|
    ensures path[i].node in Spine(path)
  {
  }

  /** New numbers in frame `i`, written to its node. */
  lemma WalkWrite(m: Memory, path: Path, hole: Node?, i: nat, f: Frame, m': Memory)
    requires Walk(m, path, hole) && i < |path|
    requires f.node == path[i].node && f.other == path[i].other && f.dir == path[i].dir
    requires f.node in m && m' == m[f.node := m[f.node].(s := f.s, balance := f.balance, size := f.size)]
    ensures Walk(m', path[i := f], hole) && SameBut(m, m', {f.node})
  {
    assert SameShape(path, path[i := f]);
    SameShapeKeeps(path, path[i := f]);
    SeparateAlone(path, i);
    assert FrameRep(m, path, i, hole);
    SetFrame(m, path, hole, i, f);
  }

  lemma WalkCell(m: Memory, path: Path, hole: Node?, i: nat)
    requires Walk(m, path, hole) && i < |path|
    ensures path[i].node in m && m[path[i].node] == FrameCell(path[i], HoleAt(path, i, hole))
    ensures Rep(m, path[i].other)
  {
    assert FrameRep(m, path, i, hole);
  }

  // ---- sizes ----------------------------------------------------------------------------

  /** The first `i` frames count one node more. */
  function Grown(path: Path, i: nat): (p: Path)
    ensures |p| == |path|
  {
    seq(|path|, k requires 0 <= k < |path| => if k < i then path[k].(size := path[k].size + 1) else path[k])
  }

  lemma GrownNext(path: Path, i: nat)
    requires i < |path|
    ensures Grown(path, i + 1) == Grown(path, i)[i := path[i].(size := path[i].size + 1)]
    ensures Grown(path, i)[i] == path[i]
  {
  }

  /** One more node in every subtree on the path. */
  method GrowSizes(nodes: seq<Node>, ghost m: Memory, ghost path: Path, ghost hole: Node?) returns (ghost m': Memory)
    requires Synced(m) && Along(nodes, path) && Walk(m, path, hole)
    modifies m.Keys
    ensures Synced(m') && Walk(m', Grown(path, |path|), hole) && SameBut(m, m', Spine(path))
  {
    hide Walk, Grown, Spine, FrameCell;
    m' := m;
    assert Grown(path, 0) == path by {
      GrownNone(path);
    }
    var i := 0;
    while i < |nodes|
      invariant 0 <= i <= |nodes|
      invariant Synced(m') && Walk(m', Grown(path, i), hole) && SameBut(m, m', Spine(path))
    {
      GrownNext(path, i);
      InSpine(path, i);
      WalkCell(m', Grown(path, i), hole, i);
      var n := nodes[i];
      m' := AddSize(n, m', Grown(path, i), i, hole);
      i := i + 1;
    }
  }

  lemma GrownNone(path: Path)
    ensures Grown(path, 0) == path
  {
  }

  method AddSize(n: Node, ghost m: Memory, ghost path: Path, ghost i: nat, ghost hole: Node?) returns (ghost m': Memory)
    requires Synced(m) && Walk(m, path, hole) && i < |path| && n == path[i].node && n in m
    modifies n`size
    ensures Synced(m') && Walk(m', path[i := path[i].(size := path[i].size + 1)], hole) && SameBut(m, m', {n})
  {
    WalkCell(m, path, hole, i);
    hide Walk;
    n.size := n.size + 1;
    m' := m[n := n.Fields()];
    WalkWrite(m, path, hole, i, path[i].(size := path[i].size + 1), m');
  }

  // ---- lightest nodes ---------------------------------------------------------------------

  /** Frame `f` with the lightest node that `krmq_update_min` finds when `t` hangs in it. */
  function Weighed(f: Frame, t: Tree): Frame {
    f.(s := MinOf(f.node, Fill(f, t).left, Fill(f, t).right))
  }

  lemma FillSides(f: Frame, t: Tree)
    ensures Fill(f, t).left == (if f.dir then f.other else t) && Fill(f, t).right == (if f.dir then t else f.other)
  {
  }

  /** `krmq_update_min` at frame `i`, whose subtree on the path is `t`. */
  method WeighFrame(n: Node, ghost m: Memory, ghost path: Path, ghost i: nat, ghost hole: Node?, ghost t: Tree)
    returns (ghost m': Memory)
    requires Synced(m) && Walk(m, path, hole) && i < |path| && n == path[i].node && n in m
    requires Rep(m, t) && t.Root() == HoleAt(path, i, hole) && n !in Nodes(t) && n !in Nodes(path[i].other)
    modifies n`s
    ensures Synced(m') && Walk(m', path[i := Weighed(path[i], t)], hole) && SameBut(m, m', {n})
    ensures n.s == Weighed(path[i], t).s
  {
    WalkCell(m, path, hole, i);
    RootShows(m, t);
    RootShows(m, path[i].other);
    RootIn(t);
    RootIn(path[i].other);
    FillSides(path[i], t);
    hide Walk, MinOf, Rep, Nodes;
    UpdateMin(n, n.p0, n.p1, Fill(path[i], t).left, Fill(path[i], t).right);
    m' := m[n := n.Fields()];
    WalkWrite(m, path, hole, i, Weighed(path[i], t), m');
  }

  /** The same path but for the lightest nodes. */
  ghost predicate SameButMins(path: Path, p: Path) {
    |p| == |path| && forall i :: 0 <= i < |path| ==> p[i] == path[i].(s := p[i].s)
  }

  lemma WeighedSame(path: Path, p: Path, i: nat, t: Tree)
    requires SameButMins(path, p) && i < |p|
    ensures SameButMins(path, p[i := Weighed(p[i], t)])
  {
  }

  lemma {:induction false} SameButMinsKeeps(path: Path, p: Path, n: nat, h: nat)
    requires SameButMins(path, p)
    ensures PathSized(p, n) <==> PathSized(path, n)
    ensures PathBalanced(p, h) <==> PathBalanced(path, h)
    decreases |path|
  {
    if path != [] {
      var k := |path| - 1;
      SameButMinsKeeps(path[..k], p[..k], path[k].size, 1 + Max(h, Height(path[k].other)));
    }
  }

  /** Minima on a path stay right when a node no lighter than one below joins. */
  lemma {:induction false} WiderMins(path: Path, nodes: set<Node>, y: Node, x: Node)
    requires PathMins(path, nodes) && y in nodes && y.weight <= x.weight
    ensures PathMins(path, nodes + {x})
    decreases |path|
  {
    if path != [] {
      var f := path[|path| - 1];
      var all := nodes + {f.node} + Nodes(f.other);
      WiderMins(path[..|path| - 1], all, y, x);
      assert nodes + {x} + {f.node} + Nodes(f.other) == all + {x};
    }
  }

  lemma WeighedMins(f: Frame, t: Tree)
    requires Mins(t) && Mins(f.other)
    ensures Mins(Fill(Weighed(f, t), t))
  {
    var t' := Fill(Weighed(f, t), t);
    FillSides(f, t);
    MinOfIsMin(f.node, t'.left, t'.right);
    hide MinOf;
  }

  lemma FillNodes(f: Frame, t: Tree)
    ensures Nodes(Fill(f, t)) == Nodes(t) + {f.node} + Nodes(f.other)
  {
  }

  /**
   State of the upward pass that has reached `b`: there the lightest nodes are right and `x` is
   one; above, they are right for the nodes other than `x`.
   */
  ghost predicate Weighing(up: Path, b: Tree, x: Node) {
    && b.Fork? && b.s == x && x in Nodes(b) && Mins(b)
    && PathMins(up, Nodes(b) - {x}) && PathNodes(up) !! Nodes(b)
  }

  lemma WeighingStep(up: Path, b: Tree, x: Node)
    requires up != [] && Separate(up) && Weighing(up, b, x)
    ensures var f := Weighed(up[|up| - 1], b);
      var b', up' := Fill(f, b), up[..|up| - 1];
      if f.s == x then Weighing(up', b', x) else Mins(Plug(up', b'))
  {
    var f0, up' := up[|up| - 1], up[..|up| - 1];
    var f := Weighed(f0, b);
    var b' := Fill(f, b);
    FillNodes(f, b);
    WeighedMins(f0, b);
    var above := Nodes(b) - {x} + {f.node} + Nodes(f.other);
    assert above == Nodes(b') - {x};
    assert IsMin(f.s, Nodes(b')) by {
      FillSides(f, b);
    }
    hide Mins, Weighed, Fill, Separate;
    if f.s != x {
      WiderMins(up', above, f.s, x);
      assert above + {x} == Nodes(b');
      PlugMins(up', b');
    }
  }

  /** What the pass needs to know at frame `i`, whose subtree on the path is `b`. */
  lemma WeighReady(m: Memory, path: Path, p: Path, i: nat, t: Tree, x: Node)
    requires Walk(m, p, t.Root()) && Rep(m, t) && i < |p| && |p| == |path| && path[i].node == p[i].node
    requires PathNodes(path) !! Nodes(t) && Weighing(p[..i + 1], Below(p, i + 1, t), x)
    ensures var b, n := Below(p, i + 1, t), p[i].node;
      && n in m && Rep(m, b) && b.Root() == HoleAt(p, i, t.Root())
      && n !in Nodes(b) && n !in Nodes(p[i].other) && n !in Nodes(t)
      && Separate(p[..i + 1])
  {
    WalkCell(m, p, t.Root(), i);
    BelowRep(m, p, i + 1, t);
    assert p[..i + 1][i] == p[i];
    PathNode(p[..i + 1], i);
    PathNode(path, i);
    SeparateAlone(p, i);
    SeparateUp(p, i + 1);
  }

  lemma {:induction false} SeparateUp(path: Path, i: nat)
    requires Separate(path) && i <= |path|
    ensures Separate(path[..i])
    decreases |path|
  {
    if i < |path| {
      SeparateUp(path[..|path| - 1], i);
      assert path[..|path| - 1][..i] == path[..i];
    } else {
      assert path[..i] == path;
    }
  }

  /** One step of the pass, as it shows on the path. */
  lemma WeighStepOnPath(p: Path, i: nat, t: Tree, x: Node)
    requires i < |p| && Separate(p[..i + 1]) && Weighing(p[..i + 1], Below(p, i + 1, t), x)
    ensures var f := Weighed(p[i], Below(p, i + 1, t));
      var p' := p[i := f];
      if f.s == x then Weighing(p'[..i], Below(p', i, t), x) else Mins(Plug(p', t))
  {
    var b := Below(p, i + 1, t);
    var f := Weighed(p[i], b);
    var p', up := p[i := f], p[..i + 1];
    hide Weighing, Weighed, Mins, Separate;
    WeighingStep(up, b, x);
    assert up[|up| - 1] == p[i] && up[..|up| - 1] == p[..i] == p'[..i];
    assert p'[i + 1..] == p[i + 1..];
    BelowStep(p', i, t);
    BelowWhole(p', i, t);
  }

  /** The upward pass of insertion: stops where `x` is not the lightest node. */
  method WeighUp(nodes: seq<Node>, x: Node, ghost m: Memory, ghost path: Path, ghost t: Tree)
    returns (ghost m': Memory, ghost p: Path)
    requires Synced(m) && Along(nodes, path) && Walk(m, path, t.Root()) && Rep(m, t)
    requires Weighing(path, t, x) && PathNodes(path) !! Nodes(t)
    modifies m.Keys
    ensures Synced(m') && Walk(m', p, t.Root()) && SameBut(m, m', Spine(path))
    ensures SameButMins(path, p) && Mins(Plug(p, t))
  {
    hide Walk, Spine, Weighing, Weighed, Below, Rep, Separate, Mins, Nodes, Plug, PathNodes, HoleAt;
    m', p := m, path;
    ghost var done := false;
    BelowEnds(path, t);
    var i := |nodes|;
    while i > 0
      invariant 0 <= i <= |nodes| && !done
      invariant Synced(m') && Walk(m', p, t.Root()) && SameBut(m, m', Spine(path)) && Rep(m', t)
      invariant SameButMins(path, p) && p[..i] == path[..i]
      invariant Weighing(p[..i], Below(p, i, t), x)
    {
      i := i - 1;
      var n := nodes[i];
      WeighReady(m', path, p, i, t, x);
      ghost var b, was := Below(p, i + 1, t), m';
      m' := WeighFrame(n, m', p, i, t.Root(), b);
      WeighStepOnPath(p, i, t, x);
      InSpine(path, i);
      SameButMore(m, was, m', Spine(path), n);
      Untouched(was, m', {n}, t);
      WeighedSame(path, p, i, b);
      p := p[i := Weighed(p[i], b)];
      if n.s != x {
        done := true;
        break;
      }
    }
    if !done {
      BelowEnds(p, t);
      WeighingMins(p[..0], Below(p, 0, t), x);
    }
  }

  lemma WeighingMins(up: Path, b: Tree, x: Node)
    requires Weighing(up, b, x)
    ensures Mins(b)
  {
  }

  lemma BelowEnds(path: Path, t: Tree)
    ensures Below(path, |path|, t) == t && path[..|path|] == path
    ensures Below(path, 0, t) == Plug(path, t)
  {
    assert path[|path|..] == [];
    assert path[0..] == path;
  }

  // ---- balances -----------------------------------------------------------------------------

  /** Frames `j` up to `i` lean one more to the side of the hole. */
  function Leaned(path: Path, j: nat, i: nat): (p: Path)
    ensures |p| == |path|
  {
    seq(|path|, k requires 0 <= k < |path| =>
      if j <= k < i then path[k].(balance := path[k].balance + Lean(path[k].dir)) else path[k])
  }

  lemma LeanedNext(path: Path, j: nat, i: nat)
    requires j <= i < |path|
    ensures Leaned(path, j, i + 1) == Leaned(path, j, i)[i := path[i].(balance := path[i].balance + Lean(path[i].dir))]
    ensures Leaned(path, j, i)[i] == path[i]
    ensures HoleAt(Leaned(path, j, i), i, null) == HoleAt(path, i, null)
  {
  }

  lemma LeanedNone(path: Path, j: nat)
    ensures Leaned(path, j, j) == path
  {
  }

  /** From node `bp` of frame `j` down to the new node `x`. */
  method LeanDown(bp: Node, stack: seq<bool>, x: Node, ghost m: Memory, ghost path: Path, ghost j: nat)
    returns (ghost m': Memory)
    requires Synced(m) && Walk(m, path, x) && x !in PathNodes(path)
    requires j < |path| && bp == path[j].node
    requires |stack| == |path| - j && forall k :: 0 <= k < |stack| ==> stack[k] == path[j + k].dir
    modifies m.Keys
    ensures Synced(m') && Walk(m', Leaned(path, j, |path|), x) && SameBut(m, m', Spine(path))
  {
    hide Walk, Spine, Leaned, PathNodes, FrameCell;
    m' := m;
    LeanedNone(path, j);
    var p, top := bp, 0;
    PathNode(path, j);
    while p != x
      invariant 0 <= top <= |stack|
      invariant p == if top < |stack| then path[j + top].node else x
      invariant Synced(m') && Walk(m', Leaned(path, j, j + top), x) && SameBut(m, m', Spine(path))
      decreases |stack| - top
    {
      ghost var i := j + top;
      LeanedNext(path, j, i);
      InSpine(path, i);
      WalkCell(m', Leaned(path, j, i), x, i);
      LeanedShape(path, j, i);
      ghost var was := m';
      m' := AddBalance(p, stack[top], m', Leaned(path, j, i), i, x);
      SameButMore(m, was, m', Spine(path), p);
      WalkCell(m', Leaned(path, j, i + 1), x, i);
      LeanedShape(path, j, i + 1);
      ChildOnWalk(m', Leaned(path, j, i + 1), x, i);
      if i + 1 < |path| {
        PathNode(path, i + 1);
      }
      p := p.Child(stack[top]);
      top := top + 1;
    }
    if top < |stack| {
      PathNode(path, j + top);
    }
  }

  lemma LeanedShape(path: Path, j: nat, i: nat)
    ensures forall k :: 0 <= k < |path| ==>
      Leaned(path, j, i)[k].node == path[k].node && Leaned(path, j, i)[k].dir == path[k].dir
  {
  }

  lemma ChildOnWalk(m: Memory, path: Path, hole: Node?, i: nat)
    requires Walk(m, path, hole) && i < |path|
    ensures path[i].node in m && HoleAt(path, i, hole) == if path[i].dir then m[path[i].node].p1 else m[path[i].node].p0
  {
    WalkCell(m, path, hole, i);
  }

  method AddBalance(n: Node, dir: bool, ghost m: Memory, ghost path: Path, ghost i: nat, ghost hole: Node?)
    returns (ghost m': Memory)
    requires Synced(m) && Walk(m, path, hole) && i < |path| && n == path[i].node && n in m && dir == path[i].dir
    modifies n`balance
    ensures Synced(m') && SameBut(m, m', {n})
    ensures Walk(m', path[i := path[i].(balance := path[i].balance + Lean(path[i].dir))], hole)
  {
    WalkCell(m, path, hole, i);
    hide Walk;
    if dir {
      n.balance := n.balance + 1;
    } else {
      n.balance := n.balance - 1;
    }
    m' := m[n := n.Fields()];
    WalkWrite(m, path, hole, i, path[i].(balance := path[i].balance + Lean(path[i].dir)), m');
  }

  /** What a balanced tree says of frame `k` of a path into it. */
  lemma FrameBalanced(path: Path, k: nat, t: Tree)
    requires Balanced(Plug(path, t)) && k < |path|
    ensures Balanced(Below(path, k + 1, t)) && Balanced(path[k].other)
    ensures Height(Below(path, k, t)) == 1 + Max(Height(Below(path, k + 1, t)), Height(path[k].other))
    ensures path[k].balance == Tilt(path[k].dir, Height(Below(path, k + 1, t)), Height(path[k].other))
    ensures -1 <= path[k].balance <= 1
    ensures PathBalanced(path[..k], Height(Below(path, k, t)))
  {
    BelowWhole(path, k, t);
    PlugBalanced(path[..k], Below(path, k, t));
    BelowStep(path, k, t);
  }

  /** Below a node with nothing but even nodes under it, a longer branch makes the tree one higher. */
  lemma {:induction false} TallerBelow(path: Path, p: Path, k: nat, x: Tree)
    requires Balanced(Plug(path, Leaf)) && k <= |path| == |p|
    requires forall i :: k <= i < |path| ==>
      path[i].balance == 0 && p[i].balance == Lean(path[i].dir)
      && p[i].dir == path[i].dir && p[i].other == path[i].other
    requires Balanced(x) && Height(x) == 1
    ensures Balanced(Below(p, k, x)) && Height(Below(p, k, x)) == Height(Below(path, k, Leaf)) + 1
    decreases |path| - k
  {
    if k < |path| {
      TallerBelow(path, p, k + 1, x);
      FrameBalanced(path, k, Leaf);
      BelowStep(p, k, x);
    } else {
      BelowEnds(path, Leaf);
      BelowEnds(p, x);
    }
  }

  // ---- the whole insertion on trees ------------------------------------------------------------

  /** Frame `j` is the lowest that leaned before the insertion, or the root's. */
  ghost predicate Critical(path: Path, j: nat) {
    && j < |path| && (j == 0 || path[j].balance != 0)
    && forall i :: j < i < |path| ==> path[i].balance == 0
  }

  /** The path after all the passes and before any rotation. */
  ghost predicate Passed(path: Path, j: nat, p: Path) {
    && |p| == |path|
    && forall i :: 0 <= i < |path| ==> p[i] == path[i].(
      size := path[i].size + 1, s := p[i].s,
      balance := if j <= i then path[i].balance + Lean(path[i].dir) else path[i].balance)
  }

  lemma PassedBelow(path: Path, j: nat, p: Path, x: Tree)
    requires Balanced(Plug(path, Leaf)) && Critical(path, j) && Passed(path, j, p)
    requires Balanced(x) && Height(x) == 1
    ensures var b := Below(p, j + 1, x);
      && Balanced(b) && Balanced(p[j].other)
      && p[j].balance == Tilt(p[j].dir, Height(b), Height(p[j].other)) && -2 <= p[j].balance <= 2
      && path[j].balance + Lean(path[j].dir) == p[j].balance
      && Height(Below(path, j, Leaf)) == 1 + Max(Height(b) - 1, Height(p[j].other))
      && (p[j].balance == 2 || p[j].balance == -2 ==> b.Fork? && b.balance != 0 && p[j].balance == 2 * Lean(p[j].dir))
  {
    hide Balanced, Height, Below, Plug;
    TallerBelow(path, p, j + 1, x);
    FrameBalanced(path, j, Leaf);
    DeepRoot(path, j, p, x);
  }

  lemma DeepRoot(path: Path, j: nat, p: Path, x: Tree)
    requires j < |path| && Passed(path, j, p) && Critical(path, j)
    ensures j + 1 < |path| ==>
      Below(p, j + 1, x).Fork? && Below(p, j + 1, x).balance == p[j + 1].balance == Lean(path[j + 1].dir)
    ensures j + 1 == |path| ==> Below(p, j + 1, x) == x && Below(path, j + 1, Leaf) == Leaf
  {
    if j + 1 < |path| {
      BelowStep(p, j + 1, x);
    } else {
      BelowEnds(p, x);
      BelowEnds(path, Leaf);
    }
  }

  /** The frames above `j` still fit when the tree at `j` has its old height. */
  lemma AboveCritical(path: Path, j: nat, p: Path, t: Tree)
    requires Balanced(Plug(path, Leaf)) && Critical(path, j) && Passed(path, j, p) && Balanced(t)
    requires j == 0 || Height(t) == Height(Below(path, j, Leaf))
    ensures Balanced(Plug(p[..j], t))
  {
    FrameBalanced(path, j, Leaf);
    if j == 0 {
      assert p[..j] == [];
    } else {
      AboveSame(path[..j], p[..j], Height(t));
      PlugBalanced(p[..j], t);
    }
  }

  lemma {:induction false} AboveSame(path: Path, p: Path, h: nat)
    requires PathBalanced(path, h) && |p| == |path|
    requires forall i :: 0 <= i < |path| ==>
      p[i].balance == path[i].balance && p[i].dir == path[i].dir && p[i].other == path[i].other
    ensures PathBalanced(p, h)
    decreases |path|
  {
    if path != [] {
      var k := |path| - 1;
      AboveSame(path[..k], p[..k], 1 + Max(h, Height(path[k].other)));
    }
  }

  /** No rotation is needed when the critical frame leans by at most one. */
  lemma SettledAlready(path: Path, j: nat, p: Path, x: Tree)
    requires Balanced(Plug(path, Leaf)) && Critical(path, j) && Passed(path, j, p)
    requires Balanced(x) && Height(x) == 1 && -2 < p[j].balance < 2
    ensures Balanced(Plug(p, x))
  {
    PassedBelow(path, j, p, x);
    BelowStep(p, j, x);
    AboveCritical(path, j, p, Below(p, j, x));
    BelowWhole(p, j, x);
  }

  // ---- rotation and links ------------------------------------------------------------------------

  /** `t'` holds what `t` holds, and is in order. */
  ghost predicate Settles(t: Tree, t': Tree) {
    && Order(t') == Order(t) && Nodes(t') == Nodes(t) && t'.Fork?
    && Sized(t') && Distinct(t') && Mins(t') && Balanced(t')
  }

  /** Balances written to the root and to its child on side `dir`. */
  lemma RebalancedRep(m: Memory, t: Tree, dir: bool, rb: int, cb: int, m': Memory)
    requires Rep(m, t) && Distinct(t) && t.Fork? && t.Sub(dir).Fork? && t.node in m && t.Sub(dir).node in m
    requires m' == m[t.node := m[t.node].(balance := rb)][t.Sub(dir).node := m[t.Sub(dir).node].(balance := cb)]
    ensures Rep(m', Rebalanced(t, dir, rb, cb))
  {
    var c, t' := t.Sub(dir), Rebalanced(t, dir, rb, cb);
    ForkRep(m, t, dir);
    ForkRep(m, c, dir);
    Sides(t, dir);
    Sides(c, dir);
    RepFrame(m, m', t.Sub(!dir));
    RepFrame(m, m', c.left);
    RepFrame(m, m', c.right);
    MakeRep(m', t'.Sub(dir), true);
    MakeRep(m', t', dir);
  }

  method SetBalances(root: Node, child: Node, dir: bool, rb: int, cb: int, ghost m: Memory, ghost t: Tree)
    returns (ghost m': Memory)
    requires Synced(m) && Rep(m, t) && Distinct(t) && t.Fork? && t.Sub(dir).Fork?
    requires root == t.node && child == t.Sub(dir).node
    modifies root`balance, child`balance
    ensures Synced(m') && Rep(m', Rebalanced(t, dir, rb, cb)) && SameBut(m, m', {root, child})
  {
    ForkRep(m, t, dir);
    ForkRep(m, t.Sub(dir), dir);
    Sides(t, dir);
    assert root != child;
    hide Rep, Distinct, Nodes;
    root.balance := rb;
    child.balance := cb;
    m' := m[root := root.Fields()][child := child.Fields()];
    RebalancedRep(m, t, dir, rb, cb, m');
  }

  /** The rotations of an insertion: the heavy child leans one way or the other. */
  method RotateInsert(bp: Node, which: bool, ghost m: Memory, ghost t: Tree)
    returns (r: Node, ghost m': Memory, ghost t': Tree)
    requires Synced(m) && Rep(m, t) && Distinct(t) && Sized(t) && Mins(t)
    requires Leaning(t, which) && bp == t.node && t.Sub(!which).Fork? && t.Sub(!which).balance != 0
    modifies Nodes(t)
    ensures Synced(m') && Rep(m', t') && r == t'.Root() && SameBut(m, m', Nodes(t))
    ensures Settles(t, t') && Height(t') == Height(t) - 1
  {
    LeaningForks(t, which);
    ForkRep(m, t, which);
    ForkRep(m, t.Sub(!which), which);
    SubBalance(t, which);
    var b1 := if which then -1 else 1;
    var q: Node := bp.Child(!which);
    assert q.balance == t.Sub(!which).balance && b1 == Lean(!which);
    hide *;
    if q.balance == b1 {
      r, m', t' := RotateOut(bp, q, which, m, t);
    } else {
      r, m', t' := RotateIn(bp, which, m, t);
    }
  }

  method RotateOut(bp: Node, q: Node, which: bool, ghost m: Memory, ghost t: Tree)
    returns (r: Node, ghost m': Memory, ghost t': Tree)
    requires Synced(m) && Rep(m, t) && Distinct(t) && Sized(t) && Mins(t)
    requires Leaning(t, which) && bp == t.node && t.Sub(!which).Fork? && t.Sub(!which).balance == Lean(!which)
    requires q == t.Sub(!which).node
    modifies Nodes(t)
    ensures Synced(m') && Rep(m', t') && r == t'.Root() && SameBut(m, m', Nodes(t))
    ensures Settles(t, t') && Height(t') == Height(t) - 1
  {
    NodesOf(t, !which);
    hide *;
    Outwards(t, which);
    ghost var m1;
    r, m1 := Rotate1(bp, which, m, t);
    m' := SetBalances(q, bp, which, 0, 0, m1, Rotated1(t, which));
    t' := Rebalanced(Rotated1(t, which), which, 0, 0);
    RootOf(t');
    TwoChanges(m, m1, m', {bp, q}, Nodes(t));
  }

  method RotateIn(bp: Node, which: bool, ghost m: Memory, ghost t: Tree)
    returns (r: Node, ghost m': Memory, ghost t': Tree)
    requires Synced(m) && Rep(m, t) && Distinct(t) && Sized(t) && Mins(t)
    requires Leaning(t, which) && bp == t.node && t.Sub(!which).Fork? && t.Sub(!which).balance == -Lean(!which)
    modifies Nodes(t)
    ensures Synced(m') && Rep(m', t') && r == t'.Root() && SameBut(m, m', Nodes(t))
    ensures Settles(t, t') && Height(t') == Height(t) - 1
  {
    LeaningForks(t, which);
    NodesOf(t, !which);
    NodesOf(t.Sub(!which), which);
    hide *;
    Inwards(t, which);
    r, m' := Rotate2(bp, which, m, t);
    t' := Rotated2(t, which);
    RootOf(t');
    OneChange(m, m', {bp, t.Sub(!which).node, r}, Nodes(t));
  }

  lemma RootOf(t: Tree)
    requires t.Fork?
    ensures t.Root() == t.node
  {
  }

  lemma TwoChanges(m: Memory, m1: Memory, m2: Memory, some: set<Node>, all: set<Node>)
    requires m1.Keys == m.Keys && forall n :: n in m && n !in some ==> m1[n] == m[n]
    requires SameBut(m1, m2, some) && some <= all
    ensures SameBut(m, m2, all)
  {
  }

  lemma OneChange(m: Memory, m': Memory, some: set<Node>, all: set<Node>)
    requires m'.Keys == m.Keys && (forall n :: n in m && n !in some ==> m'[n] == m[n]) && some <= all
    ensures SameBut(m, m', all)
  {
  }

  /** All that a single rotation and two even balances leave true. */
  lemma Outwards(t: Tree, dir: bool)
    requires Distinct(t) && Sized(t) && Mins(t) && Leaning(t, dir)
    requires t.Sub(!dir).Fork? && t.Sub(!dir).balance == Lean(!dir)
    ensures CanRotate1(t, dir)
    ensures var t1 := Rotated1(t, dir);
      && t1.Fork? && t1.node == t.Sub(!dir).node && t1.Sub(dir).Fork? && t1.Sub(dir).node == t.node && Distinct(t1)
      && var t' := Rebalanced(t1, dir, 0, 0);
        Settles(t, t') && Height(t') == Height(t) - 1 && t'.node == t1.node
  {
    assert t.Fork?;
    hide Distinct, Nodes, Sized, Mins, Leaning, Balanced, Height, Order, Count;
    Rotate1Keeps(t, dir);
    Rotate1Order(t, dir);
    Rotate1Mins(t, dir);
    Rotate1Balances(t, dir);
    Rotated1Roots(t, dir);
    RebalancedKeeps(Rotated1(t, dir), dir, 0, 0);
  }

  lemma Inwards(t: Tree, dir: bool)
    requires Distinct(t) && Sized(t) && Mins(t) && Leaning(t, dir)
    requires t.Sub(!dir).Fork? && t.Sub(!dir).balance == -Lean(!dir)
    ensures CanRotate2(t, dir) && Rotated2(t, dir).Fork? && Settles(t, Rotated2(t, dir)) && Height(Rotated2(t, dir)) == Height(t) - 1
    ensures Rotated2(t, dir).node == t.Sub(!dir).Sub(dir).node && Rotated2(t, dir).node in Nodes(t)
  {
    LeaningForks(t, dir);
    NodesOf(t, !dir);
    NodesOf(t.Sub(!dir), dir);
    hide Distinct, Nodes, Sized, Mins, Leaning, Balanced, Height, Order, Count;
    Rotate2Keeps(t, dir);
    Rotate2Order(t, dir);
    Rotate2Mins(t, dir);
    Rotate2Balances(t, dir);
    Rotated2Roots(t, dir);
  }

  lemma SubBalance(t: Tree, dir: bool)
    requires Leaning(t, dir) && t.Sub(!dir).Fork?
    ensures -1 <= t.Sub(!dir).balance <= 1
  {
  }

  lemma NodesOf(t: Tree, dir: bool)
    requires t.Fork? && t.Sub(dir).Fork?
    ensures t.node in Nodes(t) && t.Sub(dir).node in Nodes(t) && Nodes(t.Sub(dir)) <= Nodes(t)
  {
  }

  lemma Rotated1Roots(t: Tree, dir: bool)
    requires CanRotate1(t, dir)
    ensures var t' := Rotated1(t, dir);
      t'.Fork? && t'.node == t.Sub(!dir).node && t'.Sub(dir).Fork? && t'.Sub(dir).node == t.node
  {
  }

  lemma Rotated2Roots(t: Tree, dir: bool)
    requires CanRotate2(t, dir)
    ensures Rotated2(t, dir).Fork? && Rotated2(t, dir).node == t.Sub(!dir).Sub(dir).node
  {
  }

  lemma WalkRelink(m: Memory, path: Path, hole: Node?, c: Node?, m': Memory)
    requires Walk(m, path, hole) && path != []
    requires var f := path[|path| - 1];
      f.node in m && m' == m[f.node := WithChild(m[f.node], f.dir, c)]
    ensures Walk(m', path, c)
  {
    var k := |path| - 1;
    SeparateAlone(path, k);
    forall i | 0 <= i < |path|
      ensures FrameRep(m', path, i, c)
    {
      assert FrameRep(m, path, i, hole);
      assert i < k ==> HoleAt(path, i, c) == HoleAt(path, i, hole);
      RepFrame(m, m', path[i].other);
    }
  }

  /** `n`, at the end of the path, points to `c`. */
  method Attach(n: Node, dir: bool, c: Node?, ghost m: Memory, ghost path: Path, ghost hole: Node?)
    returns (ghost m': Memory)
    requires Synced(m) && Walk(m, path, hole) && path != []
    requires n == path[|path| - 1].node && dir == path[|path| - 1].dir && n in m
    modifies n
    ensures Synced(m') && Walk(m', path, c) && SameBut(m, m', {n})
  {
    hide Walk;
    n.SetChild(dir, c);
    m' := m[n := n.Fields()];
    WalkRelink(m, path, hole, c, m');
  }

  lemma WalkFrame(m: Memory, m': Memory, path: Path, hole: Node?, changed: set<Node>)
    requires Walk(m, path, hole) && SameBut(m, m', changed) && changed !! PathNodes(path)
    ensures Walk(m', path, hole)
  {
    forall i | 0 <= i < |path|
      ensures FrameRep(m', path, i, hole)
    {
      assert FrameRep(m, path, i, hole);
      PathNode(path, i);
      RepFrame(m, m', path[i].other);
    }
  }

  // ---- the passes together ------------------------------------------------------------------------

  /** The new node alone. */
  function Single(x: Node): Tree {
    Fork(Leaf, x, 0, 1, x, Leaf)
  }

  lemma {:induction false} PassedSized(path: Path, j: nat, p: Path, n: nat)
    requires PathSized(path, n) && Passed(path, j, p)
    ensures PathSized(p, n + 1)
    decreases |path|
  {
    if path != [] {
      var k := |path| - 1;
      PassedSized(path[..k], j, p[..k], path[k].size);
    }
  }

  lemma {:induction false} AgreeMins(path: Path, p: Path, nodes: set<Node>)
    requires PathMins(path, nodes) && |p| == |path|
    requires forall i :: 0 <= i < |path| ==> p[i].s == path[i].s && p[i].node == path[i].node && p[i].other == path[i].other
    ensures PathMins(p, nodes)
    decreases |path|
  {
    if path != [] {
      var k := |path| - 1;
      AgreeMins(path[..k], p[..k], nodes + {path[k].node} + Nodes(path[k].other));
    }
  }

  lemma SingleFacts(x: Node)
    ensures Nodes(Single(x)) == {x} && Order(Single(x)) == [x] && Count(Single(x)) == 1 && Height(Single(x)) == 1
    ensures Sized(Single(x)) && Distinct(Single(x)) && Balanced(Single(x)) && Mins(Single(x))
  {
    assert Nodes(Single(x)) == {x};
  }

  /** The three passes of an insertion over the path, `x` being linked at its end. */
  method Passes(nodes: seq<Node>, stack: seq<bool>, x: Node, bp: Node, ghost m: Memory, ghost path: Path, ghost j: nat)
    returns (ghost m': Memory, ghost p: Path)
    requires Synced(m) && Along(nodes, path) && Walk(m, path, x) && Rep(m, Single(x)) && x !in PathNodes(path)
    requires PathMins(path, {}) && j < |path| && bp == path[j].node
    requires |stack| == |path| - j && forall k :: 0 <= k < |stack| ==> stack[k] == path[j + k].dir
    modifies m.Keys
    ensures Synced(m') && Walk(m', p, x) && Rep(m', Single(x)) && SameBut(m, m', Spine(path))
    ensures Passed(path, j, p) && Mins(Plug(p, Single(x)))
  {
    ghost var t := Single(x);
    SingleFacts(x);
    SpineOff(path, t);
    ghost var p1 := Grown(path, |path|);
    GrownFacts(path);
    assert Nodes(t) - {x} == {};
    assert Weighing(p1, t, x);
    hide Walk, Rep, PathMins, Mins, Plug, Weighing, Spine, Single, Nodes, PathNodes, Grown, Leaned;
    ghost var m1, m2, p2;
    m1 := GrowSizes(nodes, m, path, x);
    Untouched(m, m1, Spine(path), t);
    m2, p2 := WeighUp(nodes, x, m1, p1, t);
    Untouched(m1, m2, Spine(path), t);
    LeanedFacts(path, j, p1, p2, t);
    m' := LeanDown(bp, stack, x, m2, p2, j);
    Untouched(m2, m', Spine(path), t);
    p := Leaned(p2, j, |p2|);
    ThreeChanges(m, m1, m2, m', Spine(path));
  }

  lemma ThreeChanges(m: Memory, m1: Memory, m2: Memory, m3: Memory, changed: set<Node>)
    requires SameBut(m, m1, changed) && SameBut(m1, m2, changed) && SameBut(m2, m3, changed)
    ensures SameBut(m, m3, changed)
  {
  }

  lemma SpineOff(path: Path, t: Tree)
    requires PathNodes(path) !! Nodes(t)
    ensures Spine(path) !! Nodes(t)
  {
    forall i | 0 <= i < |path|
      ensures path[i].node !in Nodes(t)
    {
      PathNode(path, i);
    }
  }

  lemma GrownFacts(path: Path)
    ensures var p := Grown(path, |path|);
      && SameShape(path, p) && PathNodes(p) == PathNodes(path) && Spine(p) == Spine(path)
      && (forall i :: 0 <= i < |path| ==> p[i] == path[i].(size := path[i].size + 1))
      && (PathMins(path, {}) ==> PathMins(p, {}))
  {
    hide *;
    GrownFrames(path);
    SpineSame(path, Grown(path, |path|));
    SameShapeKeeps(path, Grown(path, |path|));
    GrownMins(path);
  }

  lemma GrownFrames(path: Path)
    ensures SameShape(path, Grown(path, |path|))
    ensures forall i :: 0 <= i < |path| ==> Grown(path, |path|)[i] == path[i].(size := path[i].size + 1)
  {
  }

  lemma GrownMins(path: Path)
    ensures PathMins(path, {}) ==> PathMins(Grown(path, |path|), {})
  {
    hide Grown, PathMins;
    GrownFrames(path);
    if PathMins(path, {}) {
      AgreeMins(path, Grown(path, |path|), {});
    }
  }

  lemma SpineSame(path: Path, p: Path)
    requires SameShape(path, p)
    ensures Spine(path) == Spine(p)
  {
    assert forall i :: 0 <= i < |path| ==> path[i].node == p[i].node;
  }

  lemma LeanedFacts(path: Path, j: nat, p1: Path, p2: Path, t: Tree)
    requires SameButMins(p1, p2) && |p1| == |path| && Mins(Plug(p2, t))
    requires forall i :: 0 <= i < |path| ==> p1[i] == path[i].(size := path[i].size + 1)
    ensures var p := Leaned(p2, j, |p2|);
      && Passed(path, j, p) && Mins(Plug(p, t)) && SameShape(path, p2)
      && PathNodes(p2) == PathNodes(path) && Spine(p2) == Spine(path)
  {
    var p := Leaned(p2, j, |p2|);
    PlugMins(p2, t);
    AgreeMins(p2, p, Nodes(t));
    PlugMins(p, t);
    assert SameShape(path, p2);
    SameShapeKeeps(path, p2);
    SpineSame(path, p2);
  }

  /** Replacing a subtree by one that settles it. */
  lemma ReplaceSound(up: Path, t: Tree, t': Tree)
    requires Settles(t, t') && Sized(Plug(up, t)) && Distinct(Plug(up, t)) && Mins(Plug(up, t))
    ensures Sized(Plug(up, t')) && Distinct(Plug(up, t')) && Mins(Plug(up, t'))
    ensures Order(Plug(up, t')) == Order(Plug(up, t)) && Nodes(Plug(up, t')) == Nodes(Plug(up, t))
  {
    OrderNodes(t);
    OrderNodes(t');
    PlugSized(up, t);
    PlugSized(up, t');
    PlugDistinct(up, t);
    PlugDistinct(up, t');
    PlugMins(up, t);
    PlugMins(up, t');
    PlugOrder(up, t);
    PlugOrder(up, t');
    PlugNodes(up, t);
    PlugNodes(up, t');
  }

  /** The tree after the passes: all is well but perhaps for balance. */
  lemma PassedSound(path: Path, j: nat, p: Path, x: Node)
    requires Passed(path, j, p) && Mins(Plug(p, Single(x))) && x !in PathNodes(path)
    requires Sized(Plug(path, Leaf)) && Distinct(Plug(path, Leaf))
    ensures var t := Plug(p, Single(x));
      && Sized(t) && Distinct(t) && Mins(t) && Order(t) == Before(path) + [x] + After(path)
      && Nodes(t) == Nodes(Plug(path, Leaf)) + {x}
  {
    SingleFacts(x);
    PlugSized(path, Leaf);
    PassedSized(path, j, p, 0);
    PlugSized(p, Single(x));
    assert SameShape(path, p);
    SameShapeKeeps(path, p);
    PlugDistinct(path, Leaf);
    PlugDistinct(p, Single(x));
    PlugOrder(p, Single(x));
    PlugNodes(p, Single(x));
    PlugNodes(path, Leaf);
  }

  /** The critical subtree after the passes, when it leans by two. */
  lemma CriticalLeans(path: Path, j: nat, p: Path, x: Node)
    requires Balanced(Plug(path, Leaf)) && Critical(path, j) && Passed(path, j, p)
    requires p[j].balance == 2 || p[j].balance == -2
    ensures var t := Below(p, j, Single(x));
      && Leaning(t, !p[j].dir) && t.node == p[j].node && t.Sub(p[j].dir).Fork? && t.Sub(p[j].dir).balance != 0
      && Height(t) == Height(Below(path, j, Leaf)) + 1 && (p[j].balance < 0 <==> !p[j].dir)
  {
    SingleFacts(x);
    PassedBelow(path, j, p, Single(x));
    BelowStep(p, j, Single(x));
  }

  /** The new node, hung at the end of the path. */
  method LinkNew(x: Node, q: Node, which: bool, ghost m: Memory, ghost path: Path) returns (ghost m': Memory)
    requires Synced(m) && Walk(m, path, null) && path != [] && x !in m
    requires q == path[|path| - 1].node && which == path[|path| - 1].dir && q in m
    modifies x, q
    ensures Synced(m') && m'.Keys == m.Keys + {x}
    ensures Walk(m', path, x) && Rep(m', Single(x))
  {
    x.balance, x.size, x.p0, x.p1, x.s := 0, 1, null, null, x;
    ghost var m1 := m[x := x.Fields()];
    assert Synced(m1);
    MoreCells(m, m1, path, null);
    assert x in m1 && m1[x] == RootCell(Single(x));
    assert x != q;
    m' := Attach(q, which, x, m1, path, null);
  }

  lemma {:induction false} RepMore(m: Memory, m': Memory, t: Tree)
    requires Rep(m, t) && forall n :: n in m ==> n in m' && m'[n] == m[n]
    ensures Rep(m', t)
  {
    if t.Fork? {
      RepMore(m, m', t.left);
      RepMore(m, m', t.right);
    }
  }

  lemma MoreCells(m: Memory, m': Memory, path: Path, hole: Node?)
    requires Walk(m, path, hole) && forall n :: n in m ==> n in m' && m'[n] == m[n]
    ensures Walk(m', path, hole)
  {
    forall i | 0 <= i < |path|
      ensures FrameRep(m', path, i, hole)
    {
      assert FrameRep(m, path, i, hole);
      RepMore(m, m', path[i].other);
    }
  }

  /** A tree cut in two at frame `j`. */
  lemma Cut(m: Memory, p: Path, j: nat, t: Tree)
    requires Walk(m, p, t.Root()) && Rep(m, t) && j < |p| && PathNodes(p) !! Nodes(t)
    requires Sized(Plug(p, t)) && Distinct(Plug(p, t)) && Mins(Plug(p, t))
    ensures var up, b := p[..j], Below(p, j, t);
      && Plug(up, b) == Plug(p, t) && Rep(m, b) && b.Fork? && b.node == p[j].node
      && Sized(b) && Distinct(b) && Mins(b) && Nodes(b) <= Nodes(Plug(p, t))
      && Walk(m, up, b.node) && PathNodes(up) !! Nodes(b) && PathNodes(up) <= Nodes(Plug(p, t))
  {
    var up, b := p[..j], Below(p, j, t);
    BelowWhole(p, j, t);
    BelowRep(m, p, j, t);
    BelowStep(p, j, t);
    RepPlug(m, p, t);
    RepPlug(m, up, b);
    PlugSized(up, b);
    PlugDistinct(up, b);
    PlugMins(up, b);
    PlugNodes(up, b);
  }

  /** The tree `t'` in place of the tree at frame `j`, in memory. */
  method Replant(bp: Node, bq: Node?, r: Node, ghost m: Memory, ghost up: Path, ghost t': Tree) returns (ghost m': Memory)
    requires Synced(m) && Walk(m, up, bp) && Rep(m, t') && r == t'.Root() && PathNodes(up) !! Nodes(t')
    requires bq == (if up == [] then null else up[|up| - 1].node) && bp in Nodes(t')
    modifies PathNodes(up)
    ensures Synced(m') && m'.Keys == m.Keys && Rep(m', Plug(up, t'))
  {
    m' := m;
    if bq != null {
      var k := |up| - 1;
      WalkCell(m, up, bp, k);
      PathNode(up, k);
      NotOther(up, bp, t');
      hide Walk;
      m' := Attach(bq, bp != bq.p0, r, m, up, bp);
      Untouched(m, m', {bq}, t');
    }
    WalkPlugs(m', up, t');
  }

  lemma WalkPlugs(m: Memory, up: Path, t: Tree)
    requires (up == [] || Walk(m, up, t.Root())) && Rep(m, t)
    ensures Rep(m, Plug(up, t))
  {
    RepPlug(m, up, t);
  }

  /** A node of the subtree is not the root of the tree on the other side. */
  lemma NotOther(up: Path, bp: Node, t: Tree)
    requires up != [] && bp in Nodes(t) && PathNodes(up) !! Nodes(t)
    ensures up[|up| - 1].other.Root() != bp
  {
    PathNode(up, |up| - 1);
    RootIn(up[|up| - 1].other);
  }

  lemma SettlesNodes(t: Tree, t': Tree)
    requires Settles(t, t')
    ensures Nodes(t') == Nodes(t)
  {
  }

  /** The rotation at the critical frame `j`, and the link from above. */
  lemma CutCritical(m: Memory, path: Path, j: nat, p: Path, x: Node)
    requires Walk(m, p, x) && Rep(m, Single(x)) && PathNodes(p) !! Nodes(Single(x))
    requires Balanced(Plug(path, Leaf)) && Critical(path, j) && Passed(path, j, p)
    requires Sized(Plug(p, Single(x))) && Distinct(Plug(p, Single(x))) && Mins(Plug(p, Single(x)))
    requires p[j].balance == 2 || p[j].balance == -2
    ensures var which, up, b := p[j].balance < 0, p[..j], Below(p, j, Single(x));
      && Rep(m, b) && Distinct(b) && Sized(b) && Mins(b) && Leaning(b, which) && b.node == p[j].node && b.Root() == b.node
      && b.Sub(!which).Fork? && b.Sub(!which).balance != 0 && Nodes(b) <= Nodes(Plug(p, Single(x)))
      && Height(b) == Height(Below(path, j, Leaf)) + 1 && b.node in Nodes(b)
      && Plug(up, b) == Plug(p, Single(x)) && Walk(m, up, b.node) && PathNodes(up) !! Nodes(b)
      && PathNodes(up) <= Nodes(Plug(p, Single(x)))
  {
    Cut(m, p, j, Single(x));
    CriticalLeans(path, j, p, x);
    RootIn(Below(p, j, Single(x)));
    hide Plug, Walk, Rep, Distinct, Sized, Mins, Balanced, Nodes, PathNodes, Leaning, Height, Critical, Passed, Below;
  }

  method Rebalance(bp: Node, bq: Node?, ghost m: Memory, ghost path: Path, ghost j: nat, ghost p: Path, ghost x: Node)
    returns (r: Node, ghost m': Memory, ghost t': Tree)
    requires Synced(m) && Walk(m, p, x) && Rep(m, Single(x)) && PathNodes(p) !! Nodes(Single(x))
    requires Balanced(Plug(path, Leaf)) && Critical(path, j) && Passed(path, j, p)
    requires Sized(Plug(p, Single(x))) && Distinct(Plug(p, Single(x))) && Mins(Plug(p, Single(x)))
    requires bp == p[j].node && bq == (if j > 0 then p[j - 1].node else null)
    requires bp.balance == p[j].balance && (p[j].balance == 2 || p[j].balance == -2)
    modifies Nodes(Plug(p, Single(x)))
    ensures Synced(m') && m'.Keys == m.Keys && Rep(m', Plug(p[..j], t')) && r == t'.Root()
    ensures Settles(Below(p, j, Single(x)), t') && Height(t') == Height(Below(path, j, Leaf))
  {
    ghost var up, b := p[..j], Below(p, j, Single(x));
    CutCritical(m, path, j, p, x);
    hide *;
    assert bq == if up == [] then null else up[|up| - 1].node;
    var which := bp.balance < 0;
    ghost var m1;
    r, m1, t' := RotateInsert(bp, which, m, b);
    WalkFrame(m, m1, up, bp, Nodes(b));
    SettlesNodes(b, t');
    m' := Replant(bp, bq, r, m1, up, t');
  }
}
