/** What rotations and rewritten paths do to the trees of krmq.h and kavl.h. */
module AvlMoves {
  import opened AvlShape

  // ---- properties along a path -------------------------------------------------------

  /** The sizes on the path count a hole of `n` nodes. */
  ghost predicate PathSized(path: Path, n: nat)
    decreases |path|
  {
    path != [] ==>
      var f, up := path[|path| - 1], path[..|path| - 1];
      f.size == n + 1 + Count(f.other) && Sized(f.other) && PathSized(up, f.size)
  }

  lemma {:induction false} PlugSized(path: Path, t: Tree)
    ensures Sized(Plug(path, t)) <==> PathSized(path, Count(t)) && Sized(t)
    decreases |path|
  {
    if path != [] {
      PlugSized(path[..|path| - 1], Fill(path[|path| - 1], t));
    }
  }

  /** +1 for the right, -1 for the left. */
  function Lean(dir: bool): int {
    if dir then 1 else -1
  }

  /** How far a node leans whose side `dir` is `h` high and whose other side is `k` high. */
  function Tilt(dir: bool, h: int, k: int): int {
    if dir then h - k else k - h
  }

  /** The balances on the path fit a hole of height `h`. */
  ghost predicate PathBalanced(path: Path, h: nat)
    decreases |path|
  {
    path != [] ==>
      var f, up := path[|path| - 1], path[..|path| - 1];
      && f.balance == Tilt(f.dir, h, Height(f.other)) && -1 <= f.balance <= 1
      && Balanced(f.other) && PathBalanced(up, 1 + Max(h, Height(f.other)))
  }

  lemma FillBalanced(f: Frame, t: Tree)
    ensures Height(Fill(f, t)) == 1 + Max(Height(t), Height(f.other))
    ensures Balanced(Fill(f, t)) <==>
      f.balance == Tilt(f.dir, Height(t), Height(f.other)) && -1 <= f.balance <= 1 && Balanced(t) && Balanced(f.other)
  {
  }

  lemma {:induction false} PlugBalanced(path: Path, t: Tree)
    ensures Balanced(Plug(path, t)) <==> PathBalanced(path, Height(t)) && Balanced(t)
    decreases |path|
  {
    hide Balanced, Height, Fill, Tilt, Max;
    if path != [] {
      var f := path[|path| - 1];
      FillBalanced(f, t);
      PlugBalanced(path[..|path| - 1], Fill(f, t));
    }
  }

  /** The minima on the path are right when the hole holds `nodes`. */
  ghost predicate PathMins(path: Path, nodes: set<Node>)
    decreases |path|
  {
    path != [] ==>
      var f, up := path[|path| - 1], path[..|path| - 1];
      var all := nodes + {f.node} + Nodes(f.other);
      IsMin(f.s, all) && Mins(f.other) && PathMins(up, all)
  }

  lemma {:induction false} PlugMins(path: Path, t: Tree)
    ensures Mins(Plug(path, t)) <==> PathMins(path, Nodes(t)) && Mins(t)
    decreases |path|
  {
    if path != [] {
      var f := path[|path| - 1];
      PlugMins(path[..|path| - 1], Fill(f, t));
      assert Nodes(Fill(f, t)) == Nodes(t) + {f.node} + Nodes(f.other);
    }
  }

  lemma {:induction false} PlugSplit(up: Path, down: Path, t: Tree)
    ensures Plug(up + down, t) == Plug(up, Plug(down, t))
    decreases |down|
  {
    if down == [] {
      assert up + down == up;
    } else {
      var k := |down| - 1;
      PlugSplit(up, down[..k], Fill(down[k], t));
      assert (up + down)[..|up + down| - 1] == up + down[..k];
    }
  }

  // ---- rotations ------------------------------------------------------------------------

  /** What `krmq_update_min` stores: the node, or the minimum below it that is no heavier. */
  function MinOf(node: Node, x: Tree, y: Tree): Node {
    var s := if x.Leaf? || node.weight < x.s.weight then node else x.s;
    if y.Leaf? || s.weight < y.s.weight then s else y.s
  }

  lemma MinOfIsMin(node: Node, x: Tree, y: Tree)
    requires Mins(x) && Mins(y)
    ensures IsMin(MinOf(node, x, y), Nodes(x) + {node} + Nodes(y))
  {
  }

  function SizeOf(t: Tree): nat {
    if t.Leaf? then 0 else t.size
  }

  ghost predicate CanRotate1(t: Tree, dir: bool) {
    t.Fork? && t.Sub(!dir).Fork? && SizeOf(t.Sub(!dir).Sub(dir)) <= t.Sub(!dir).size <= t.size
  }

  /** (a,(b,c)q)p becomes ((a,b)p,c)q. */
  function Rotated1(t: Tree, dir: bool): Tree
    requires CanRotate1(t, dir)
  {
    var q := t.Sub(!dir);
    var a, b, c := t.Sub(dir), q.Sub(dir), q.Sub(!dir);
    var p' := Make(dir, a, t.node, t.balance, t.size - (q.size - SizeOf(b)), MinOf(t.node, a, b), b);
    Make(dir, p', q.node, q.balance, t.size, t.s, c)
  }

  ghost predicate CanRotate2(t: Tree, dir: bool) {
    && t.Fork? && t.Sub(!dir).Fork? && t.Sub(!dir).Sub(dir).Fork?
    && SizeOf(t.Sub(!dir).Sub(dir).Sub(dir)) < t.Sub(!dir).size <= t.size
  }

  /** (a,((b,c)r,d)q)p becomes ((a,b)p,(c,d)q)r. */
  function Rotated2(t: Tree, dir: bool): Tree
    requires CanRotate2(t, dir)
  {
    var q := t.Sub(!dir);
    var r := q.Sub(dir);
    var a, b, c, d := t.Sub(dir), r.Sub(dir), r.Sub(!dir), q.Sub(!dir);
    var b1 := Lean(!dir);
    var pb := if r.balance == b1 then -b1 else 0;
    var qb := if r.balance == b1 || r.balance == 0 then 0 else b1;
    var p' := Make(dir, a, t.node, pb, t.size - (q.size - SizeOf(b)), MinOf(t.node, a, b), b);
    var q' := Make(dir, c, q.node, qb, q.size - (SizeOf(b) + 1), MinOf(q.node, d, c), d);
    Make(dir, p', r.node, 0, t.size, t.s, q')
  }

  lemma SizedOf(t: Tree)
    requires Sized(t)
    ensures SizeOf(t) == Count(t)
  {
  }

  /** A tree seen from side `dir`. */
  lemma Sides(t: Tree, dir: bool)
    requires t.Fork?
    ensures Nodes(t) == Nodes(t.Sub(dir)) + {t.node} + Nodes(t.Sub(!dir))
    ensures Count(t) == Count(t.Sub(dir)) + 1 + Count(t.Sub(!dir))
    ensures Height(t) == 1 + Max(Height(t.Sub(dir)), Height(t.Sub(!dir)))
    ensures Sized(t) <==> t.size == Count(t) && Sized(t.Sub(dir)) && Sized(t.Sub(!dir))
    ensures Mins(t) <==> IsMin(t.s, Nodes(t)) && Mins(t.Sub(dir)) && Mins(t.Sub(!dir))
    ensures Balanced(t) <==>
      && t.balance == Tilt(dir, Height(t.Sub(dir)), Height(t.Sub(!dir))) && -1 <= t.balance <= 1
      && Balanced(t.Sub(dir)) && Balanced(t.Sub(!dir))
    ensures Distinct(t) <==>
      && t.node !in Nodes(t.Sub(dir)) && t.node !in Nodes(t.Sub(!dir)) && Nodes(t.Sub(dir)) !! Nodes(t.Sub(!dir))
      && Distinct(t.Sub(dir)) && Distinct(t.Sub(!dir))
  {
  }

  lemma Rotate1Order(t: Tree, dir: bool)
    requires CanRotate1(t, dir)
    ensures Order(Rotated1(t, dir)) == Order(t)
  {
    var q := t.Sub(!dir);
    var a, b, c := t.Sub(dir), q.Sub(dir), q.Sub(!dir);
    if dir {
      assert Order(t) == Order(c) + [q.node] + Order(b) + [t.node] + Order(a);
    } else {
      assert Order(t) == Order(a) + [t.node] + Order(b) + [q.node] + Order(c);
    }
  }

  lemma Rotate1Keeps(t: Tree, dir: bool)
    requires t.Fork? && t.Sub(!dir).Fork? && Sized(t) && Distinct(t)
    ensures CanRotate1(t, dir)
    ensures Nodes(Rotated1(t, dir)) == Nodes(t)
    ensures Sized(Rotated1(t, dir)) && Distinct(Rotated1(t, dir))
  {
    hide Nodes, Count, Sized, Distinct, Mins, IsMin, Balanced, Height, MinOf;
    var q := t.Sub(!dir);
    Sides(t, dir);
    Sides(q, dir);
    SizedOf(q.Sub(dir));
    var t' := Rotated1(t, dir);
    Sides(t', dir);
    Sides(t'.Sub(dir), dir);
  }

  lemma Rotate1Mins(t: Tree, dir: bool)
    requires t.Fork? && t.Sub(!dir).Fork? && CanRotate1(t, dir) && Mins(t)
    requires Nodes(Rotated1(t, dir)) == Nodes(t)
    ensures Mins(Rotated1(t, dir))
  {
    hide Nodes, Count, Sized, Distinct, Mins, IsMin, Balanced, Height, MinOf;
    var q, t' := t.Sub(!dir), Rotated1(t, dir);
    Sides(t, dir);
    Sides(q, dir);
    MinOfIsMin(t.node, t.Sub(dir), q.Sub(dir));
    Sides(t', dir);
    Sides(t'.Sub(dir), dir);
  }

  lemma Regroup(a: seq<Node>, p: seq<Node>, b: seq<Node>, r: seq<Node>, c: seq<Node>, q: seq<Node>, d: seq<Node>)
    ensures a + p + (b + r + c + q + d) == (a + p + b) + r + (c + q + d)
    ensures d + q + (c + r + b) + p + a == (d + q + c) + r + (b + p + a)
  {
  }

  lemma Rotate2Order(t: Tree, dir: bool)
    requires CanRotate2(t, dir)
    ensures Order(Rotated2(t, dir)) == Order(t)
  {
    var q := t.Sub(!dir);
    var r, t' := q.Sub(dir), Rotated2(t, dir);
    var a, b, c, d := Order(t.Sub(dir)), Order(r.Sub(dir)), Order(r.Sub(!dir)), Order(q.Sub(!dir));
    Regroup(a, [t.node], b, [r.node], c, [q.node], d);
    assert Order(q) == if dir then d + [q.node] + Order(r) else Order(r) + [q.node] + d;
    assert Order(r) == if dir then c + [r.node] + b else b + [r.node] + c;
    assert Order(t'.Sub(dir)) == if dir then b + [t.node] + a else a + [t.node] + b;
    assert Order(t'.Sub(!dir)) == if dir then d + [q.node] + c else c + [q.node] + d;
  }

  lemma Rotate2Keeps(t: Tree, dir: bool)
    requires t.Fork? && t.Sub(!dir).Fork? && t.Sub(!dir).Sub(dir).Fork? && Sized(t) && Distinct(t)
    ensures CanRotate2(t, dir)
    ensures Nodes(Rotated2(t, dir)) == Nodes(t)
    ensures Sized(Rotated2(t, dir)) && Distinct(Rotated2(t, dir))
  {
    hide Nodes, Count, Sized, Distinct, Mins, IsMin, Balanced, Height, MinOf;
    var q := t.Sub(!dir);
    var r := q.Sub(dir);
    Sides(t, dir);
    Sides(q, dir);
    Sides(r, dir);
    SizedOf(r.Sub(dir));
    var t' := Rotated2(t, dir);
    Sides(t', dir);
    Sides(t'.Sub(dir), dir);
    Sides(t'.Sub(!dir), dir);
  }

  lemma Rotate2Mins(t: Tree, dir: bool)
    requires CanRotate2(t, dir) && Mins(t)
    requires Nodes(Rotated2(t, dir)) == Nodes(t)
    ensures Mins(Rotated2(t, dir))
  {
    hide Nodes, Count, Sized, Distinct, Mins, IsMin, Balanced, Height, MinOf;
    var q := t.Sub(!dir);
    var r, t' := q.Sub(dir), Rotated2(t, dir);
    Sides(t, dir);
    Sides(q, dir);
    Sides(r, dir);
    MinOfIsMin(t.node, t.Sub(dir), r.Sub(dir));
    MinOfIsMin(q.node, q.Sub(!dir), r.Sub(!dir));
    var c, d := Nodes(r.Sub(!dir)), Nodes(q.Sub(!dir));
    assert c + {q.node} + d == d + {q.node} + c;
    Sides(t', dir);
    Sides(t'.Sub(dir), dir);
    Sides(t'.Sub(!dir), dir);
  }

  /** `t` with other balances at the root and at its child on side `dir`. */
  function Rebalanced(t: Tree, dir: bool, rootBalance: int, childBalance: int): Tree
    requires t.Fork? && t.Sub(dir).Fork?
  {
    Make(dir, t.Sub(dir).(balance := childBalance), t.node, rootBalance, t.size, t.s, t.Sub(!dir))
  }

  lemma RebalancedKeeps(t: Tree, dir: bool, rb: int, cb: int)
    requires t.Fork? && t.Sub(dir).Fork?
    ensures var t' := Rebalanced(t, dir, rb, cb);
      && Order(t') == Order(t) && Nodes(t') == Nodes(t) && Height(t') == Height(t)
      && (Sized(t) ==> Sized(t')) && (Distinct(t) ==> Distinct(t')) && (Mins(t) ==> Mins(t'))
  {
    var t' := Rebalanced(t, dir, rb, cb);
    assert Order(t'.Sub(dir)) == Order(t.Sub(dir));
    hide IsMin;
    Sides(t, dir);
    Sides(t', dir);
    Sides(t.Sub(dir), dir);
    Sides(t'.Sub(dir), dir);
  }

  /** `t` leans two levels to the side opposite `dir`. */
  ghost predicate Leaning(t: Tree, dir: bool) {
    && t.Fork? && Balanced(t.Sub(dir)) && Balanced(t.Sub(!dir))
    && Height(t.Sub(!dir)) == Height(t.Sub(dir)) + 2
  }

  lemma LeaningForks(t: Tree, dir: bool)
    requires Leaning(t, dir)
    ensures t.Sub(!dir).Fork?
    ensures t.Sub(!dir).balance == -Lean(!dir) ==> t.Sub(!dir).Sub(dir).Fork?
  {
    Sides(t.Sub(!dir), dir);
  }

  /** One rotation settles a tree whose heavy child leans outwards or not at all. */
  lemma Rotate1Balances(t: Tree, dir: bool)
    requires Leaning(t, dir) && CanRotate1(t, dir) && t.Sub(!dir).balance != -Lean(!dir)
    ensures t.Sub(!dir).balance == Lean(!dir) ==>
      var t' := Rebalanced(Rotated1(t, dir), dir, 0, 0);
      Balanced(t') && Height(t') == Height(t) - 1
    ensures t.Sub(!dir).balance == 0 ==>
      var t' := Rebalanced(Rotated1(t, dir), dir, -Lean(!dir), Lean(!dir));
      Balanced(t') && Height(t') == Height(t)
  {
    hide Nodes, Count, Sized, Distinct, Mins, IsMin, Balanced, Height, MinOf;
    var q := t.Sub(!dir);
    Sides(t, dir);
    Sides(q, dir);
    var rb := if q.balance == 0 then -Lean(!dir) else 0;
    var t' := Rebalanced(Rotated1(t, dir), dir, rb, -rb);
    Sides(t', dir);
    Sides(t'.Sub(dir), dir);
  }

  /** Two rotations settle a tree whose heavy child leans inwards. */
  lemma Rotate2Balances(t: Tree, dir: bool)
    requires Leaning(t, dir) && CanRotate2(t, dir) && t.Sub(!dir).balance == -Lean(!dir)
    ensures Balanced(Rotated2(t, dir)) && Height(Rotated2(t, dir)) == Height(t) - 1
  {
    hide Nodes, Count, Sized, Distinct, Mins, IsMin, Balanced, Height, MinOf;
    var q := t.Sub(!dir);
    var r := q.Sub(dir);
    Sides(t, dir);
    Sides(q, dir);
    Sides(r, dir);
    var t' := Rotated2(t, dir);
    Sides(t', dir);
    Sides(t'.Sub(dir), dir);
    Sides(t'.Sub(!dir), dir);
  }
}
