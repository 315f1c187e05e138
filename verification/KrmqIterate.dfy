/** The iterator of krmq.h (lines 343-376) and kavl.h (lines 285-322). */
module KrmqIterate {
  import opened AvlShape
  import opened KrmqRotate

  /** The stack holds the nodes from the root of `tree` down to the root of `t`. */
  ghost predicate Stands(m: Memory, tree: Tree, stack: seq<Node>, path: Path, t: Tree) {
    && t.Fork? && Plug(path, t) == tree && Rep(m, t) && PathRep(m, path, t.node)
    && |stack| == |path| + 1 && stack[|path|] == t.node
    && forall i :: 0 <= i < |path| ==> stack[i] == path[i].node
  }

  /** How many nodes come before the root of `t`. */
  function Position(path: Path, t: Tree): nat
    requires t.Fork?
  {
    |Before(path)| + |Order(t.left)|
  }

  lemma StandsAt(m: Memory, tree: Tree, stack: seq<Node>, path: Path, t: Tree)
    requires Stands(m, tree, stack, path, t)
    ensures var k := Position(path, t);
      k < |Order(tree)| && Order(tree)[k] == stack[|stack| - 1]
  {
    PlugOrder(path, t);
  }

  lemma StandsTop(m: Memory, tree: Tree, stack: seq<Node>, path: Path, t: Tree)
    requires Stands(m, tree, stack, path, t)
    ensures t.Fork? && |stack| == |path| + 1 && stack[|path|] == t.node
    ensures path != [] ==> stack[|path| - 1] == path[|path| - 1].node
  {
  }

  lemma StandsRoot(m: Memory, tree: Tree)
    requires Rep(m, tree) && tree.Fork?
    ensures Stands(m, tree, [tree.node], [], tree) && Before([]) == []
  {
  }

  lemma StandsDown(m: Memory, tree: Tree, stack: seq<Node>, path: Path, t: Tree, dir: bool)
    requires Stands(m, tree, stack, path, t) && t.Sub(dir).Fork?
    ensures Stands(m, tree, stack + [t.Sub(dir).node], Step(path, t, dir), t.Sub(dir))
    ensures |Before(Step(path, t, dir))| == |Before(path)| + if dir then |Order(t.left)| + 1 else 0
  {
    PlugStep(path, t, dir);
    RepPlug(m, path, t);
    RepPlug(m, Step(path, t, dir), t.Sub(dir));
    assert Step(path, t, dir)[..|path|] == path;
  }

  lemma StandsUp(m: Memory, tree: Tree, stack: seq<Node>, path: Path, t: Tree)
    requires Stands(m, tree, stack, path, t) && path != []
    ensures var k := |path| - 1;
      var t' := Fill(path[k], t);
      && Stands(m, tree, stack[..|stack| - 1], path[..k], t')
      && (if path[k].dir then |Before(path[..k])| + |Order(t')| == |Before(path)| + |Order(t)|
          else Position(path[..k], t') == |Before(path)| + |Order(t)|)
  {
    var k := |path| - 1;
    RepPlug(m, path, t);
    RepPlug(m, path[..k], Fill(path[k], t));
  }

  /** A node is a child on the side its subtree hangs on, and on that side alone. */
  lemma ChildSide(m: Memory, tree: Tree, stack: seq<Node>, path: Path, t: Tree)
    requires Stands(m, tree, stack, path, t) && path != [] && Distinct(tree)
    ensures var f := path[|path| - 1];
      f.node in m && (t.node == m[f.node].p1 <==> f.dir)
  {
    var k := |path| - 1;
    assert FrameRep(m, path, k, t.node);
    PlugDistinct(path, t);
    PathNode(path, k);
    RootIn(path[k].other);
    assert t.node in Nodes(t);
  }

  class Iterator {
    var stack: seq<Node>
    ghost var path: Path
    ghost var t: Tree

    constructor ()
      ensures stack == []
    {
      stack, path, t := [], [], Leaf;
    }

    /** The iterator is at node `k` in order, or behind the last one. */
    ghost predicate At(m: Memory, tree: Tree, k: nat)
      reads this
    {
      if k == |Order(tree)| then stack == []
      else Stands(m, tree, stack, path, t) && Position(path, t) == k
    }

    /** The node at the top of the stack. */
    lemma Current(m: Memory, tree: Tree, k: nat)
      requires At(m, tree, k) && k <= |Order(tree)|
      ensures |stack| > 0 <==> k < |Order(tree)|
      ensures k < |Order(tree)| ==> Order(tree)[k] == stack[|stack| - 1]
    {
      if k < |Order(tree)| {
        StandsAt(m, tree, stack, path, t);
      }
    }

    /** Pushes a subtree's nodes down to the leftmost one. */
    method Leftmost(ghost m: Memory, ghost tree: Tree, ghost base: nat)
      requires Synced(m) && Stands(m, tree, stack, path, t) && |Before(path)| == base && Height(tree) < MAX_DEPTH
      modifies this
      ensures Stands(m, tree, stack, path, t) && Position(path, t) == base
    {
      hide Order, Before, Step;
      var p := stack[|stack| - 1];
      ForkRep(m, t, false);
      while p.p0 != null
        invariant Stands(m, tree, stack, path, t) && p == t.node && |Before(path)| == base
        invariant p in m && m[p] == RootCell(t)
        decreases t
      {
        StandsDown(m, tree, stack, path, t, false);
        DepthOf(path, t, tree);
        assert |stack| < MAX_DEPTH;
        path, t, stack := Step(path, t, false), t.left, stack + [p.p0];
        p := p.p0;
        ForkRep(m, t, false);
      }
      LeafEmpty();
    }

    /** `krmq_itr_first` */
    method First(root: Node?, ghost m: Memory, ghost tree: Tree)
      requires Synced(m) && Rep(m, tree) && root == tree.Root() && Height(tree) < MAX_DEPTH
      modifies this
      ensures At(m, tree, 0)
    {
      LeafEmpty();
      if root == null {
        stack := [];
        return;
      }
      StandsRoot(m, tree);
      stack, path, t := [root], [], tree;
      Leftmost(m, tree, 0);
      StandsAt(m, tree, stack, path, t);
    }

    /** `krmq_itr_next`: one node on; false when there is none. */
    method Next(ghost m: Memory, ghost tree: Tree, ghost k: nat) returns (more: bool)
      requires Synced(m) && Distinct(tree) && Height(tree) < MAX_DEPTH && k < |Order(tree)| && At(m, tree, k)
      modifies this
      ensures At(m, tree, k + 1) && more == (k + 1 < |Order(tree)|)
    {
      var p := stack[|stack| - 1];
      ForkRep(m, t, true);
      if p.p1 != null {
        StandsDown(m, tree, stack, path, t, true);
        DepthOf(path, t, tree);
        assert |stack| < MAX_DEPTH;
        path, t, stack := Step(path, t, true), t.right, stack + [p.p1];
        Leftmost(m, tree, k + 1);
        StandsAt(m, tree, stack, path, t);
        more := true;
      } else {
        more := Up(m, tree, k);
      }
    }

    /** Up to the first node whose left subtree has just been left. */
    method Up(ghost m: Memory, ghost tree: Tree, ghost k: nat) returns (more: bool)
      requires Synced(m) && Distinct(tree) && k < |Order(tree)|
      requires Stands(m, tree, stack, path, t) && Position(path, t) == k && t.right == Leaf
      modifies this
      ensures At(m, tree, k + 1) && more == (k + 1 < |Order(tree)|)
    {
      EndsBehind(path, t);
      hide Order, Before, Position, Distinct, Stands, Synced;
      StandsTop(m, tree, stack, path, t);
      while true
        invariant Stands(m, tree, stack, path, t) && |Before(path)| + |Order(t)| == k + 1 && |stack| == |path| + 1
        decreases |path|
      {
        if |stack| == 1 {
          AllBefore(tree, path, t, stack, m);
          stack := [];
          return false;
        }
        var fromRight := Pop(m, tree, k + 1);
        if !fromRight {
          StandsAt(m, tree, stack, path, t);
          return true;
        }
      }
    }

    /** One node up; tells whether it was left on its right side. */
    method Pop(ghost m: Memory, ghost tree: Tree, ghost end: nat) returns (fromRight: bool)
      requires Synced(m) && Distinct(tree) && Stands(m, tree, stack, path, t) && path != []
      requires |Before(path)| + |Order(t)| == end
      modifies this
      ensures Stands(m, tree, stack, path, t) && |stack| == |path| + 1 == |old(path)| && t.Fork?
      ensures if fromRight then |Before(path)| + |Order(t)| == end else Position(path, t) == end
    {
      ChildSide(m, tree, stack, path, t);
      StandsUp(m, tree, stack, path, t);
      StandsTop(m, tree, stack, path, t);
      hide Order, Before, Position, Distinct, Stands;
      ghost var f := path[|path| - 1];
      var p := stack[|stack| - 1];
      stack, path, t := stack[..|stack| - 1], path[..|path| - 1], Fill(f, t);
      StandsTop(m, tree, stack, path, t);
      fromRight := p == stack[|stack| - 1].p1;
    }
  }

  lemma LeafEmpty()
    ensures Order(Leaf) == []
  {
  }

  lemma DepthOf(path: Path, t: Tree, tree: Tree)
    requires Plug(path, t) == tree && t.Fork?
    ensures |path| + Height(t) <= Height(tree)
    ensures forall dir :: t.Sub(dir).Fork? ==> Height(t) >= 2
  {
    PlugHeight(path, t);
  }

  lemma EndsBehind(path: Path, t: Tree)
    requires t.Fork? && t.right == Leaf
    ensures |Before(path)| + |Order(t)| == Position(path, t) + 1
  {
    LeafEmpty();
  }

  lemma AllBefore(tree: Tree, path: Path, t: Tree, stack: seq<Node>, m: Memory)
    requires Stands(m, tree, stack, path, t) && |stack| == 1
    ensures |Before(path)| + |Order(t)| == |Order(tree)|
  {
    PlugOrder(path, t);
    assert path == [];
  }

  method Begin(root: Node?, ghost m: Memory, ghost tree: Tree) returns (itr: Iterator, more: bool)
    requires Synced(m) && Rep(m, tree) && root == tree.Root() && Height(tree) < MAX_DEPTH
    ensures fresh(itr) && itr.At(m, tree, 0) && more == (0 < |Order(tree)|)
  {
    hide *;
    itr := new Iterator();
    itr.First(root, m, tree);
    itr.Current(m, tree, 0);
    more := |itr.stack| > 0;
  }

  /** First and then every next node: the tree in order. */
  method InOrder(root: Node?, ghost m: Memory, ghost tree: Tree) returns (order: seq<Node>)
    requires Synced(m) && Rep(m, tree) && root == tree.Root() && Distinct(tree) && Height(tree) < MAX_DEPTH
    ensures order == Order(tree)
  {
    hide *;
    order := [];
    var itr, more := Begin(root, m, tree);
    assert Order(tree)[..0] == [];
    while more
      invariant fresh(itr) && Synced(m) && itr.At(m, tree, |order|) && |order| <= |Order(tree)| && order == Order(tree)[..|order|]
      invariant more == (|order| < |Order(tree)|)
      decreases |Order(tree)| - |order|
    {
      itr.Current(m, tree, |order|);
      order := order + [itr.stack[|itr.stack| - 1]];
      more := itr.Next(m, tree, |order| - 1);
    }
  }
}
