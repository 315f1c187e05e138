/**
 ext/klib/krmq.h: a height-balanced tree that knows the size and a lightest node of every
 subtree. ext/klib/kavl.h is the same code without the lightest nodes.
 */
module Krmq {
  import opened AvlShape
  import opened AvlMoves
  import opened KrmqRotate
  import opened KrmqInsert
  import opened KrmqErase
  import KrmqQuery
  import KrmqIterate

  const UNSIGNED := 0x1_0000_0000

  /** What insertion and deletion keep true. */
  ghost predicate Sound(t: Tree) {
    Distinct(t) && Sized(t) && Balanced(t) && Mins(t) && Ascending(Order(t)) && Count(t) < UNSIGNED
  }

  predicate AllBelow(order: seq<Node>, key: int) {
    forall i :: 0 <= i < |order| ==> order[i].key < key
  }

  predicate AllAbove(order: seq<Node>, key: int) {
    forall i :: 0 <= i < |order| ==> key < order[i].key
  }

  // ---- going down to a key --------------------------------------------------------------

  /** `path` leads to the subtree `t` of `tree` where `key` belongs. */
  ghost predicate Leads(m: Memory, tree: Tree, path: Path, t: Tree, key: int) {
    && Plug(path, t) == tree && PathRep(m, path, t.Root()) && Rep(m, t)
    && AllBelow(Before(path), key) && AllAbove(After(path), key)
  }

  lemma LeadsStart(m: Memory, tree: Tree, key: int)
    requires Rep(m, tree)
    ensures Leads(m, tree, [], tree, key) && Before([]) == [] && After([]) == []
  {
  }

  lemma AscendingParts(a: seq<Node>, b: seq<Node>, n: Node, c: seq<Node>, d: seq<Node>)
    requires Ascending(a + (b + [n] + c) + d)
    ensures AllBelow(b, n.key) && AllAbove(c, n.key) && AllBelow(a, n.key) && AllAbove(d, n.key)
  {
    var s := a + (b + [n] + c) + d;
    var k := |a| + |b|;
    assert s[k] == n;
    forall i | 0 <= i < |b|
      ensures b[i].key < n.key
    {
      assert s[|a| + i] == b[i];
    }
    forall i | 0 <= i < |c|
      ensures n.key < c[i].key
    {
      assert s[k + 1 + i] == c[i];
    }
    forall i | 0 <= i < |a|
      ensures a[i].key < n.key
    {
      assert s[i] == a[i];
    }
    forall i | 0 <= i < |d|
      ensures n.key < d[i].key
    {
      assert s[k + 1 + |c| + i] == d[i];
    }
  }

  lemma BelowJoin(a: seq<Node>, b: seq<Node>, key: int)
    ensures AllBelow(a + b, key) <==> AllBelow(a, key) && AllBelow(b, key)
    ensures AllAbove(a + b, key) <==> AllAbove(a, key) && AllAbove(b, key)
  {
    assert forall i :: 0 <= i < |a| ==> (a + b)[i] == a[i];
    assert forall i :: 0 <= i < |b| ==> (a + b)[|a| + i] == b[i];
  }

  lemma LeadsStep(m: Memory, tree: Tree, path: Path, t: Tree, key: int, dir: bool)
    requires Leads(m, tree, path, t, key) && Ascending(Order(tree))
    requires t.Fork? && t.node.key != key && dir == (key > t.node.key)
    ensures Leads(m, tree, Step(path, t, dir), t.Sub(dir), key)
    ensures |Before(Step(path, t, dir))| == |Before(path)| + if dir then |Order(t.left)| + 1 else 0
  {
    var path' := Step(path, t, dir);
    PlugStep(path, t, dir);
    PlugOrder(path, t);
    RepPlug(m, path', t.Sub(dir));
    RepPlug(m, path, t);
    AscendingParts(Before(path), Order(t.left), t.node, Order(t.right), After(path));
    assert path'[..|path|] == path;
    var l, r := Order(t.left), Order(t.right);
    if dir {
      BelowJoin(Before(path), l + [t.node], key);
      BelowJoin(l, [t.node], key);
    } else {
      BelowJoin([t.node] + r, After(path), key);
      BelowJoin([t.node], r, key);
    }
  }

  /** Where `key` is, or would be: `cnt` keys are no greater. */
  ghost predicate Ranks(order: seq<Node>, key: int, cnt: nat) {
    cnt <= |order| && (forall i :: 0 <= i < cnt ==> order[i].key <= key)
    && (forall i :: cnt <= i < |order| ==> key < order[i].key)
  }

  lemma RankFound(m: Memory, tree: Tree, path: Path, t: Tree)
    requires t.Fork? && Leads(m, tree, path, t, t.node.key) && Ascending(Order(tree))
    ensures var k := |Before(path)| + |Order(t.left)|;
      Ranks(Order(tree), t.node.key, k + 1) && Order(tree)[k] == t.node
  {
    PlugOrder(path, t);
    var a, b, c, d := Before(path), Order(t.left), Order(t.right), After(path);
    AscendingParts(a, b, t.node, c, d);
    var order, k := Order(tree), |a| + |b|;
    assert order == a + (b + [t.node] + c) + d;
    assert order[k] == t.node;
  }

  lemma SplitRank(a: seq<Node>, b: seq<Node>, key: int)
    requires AllBelow(a, key) && AllAbove(b, key)
    ensures Ranks(a + b, key, |a|)
    ensures forall i :: 0 <= i < |a + b| ==> (a + b)[i].key != key
  {
  }

  lemma NotAmong(tree: Tree, key: int, n: Node)
    requires n in Nodes(tree) && forall i :: 0 <= i < |Order(tree)| ==> Order(tree)[i].key != key
    ensures n.key != key
  {
    OrderNodes(tree);
  }

  lemma RankMissing(tree: Tree, path: Path, key: int)
    requires Plug(path, Leaf) == tree && AllBelow(Before(path), key) && AllAbove(After(path), key)
    ensures Order(tree) == Before(path) + After(path)
    ensures Ranks(Order(tree), key, |Before(path)|)
    ensures forall n :: n in Nodes(tree) ==> n.key != key
  {
    PlugOrder(path, Leaf);
    assert Order(tree) == Before(path) + After(path);
    hide *;
    SplitRank(Before(path), After(path), key);
    forall n | n in Nodes(tree)
      ensures n.key != key
    {
      NotAmong(tree, key, n);
    }
  }

  lemma SizeIsLength(t: Tree)
    requires Sized(t)
    ensures SizeOf(t) == |Order(t)|
  {
    OrderNodes(t);
  }

  method LeftSize(p: Node, ghost m: Memory, ghost t: Tree) returns (n: nat)
    requires Synced(m) && Rep(m, t) && t.Fork? && p == t.node && Sized(t)
    ensures n == |Order(t.left)|
  {
    ForkRep(m, t, false);
    RootShows(m, t.left);
    SizeIsLength(t.left);
    n := SizeAt(p.p0, t.left);
  }

  lemma LeadsNode(m: Memory, t: Tree)
    requires Synced(m) && Rep(m, t) && Sized(t) && t.Root() != null
    ensures t.Fork? && t.node == t.Root() && Sized(t.left) && Sized(t.right)
    ensures forall dir :: t.node.Child(dir) == t.Sub(dir).Root() && t.Sub(dir) == if dir then t.right else t.left
  {
    ForkRep(m, t, false);
    ForkRep(m, t, true);
    hide Rep, Sized;
  }

  lemma RootLeaf(t: Tree)
    requires t.Root() == null
    ensures t == Leaf
  {
  }

  lemma PlugHas(path: Path, t: Tree)
    requires t.Fork?
    ensures t.node in Nodes(Plug(path, t))
  {
    PlugNodes(path, t);
  }

  class RmqTree {
    var root: Node?
    ghost var tree: Tree
    ghost var mem: Memory

    ghost predicate Valid()
      reads this, mem.Keys
    {
      && root == tree.Root() && Synced(mem) && Rep(mem, tree) && mem.Keys == Nodes(tree)
      && Sound(tree)
    }

    constructor ()
      ensures Valid() && tree == Leaf
    {
      root, tree, mem := null, Leaf, map[];
    }

    /** `krmq_find`: the node with the key, and the number of keys no greater. */
    method Find(key: int) returns (p: Node?, cnt: nat)
      requires Valid()
      ensures p == null <==> forall n :: n in Nodes(tree) ==> n.key != key
      ensures p != null ==> p in Nodes(tree) && p.key == key
      ensures Ranks(Order(tree), key, cnt)
    {
      hide *;
      ValidParts();
      p, cnt := root, 0;
      ghost var path: Path, t := [], tree;
      LeadsStart(mem, tree, key);
      while p != null
        invariant p == t.Root() && Leads(mem, tree, path, t, key) && Synced(mem) && Ascending(Order(tree))
        invariant Sized(t) && cnt == |Before(path)|
        decreases t
      {
        LeadsFacts(mem, tree, path, t, key);
        LeadsNode(mem, t);
        if key >= p.key {
          var n := LeftSize(p, mem, t);
          cnt := cnt + n + 1;
        }
        if key != p.key {
          var dir := key > p.key;
          LeadsStep(mem, tree, path, t, key, dir);
          p, path, t := p.Child(dir), Step(path, t, dir), t.Sub(dir);
        } else {
          RankFound(mem, tree, path, t);
          PlugHas(path, t);
          return;
        }
      }
      LeadsFacts(mem, tree, path, t, key);
      assert t == Leaf by { RootLeaf(t); }
      RankMissing(tree, path, key);
    }

    /** `krmq_interval`: the nodes at or around the key. */
    method Interval(key: int) returns (p: Node?, lower: Node?, upper: Node?, ghost cnt: nat)
      requires Valid()
      ensures p != null ==> p in Nodes(tree) && p.key == key && lower == upper == p
      ensures p == null ==>
        && (forall n :: n in Nodes(tree) ==> n.key != key)
        && Ranks(Order(tree), key, cnt)
        && lower == (if 0 < cnt <= |Order(tree)| then Order(tree)[cnt - 1] else null)
        && upper == (if cnt < |Order(tree)| then Order(tree)[cnt] else null)
    {
      hide Leads, Ascending, Ranks, Distinct, Balanced, Mins, Sized, Rep, Order, Step, Before, After;
      p, lower, upper, cnt := root, null, null, 0;
      ghost var path: Path, t := [], tree;
      LeadsStart(mem, tree, key);
      while p != null
        invariant p == t.Root() && Leads(mem, tree, path, t, key)
        invariant lower == Last(Before(path)) && upper == First(After(path))
        decreases t
      {
        LeadsFacts(mem, tree, path, t, key);
        ForkRep(mem, t, false);
        if key != p.key {
          var dir := key > p.key;
          LeadsStep(mem, tree, path, t, key, dir);
          StepEnds(path, t, dir);
          if dir {
            lower := p;
          } else {
            upper := p;
          }
          p, path, t := p.Child(dir), Step(path, t, dir), t.Sub(dir);
        } else {
          PlugNodes(path, t);
          return p, p, p, 0;
        }
      }
      LeadsFacts(mem, tree, path, t, key);
      RankMissing(tree, path, key);
      cnt := |Before(path)|;
      EndsAreNeighbours(Before(path), After(path));
    }

    /** The first loop of `krmq_insert`: the path to the place of the key, or the node that has it. */
    method Descend(key: int)
      returns (found: Node?, cnt: nat, nodes: seq<Node>, stack: seq<bool>, bp: Node?, bq: Node?, ghost path: Path, ghost j: nat)
      requires Valid()
      ensures Ranks(Order(tree), key, cnt)
      ensures found != null ==> cnt > 0 && Order(tree)[cnt - 1] == found && found.key == key
      ensures found == null ==>
        && Plug(path, Leaf) == tree && Walk(mem, path, null) && Along(nodes, path) && cnt == |Before(path)|
        && AllBelow(Before(path), key) && AllAbove(After(path), key)
        && (if path == [] then bp == null else Staged(path, j, stack, bp, bq))
    {
      hide Leads, Ascending, Ranks, Distinct, Balanced, Mins, Rep, Order, Step, Before, Staged, Height;
      found, cnt, nodes, stack, bp, bq := null, 0, [], [], root, null;
      path, j := [], 0;
      var p := root;
      ghost var t := tree;
      LeadsStart(mem, tree, key);
      DepthBound(tree);
      while p != null
        invariant p == t.Root() && Leads(mem, tree, path, t, key)
        invariant Sized(t) && cnt == |Before(path)| && Along(nodes, path)
        invariant if path == [] then bp == p && bq == null && stack == [] && j == 0 else Staged(path, j, stack, bp, bq)
        decreases t
      {
        LeadsFacts(mem, tree, path, t, key);
        ForkRep(mem, t, false);
        if key >= p.key {
          var n := LeftSize(p, mem, t);
          cnt := cnt + n + 1;
        }
        if key == p.key {
          RankFound(mem, tree, path, t);
          return p, cnt, nodes, stack, bp, bq, path, j;
        }
        var which := key > p.key;
        LeadsStep(mem, tree, path, t, key, which);
        PathShort(path, t);
        assert |nodes| < MAX_DEPTH;
        StagedStep(path, j, stack, bp, bq, t, which);
        AlongStep(nodes, path, t, which);
        if p.balance != 0 {
          bq, bp, stack, j := Last(nodes), p, [], |nodes|;
        }
        assert [] + [which] == [which];
        stack := stack + [which];
        nodes := nodes + [p];
        p, path, t := p.Child(which), Step(path, t, which), t.Sub(which);
      }
      LeadsFacts(mem, tree, path, t, key);
      RankMissing(tree, path, key);
      LeadsWalk(mem, path, t);
    }

    /**
     `krmq_insert`: the node with the key of `x`, which is `x` itself when there was none, and the
     number of keys no greater.
     */
    method Insert(x: Node) returns (r: Node, cnt: nat)
      requires Valid() && Count(tree) + 1 < 0x1_0000_0000
      modifies this, mem.Keys, x
      ensures Valid()
      ensures Ranks(old(Order(tree)), x.key, cnt)
      ensures (exists n :: n in old(Nodes(tree)) && n.key == x.key) ==>
        && r in old(Nodes(tree)) && r.key == x.key && tree == old(tree) && mem == old(mem)
      ensures (forall n :: n in old(Nodes(tree)) ==> n.key != x.key) ==>
        r == x && Order(tree) == old(Order(tree))[..cnt] + [x] + old(Order(tree))[cnt..]
    {
      var found, count, nodes, stack, bp, bq;
      ghost var path, j;
      found, count, nodes, stack, bp, bq, path, j := Descend(x.key);
      cnt := count;
      if found != null {
        FoundIn(tree, found, cnt - 1);
        return found, cnt;
      }
      r := x;
      RankMissing(tree, path, x.key);
      hide *;
      InsertNew(x, nodes, stack, bp, bq, path, j);
      SplitAt(Before(path), [x], After(path));
    }

    /** The rest of `krmq_insert`, once the place of `x` is known. */
    method InsertNew(x: Node, nodes: seq<Node>, stack: seq<bool>, bp: Node?, bq: Node?, ghost path: Path, ghost j: nat)
      requires Valid() && Count(tree) + 1 < UNSIGNED
      requires Plug(path, Leaf) == tree && Walk(mem, path, null) && Along(nodes, path)
      requires AllBelow(Before(path), x.key) && AllAbove(After(path), x.key)
      requires if path == [] then bp == null else Staged(path, j, stack, bp, bq)
      modifies this, mem.Keys, x
      ensures Valid() && Order(tree) == Before(path) + [x] + After(path)
    {
      if |nodes| == 0 {
        EmptyPlace(path, nodes, x);
        hide *;
        InsertFirst(x);
      } else {
        InsertDeep(x, nodes, stack, bp, bq, path, j);
      }
    }

    method InsertDeep(x: Node, nodes: seq<Node>, stack: seq<bool>, bp: Node?, bq: Node?, ghost path: Path, ghost j: nat)
      requires Valid() && Count(tree) + 1 < UNSIGNED && path != []
      requires Plug(path, Leaf) == tree && Walk(mem, path, null) && Along(nodes, path)
      requires AllBelow(Before(path), x.key) && AllAbove(After(path), x.key)
      requires Staged(path, j, stack, bp, bq)
      modifies this, mem.Keys, x
      ensures Valid() && Order(tree) == Before(path) + [x] + After(path)
    {
      hide *;
      StagedThere(path, j, stack, bp, bq);
      PlaceFacts(x, path, j);
      var r;
      ghost var m, t;
      r, m, t := InsertBelow(x, nodes, stack, bp, bq, mem, path, j);
      if r != null {
        root := r;
      }
      tree, mem := t, m;
      ValidNow();
    }

    lemma PlaceFacts(x: Node, path: Path, j: nat)
      requires Valid() && Count(tree) + 1 < UNSIGNED && path != []
      requires Plug(path, Leaf) == tree && Walk(mem, path, null)
      requires AllBelow(Before(path), x.key) && AllAbove(After(path), x.key)
      ensures Synced(mem) && x !in mem && mem.Keys == PathNodes(path) == Nodes(Plug(path, Leaf))
      ensures PathMins(path, {}) && root == path[0].node
      ensures Distinct(tree) && Sized(tree) && Balanced(tree) && Mins(tree)
      ensures Ascending(Before(path) + [x] + After(path)) && |Before(path) + [x] + After(path)| < UNSIGNED
    {
      PathPlace(path, x, tree);
      LinkFacts(mem, path, x, j);
      PlugRoot(path, Leaf);
    }

    lemma ValidNow()
      requires root == tree.Root() && Synced(mem) && Rep(mem, tree) && mem.Keys == Nodes(tree)
      requires Distinct(tree) && Sized(tree) && Balanced(tree) && Mins(tree) && Ascending(Order(tree))
      requires |Order(tree)| < UNSIGNED
      ensures Valid()
    {
      OrderNodes(tree);
    }

    /** `krmq_rmq`: a lightest of the nodes with keys from `lo` to `up`, or null when there are none. */
    method Rmq(lo: int, up: int) returns (r: Node?)
      requires Valid()
      ensures r == null <==> forall n :: n in Nodes(tree) ==> !(lo <= n.key <= up)
      ensures r != null ==> r in Nodes(tree) && lo <= r.key <= up
      ensures r != null ==> forall n :: n in Nodes(tree) && lo <= n.key <= up ==> r.weight <= n.weight
    {
      DepthBound(tree);
      r := KrmqQuery.Rmq(root, lo, up, mem, tree);
      hide Nodes;
      assert forall n :: n in KrmqQuery.Range(tree, lo, up) <==> n in Nodes(tree) && lo <= n.key <= up;
    }

    /** `krmq_itr_first` and repeated `krmq_itr_next`. */
    method Traverse() returns (order: seq<Node>)
      requires Valid()
      ensures order == Order(tree)
    {
      DepthBound(tree);
      order := KrmqIterate.InOrder(root, mem, tree);
    }

    /** The search of `krmq_erase`: the node with the key, the path to it below `fake`, and its rank. */
    method Seek(key: int, fake: Node)
      returns (p: Node?, cnt: nat, nodes: seq<Node>, dirs: seq<bool>, ghost path: Path, ghost t: Tree)
      requires Valid()
      ensures p == null ==> forall n :: n in Nodes(tree) ==> n.key != key
      ensures p != null ==>
        && t.Fork? && p == t.node && p.key == key && Plug(path, t) == tree && p in Nodes(tree)
        && cnt == |Before(path)| + |Order(t.left)| + 1
        && Along(nodes, [FakeFrame(fake)] + path) && Turns(dirs, [FakeFrame(fake)] + path)
    {
      hide Leads, Ascending, Ranks, Distinct, Balanced, Mins, Rep, Order, Step, Before, Along, Turns, FakeFrame;
      FakeAlone(fake);
      DepthBound(tree);
      nodes, dirs := [fake], [false];
      p, cnt, path, t := root, 0, [], tree;
      LeadsStart(mem, tree, key);
      while p != null && p.key != key
        invariant p == t.Root() && Leads(mem, tree, path, t, key) && Sized(t) && cnt == |Before(path)|
        invariant Along(nodes, [FakeFrame(fake)] + path) && Turns(dirs, [FakeFrame(fake)] + path)
        decreases t
      {
        LeadsFacts(mem, tree, path, t, key);
        ForkRep(mem, t, false);
        var which := key > p.key;
        if which {
          var n := LeftSize(p, mem, t);
          cnt := cnt + n + 1;
        }
        LeadsStep(mem, tree, path, t, key, which);
        AlongLength(nodes, [FakeFrame(fake)] + path);
        PathShort(path, t);
        assert |nodes| < MAX_DEPTH;
        AlongTurn(nodes, dirs, [FakeFrame(fake)] + path, t, which);
        FakeStep(fake, path, t, which);
        nodes, dirs := nodes + [p], dirs + [which];
        p, path, t := p.Child(which), Step(path, t, which), t.Sub(which);
      }
      LeadsFacts(mem, tree, path, t, key);
      if p == null {
        RankMissing(tree, path, key);
      } else {
        PlugNodes(path, t);
        var n := LeftSize(p, mem, t);
        cnt := cnt + n + 1;
      }
    }

    /** `krmq_erase`: takes the node with the key out; `cnt` is its rank, or 0 when there is none. */
    method Erase(key: int) returns (p: Node?, cnt: nat)
      requires Valid()
      modifies this, mem.Keys
      ensures Valid()
      ensures (forall n :: n in old(Nodes(tree)) ==> n.key != key) ==>
        p == null && cnt == 0 && tree == old(tree) && mem == old(mem)
      ensures (exists n :: n in old(Nodes(tree)) && n.key == key) ==>
        && p != null && p.key == key && 0 < cnt <= |old(Order(tree))| && old(Order(tree))[cnt - 1] == p
        && Order(tree) == old(Order(tree))[..cnt - 1] + old(Order(tree))[cnt..]
    {
      hide *;
      var fake := AboveRoot();
      var nodes, dirs;
      ghost var path, t;
      p, cnt, nodes, dirs, path, t := Seek(key, fake);
      if p == null {
        return null, 0;
      }
      CutOut(path, t, tree);
      Remove(fake, p, nodes, dirs, path, t);
    }

    /** `krmq_erase` without a key: takes the first node out. The tree must not be empty. */
    method EraseFirst() returns (p: Node, cnt: nat)
      requires Valid() && root != null
      modifies this, mem.Keys
      ensures Valid() && cnt == 1
      ensures old(Order(tree)) == [p] + Order(tree)
    {
      hide *;
      var fake := AboveRoot();
      var nodes, dirs;
      ghost var path, t;
      p, nodes, dirs, path, t := SeekFirst(fake);
      cnt := 1;
      FirstOut(path, t, tree);
      Remove(fake, p, nodes, dirs, path, t);
    }

    /** The leftmost node: all the left links are followed, and the last step is taken back. */
    method SeekFirst(fake: Node) returns (p: Node, nodes: seq<Node>, dirs: seq<bool>, ghost path: Path, ghost t: Tree)
      requires Valid() && root != null
      ensures t.Fork? && t.left == Leaf && p == t.node && Plug(path, t) == tree && Lefts(path)
      ensures Along(nodes, [FakeFrame(fake)] + path) && Turns(dirs, [FakeFrame(fake)] + path)
    {
      hide Rep, Distinct, Balanced, Mins, Sized, Ascending, Order, Along, Turns, FakeFrame, Step, Plug, Lefts;
      FakeAlone(fake);
      DepthBound(tree);
      LeftsNone();
      nodes, dirs := [fake], [false];
      var q := root;
      ghost var c := tree;
      path, t := [], tree;
      ghost var above: Path := [];
      PlugNone(tree);
      while q != null
        invariant q == c.Root() && Rep(mem, c) && Plug(path, c) == tree && Lefts(path) && Synced(mem)
        invariant Along(nodes, [FakeFrame(fake)] + path) && Turns(dirs, [FakeFrame(fake)] + path)
        invariant |nodes| == |dirs| == |path| + 1
        invariant path == [] ==> c == tree
        invariant path != [] ==>
          && t.Fork? && path == Step(above, t, false) && c == t.left && Plug(above, t) == tree && Lefts(above)
          && nodes[|nodes| - 1] == t.node
        decreases c
      {
        ForkRep(mem, c, false);
        PathShort(path, c);
        assert |nodes| < MAX_DEPTH;
        AlongTurn(nodes, dirs, [FakeFrame(fake)] + path, c, false);
        FakeStep(fake, path, c, false);
        PlugStep(path, c, false);
        LeftsStep(path, c);
        nodes, dirs := nodes + [q], dirs + [false];
        above, t := path, c;
        path, c := Step(path, c, false), c.left;
        q := q.p0;
      }
      p := nodes[|nodes| - 1];
      AlongBack(nodes, dirs, fake, above, t);
      nodes, dirs, path := nodes[..|nodes| - 1], dirs[..|dirs| - 1], above;
    }

    /** The node `fake` of `krmq_erase`, with the tree on its left. What C leaves unset may hold anything. */
    method AboveRoot() returns (fake: Node)
      ensures fresh(fake) && fake.Fields() == Cell(root, null, fake, 0, 0)
    {
      fake := new Node(0, 0);
      fake.p0, fake.p1, fake.s := root, null, fake;
    }

    /** The rest of `krmq_erase`, once the node is found. */
    method Remove(fake: Node, p: Node, nodes: seq<Node>, dirs: seq<bool>, ghost path: Path, ghost t: Tree)
      requires Valid() && fake !in mem && fake.Fields() == Cell(root, null, fake, 0, 0)
      requires t.Fork? && p == t.node && Plug(path, t) == tree
      requires Along(nodes, [FakeFrame(fake)] + path) && Turns(dirs, [FakeFrame(fake)] + path)
      modifies this, mem.Keys, fake
      ensures Valid() && Order(tree) == Before(path) + (Order(t.left) + Order(t.right)) + After(path)
    {
      hide *;
      ghost var m := mem[fake := fake.Fields()];
      SyncedFake(m, fake);
      RemoveFacts(m, fake, path, t);
      ghost var whole, m';
      whole, m' := Detach(fake, p, nodes, dirs, m, path, t);
      root := fake.p0;
      tree, mem := whole, m';
      ValidNow();
    }

    lemma SyncedFake(m: Memory, fake: Node)
      requires Valid() && m == mem[fake := fake.Fields()]
      ensures Synced(m)
    {
    }

    lemma RemoveFacts(m: Memory, fake: Node, path: Path, t: Tree)
      requires Valid() && fake !in mem && t.Fork? && Plug(path, t) == tree
      requires m == mem[fake := Cell(root, null, fake, 0, 0)]
      ensures Config(m, [FakeFrame(fake)] + path, t) && Found([FakeFrame(fake)] + path, t) && m.Keys == mem.Keys + {fake}
      ensures var order := Before(path) + (Order(t.left) + Order(t.right)) + After(path);
        Ascending(order) && |order| < UNSIGNED
    {
      hide *;
      ValidParts();
      DepthBound(tree);
      FakeConfig(mem, m, fake, tree, path, t);
      FakeFound(fake, tree, path, t);
      OrderNodes(tree);
      CutOut(path, t, tree);
      AscendingWithout(Order(tree), |Before(path)| + |Order(t.left)|);
    }

    lemma ValidParts()
      requires Valid()
      ensures Synced(mem) && Rep(mem, tree) && mem.Keys == Nodes(tree) && root == tree.Root()
      ensures Distinct(tree) && Sized(tree) && Balanced(tree) && Mins(tree) && Ascending(Order(tree))
      ensures Count(tree) < UNSIGNED && Count(tree) < 0x1_0000_0000
    {
    }

    /** `krmq_insert` into an empty tree. */
    method InsertFirst(x: Node)
      requires Valid() && tree == Leaf
      modifies this, x
      ensures Valid() && Order(tree) == [x]
    {
      x.balance, x.size, x.p0, x.p1, x.s := 0, 1, null, null, x;
      root := x;
      tree, mem := Single(x), map[x := x.Fields()];
      SingleFacts(x);
    }
  }

  lemma {:induction false} PlugRoot(path: Path, t: Tree)
    requires path != []
    ensures Plug(path, t).Root() == path[0].node
    decreases |path|
  {
    var k := |path| - 1;
    if k > 0 {
      PlugRoot(path[..k], Fill(path[k], t));
    }
  }

  /** Where the passes of an insertion leave the nodes around the critical frame. */
  lemma AfterPasses(m: Memory, path: Path, j: nat, p: Path, x: Node, bp: Node, bq: Node?)
    requires Synced(m) && Walk(m, p, x) && Passed(path, j, p) && x !in PathNodes(path)
    requires Critical(path, j) && bp == path[j].node && bq == (if j > 0 then path[j - 1].node else null)
    requires Balanced(Plug(path, Leaf))
    ensures bp == p[j].node && bp.balance == p[j].balance && -2 <= p[j].balance <= 2
    ensures bq == (if j > 0 then p[j - 1].node else null)
    ensures PathNodes(p) !! Nodes(Single(x)) && p != [] && p[0].node == path[0].node
    ensures Nodes(Plug(path, Leaf)) == PathNodes(path)
  {
    WalkCell(m, p, x, j);
    SingleFacts(x);
    PassedBelow(path, j, p, Single(x));
    assert SameShape(path, p);
    SameShapeKeeps(path, p);
    PlugNodes(path, Leaf);
  }

  /** The tree after the rotation of an insertion. */
  lemma AfterRotation(path: Path, j: nat, p: Path, x: Node, t: Tree)
    requires Balanced(Plug(path, Leaf)) && Critical(path, j) && Passed(path, j, p)
    requires Sized(Plug(p, Single(x))) && Distinct(Plug(p, Single(x))) && Mins(Plug(p, Single(x)))
    requires Settles(Below(p, j, Single(x)), t) && Height(t) == Height(Below(path, j, Leaf))
    ensures var t' := Plug(p[..j], t);
      && Distinct(t') && Sized(t') && Balanced(t') && Mins(t') && Order(t') == Order(Plug(p, Single(x)))
      && Nodes(t') == Nodes(Plug(p, Single(x)))
      && t'.Root() == if j == 0 then t.Root() else p[0].node
  {
    BelowWhole(p, j, Single(x));
    AboveCritical(path, j, p, t);
    ReplaceSound(p[..j], Below(p, j, Single(x)), t);
    if j > 0 {
      PlugRoot(p[..j], t);
    }
  }

  /**
   `krmq_insert` from the link of `x` on. The result is the root that a rotation at the top
   brings up, or null when the root stays.
   */
  method InsertBelow(x: Node, nodes: seq<Node>, stack: seq<bool>, bp: Node, bq: Node?, ghost m: Memory, ghost path: Path, ghost j: nat)
    returns (r: Node?, ghost m': Memory, ghost t': Tree)
    requires Synced(m) && Walk(m, path, null) && Along(nodes, path) && path != [] && x !in m && x !in PathNodes(path)
    requires PathNodes(path) <= m.Keys && PathMins(path, {})
    requires Staged(path, j, stack, bp, bq)
    requires Distinct(Plug(path, Leaf)) && Sized(Plug(path, Leaf)) && Balanced(Plug(path, Leaf)) && Mins(Plug(path, Leaf))
    modifies m.Keys, x
    ensures Synced(m') && m'.Keys == m.Keys + {x} && Rep(m', t')
    ensures Distinct(t') && Sized(t') && Balanced(t') && Mins(t') && Order(t') == Before(path) + [x] + After(path)
    ensures Nodes(t') == Nodes(Plug(path, Leaf)) + {x}
    ensures t'.Root() == if r != null then r else path[0].node
  {
    LastOf(nodes, path, stack, j, bp, bq);
    PathNode(path, |path| - 1);
    assert nodes[|nodes| - 1] == path[|path| - 1].node;
    assert j < |path|;
    hide *;
    ghost var m1, m2, p;
    m1 := LinkNew(x, nodes[|nodes| - 1], stack[|stack| - 1], m, path);
    m2, p := Passes(nodes, stack, x, bp, m1, path, j);
    KeysKept(m1, m2, Spine(path));
    PassedSound(path, j, p, x);
    AfterPasses(m2, path, j, p, x, bp, bq);
    if bp.balance > -2 && bp.balance < 2 {
      SingleFacts(x);
      SettledAlready(path, j, p, Single(x));
      r, m', t' := null, m2, Plug(p, Single(x));
      WalkRep(m2, p, Single(x), x);
      PlugRoot(p, Single(x));
      return;
    }
    var up;
    ghost var t;
    up, m', t := Rebalance(bp, bq, m2, path, j, p, x);
    t' := Plug(p[..j], t);
    AfterRotation(path, j, p, x, t);
    r := if bq == null then up else null;
  }

  lemma WalkRep(m: Memory, p: Path, t: Tree, x: Node)
    requires Walk(m, p, x) && t == Single(x) && Rep(m, t)
    ensures Rep(m, Plug(p, t))
  {
    RepPlug(m, p, t);
  }

  lemma InsertAscending(a: seq<Node>, x: Node, b: seq<Node>)
    requires Ascending(a + b) && AllBelow(a, x.key) && AllAbove(b, x.key)
    ensures Ascending(a + [x] + b)
  {
    var s := a + [x] + b;
    forall i, k | 0 <= i < k < |s|
      ensures s[i].key < s[k].key
    {
      if k < |a| {
        assert (a + b)[i] == s[i] && (a + b)[k] == s[k];
      } else if i > |a| {
        assert (a + b)[i - 1] == s[i] && (a + b)[k - 1] == s[k];
      }
    }
  }

  /** The place of a new key. */
  lemma PathPlace(path: Path, x: Node, tree: Tree)
    requires Plug(path, Leaf) == tree && AllBelow(Before(path), x.key) && AllAbove(After(path), x.key)
    requires Ascending(Order(tree))
    ensures Ascending(Before(path) + [x] + After(path)) && |Before(path) + [x] + After(path)| == Count(tree) + 1
    ensures x !in Nodes(tree) && PathNodes(path) == Nodes(tree)
  {
    PlugNodes(path, Leaf);
    OrderNodes(tree);
    RankMissing(tree, path, x.key);
    hide *;
    InsertAscending(Before(path), x, After(path));
  }

  lemma EmptyPlace(path: Path, nodes: seq<Node>, x: Node)
    requires Along(nodes, path) && |nodes| == 0
    ensures path == [] && Plug(path, Leaf) == Leaf && Before(path) + [x] + After(path) == [x]
  {
  }

  lemma FakeAlone(fake: Node)
    ensures Along([fake], [FakeFrame(fake)] + []) && Turns([false], [FakeFrame(fake)] + [])
  {
  }

  lemma CutSeq(a: seq<Node>, l: seq<Node>, n: Node, r: seq<Node>, b: seq<Node>)
    ensures var s, k := a + (l + [n] + r) + b, |a| + |l|;
      k < |s| && s[k] == n && a + (l + r) + b == s[..k] + s[k + 1..]
  {
  }

  /** The order without the root of `t`. */
  lemma CutOut(path: Path, t: Tree, tree: Tree)
    requires t.Fork? && Plug(path, t) == tree
    ensures var order, k := Order(tree), |Before(path)| + |Order(t.left)|;
      && k < |order| && order[k] == t.node
      && Before(path) + (Order(t.left) + Order(t.right)) + After(path) == order[..k] + order[k + 1..]
  {
    hide *;
    PlugOrder(path, t);
    MakeOrder(t);
    CutSeq(Before(path), Order(t.left), t.node, Order(t.right), After(path));
  }

  lemma FrameZero(fake: Node, path: Path)
    ensures var all := [FakeFrame(fake)] + path;
      all != [] && all[0].node == fake && all[1..] == path
  {
  }

  /** The tree without the root of `t`, and its memory; `fake` points to it. */
  method Detach(fake: Node, p: Node, nodes: seq<Node>, dirs: seq<bool>, ghost m: Memory, ghost path: Path, ghost t: Tree)
    returns (ghost whole: Tree, ghost m': Memory)
    requires Synced(m) && fake in m && t.Fork? && p == t.node
    requires Along(nodes, [FakeFrame(fake)] + path) && Turns(dirs, [FakeFrame(fake)] + path)
    requires Config(m, [FakeFrame(fake)] + path, t) && Found([FakeFrame(fake)] + path, t)
    modifies m.Keys
    ensures fake.p0 == whole.Root() && Synced(m') && Rep(m', whole) && m'.Keys == Nodes(whole) && m'.Keys <= m.Keys
    ensures Sized(whole) && Distinct(whole) && Mins(whole) && Balanced(whole)
    ensures Order(whole) == Before(path) + (Order(t.left) + Order(t.right)) + After(path)
  {
    hide *;
    ghost var all := [FakeFrame(fake)] + path;
    FrameZero(fake, path);
    ghost var m1, top, t';
    m1, top, whole, t' := EraseFound(p, nodes, dirs, m, all, t);
    ErasedOrderIs(all, t, t');
    m' := FakeDone(m1, top, whole);
    FakePoints(m1, fake);
    SyncedPart(m1, m');
  }

  ghost predicate Lefts(path: Path) {
    forall i :: 0 <= i < |path| ==> !path[i].dir
  }

  lemma LeftsNone()
    ensures Lefts([])
  {
  }

  lemma PlugNone(t: Tree)
    ensures Plug([], t) == t
  {
  }

  lemma LeftsStep(path: Path, t: Tree)
    requires t.Fork? && Lefts(path)
    ensures Lefts(Step(path, t, false)) && |Step(path, t, false)| == |path| + 1
  {
  }

  lemma AlongBack(nodes: seq<Node>, dirs: seq<bool>, fake: Node, path: Path, t: Tree)
    requires t.Fork? && |nodes| == |dirs| && nodes != []
    requires Along(nodes, [FakeFrame(fake)] + Step(path, t, false)) && Turns(dirs, [FakeFrame(fake)] + Step(path, t, false))
    ensures Along(nodes[..|nodes| - 1], [FakeFrame(fake)] + path) && Turns(dirs[..|dirs| - 1], [FakeFrame(fake)] + path)
  {
    FakeStep(fake, path, t, false);
  }

  lemma FirstOut(path: Path, t: Tree, tree: Tree)
    requires t.Fork? && t.left == Leaf && Plug(path, t) == tree && Lefts(path)
    ensures Order(tree) == [t.node] + (Before(path) + (Order(t.left) + Order(t.right)) + After(path))
  {
    hide *;
    PlugOrder(path, t);
    LeftsBefore(path);
    OnlyRight(t);
    LeafOrder();
    FirstSeq(t.node, Order(t.right), After(path));
  }

  lemma FirstSeq(n: Node, r: seq<Node>, b: seq<Node>)
    ensures [] + ([n] + r) + b == [n] + ([] + ([] + r) + b)
  {
  }

  lemma LeftsBefore(path: Path)
    requires Lefts(path)
    ensures Before(path) == []
  {
    LeftTurns(path);
  }

  lemma LeafOrder()
    ensures Order(Leaf) == []
  {
  }

  lemma AscendingWithout(order: seq<Node>, k: nat)
    requires Ascending(order) && k < |order|
    ensures Ascending(order[..k] + order[k + 1..])
  {
    var s := order[..k] + order[k + 1..];
    assert forall i :: 0 <= i < |s| ==> s[i] == order[if i < k then i else i + 1];
  }

  lemma FakePoints(m: Memory, fake: Node)
    requires Synced(m) && fake in m
    ensures m[fake].p0 == fake.p0
  {
  }

  lemma SyncedPart(m: Memory, m': Memory)
    requires Synced(m) && forall n :: n in m' ==> n in m && m'[n] == m[n]
    ensures Synced(m')
  {
  }

  lemma StagedThere(path: Path, j: nat, stack: seq<bool>, bp: Node?, bq: Node?)
    requires Staged(path, j, stack, bp, bq)
    ensures bp != null
  {
  }

  lemma LastOf(nodes: seq<Node>, path: Path, stack: seq<bool>, j: nat, bp: Node?, bq: Node?)
    requires Along(nodes, path) && Last(nodes) != null && (path != [] ==> Staged(path, j, stack, bp, bq))
    ensures path != [] && Last(nodes) == path[|path| - 1].node && |stack| > 0
    ensures stack[|stack| - 1] == path[|path| - 1].dir
    ensures Critical(path, j) && bp == path[j].node && bq == (if j > 0 then path[j - 1].node else null)
    ensures |stack| == |path| - j && forall k :: 0 <= k < |stack| ==> stack[k] == path[j + k].dir
  {
  }

  lemma LinkFacts(m: Memory, path: Path, x: Node, j: nat)
    requires Walk(m, path, null) && path != [] && Mins(Plug(path, Leaf))
    ensures path[|path| - 1].node in m && PathMins(path, {})
  {
    WalkCell(m, path, null, |path| - 1);
    PlugMins(path, Leaf);
  }

  lemma FoundIn(t: Tree, n: Node, k: nat)
    requires k < |Order(t)| && Order(t)[k] == n
    ensures n in Nodes(t)
  {
    OrderNodes(t);
  }

  lemma SplitAt(a: seq<Node>, x: seq<Node>, b: seq<Node>)
    ensures a + x + b == (a + b)[..|a|] + x + (a + b)[|a|..]
  {
  }

  lemma LeadsWalk(m: Memory, path: Path, t: Tree)
    requires PathRep(m, path, t.Root()) && Distinct(Plug(path, t))
    ensures Walk(m, path, t.Root()) && PathNodes(path) !! Nodes(t) && Distinct(t)
    ensures t.Root() == null ==> t == Leaf
  {
    PlugDistinct(path, t);
  }

  lemma AlongStep(nodes: seq<Node>, path: Path, t: Tree, which: bool)
    requires Along(nodes, path) && t.Fork?
    ensures Along(nodes + [t.node], Step(path, t, which)) && Step(path, t, which) != []
    ensures |nodes| == |path| && Last(nodes) == if path == [] then null else path[|path| - 1].node
  {
  }

  /** What the search remembers for rebalancing: the node `bp` of frame `j`, the one above it, and the turns from `bp` on. */
  ghost predicate Staged(path: Path, j: nat, stack: seq<bool>, bp: Node?, bq: Node?) {
    && Critical(path, j) && bp == path[j].node && bq == (if j > 0 then path[j - 1].node else null)
    && |stack| == |path| - j && forall k :: 0 <= k < |stack| ==> stack[k] == path[j + k].dir
  }

  lemma StagedStep(path: Path, j: nat, stack: seq<bool>, bp: Node?, bq: Node?, t: Tree, which: bool)
    requires t.Fork?
    requires if path == [] then bp == t.node && bq == null && stack == [] && j == 0 else Staged(path, j, stack, bp, bq)
    ensures var path' := Step(path, t, which);
      if t.balance != 0 then
        Staged(path', |path|, [which], t.node, if path == [] then null else path[|path| - 1].node)
      else Staged(path', j, stack + [which], bp, bq)
  {
  }

  /** A path ends above the leaves. */
  lemma PathShort(path: Path, t: Tree)
    requires t.Fork?
    ensures |path| + 1 <= Height(Plug(path, t))
  {
    PlugHeight(path, t);
    ForkHeight(t);
  }

  lemma ForkHeight(t: Tree)
    requires t.Fork?
    ensures Height(t) >= 1
  {
  }

  function Last(order: seq<Node>): Node? {
    if order == [] then null else order[|order| - 1]
  }

  function First(order: seq<Node>): Node? {
    if order == [] then null else order[0]
  }

  lemma StepEnds(path: Path, t: Tree, dir: bool)
    requires t.Fork?
    ensures Last(Before(Step(path, t, dir))) == if dir then t.node else Last(Before(path))
    ensures First(After(Step(path, t, dir))) == if dir then First(After(path)) else t.node
  {
    assert Step(path, t, dir)[..|path|] == path;
  }

  lemma EndsAreNeighbours(a: seq<Node>, b: seq<Node>)
    ensures Last(a) == if |a| > 0 then (a + b)[|a| - 1] else null
    ensures First(b) == if |a| < |a + b| then (a + b)[|a|] else null
  {
  }

  lemma LeadsFacts(m: Memory, tree: Tree, path: Path, t: Tree, key: int)
    requires Leads(m, tree, path, t, key)
    ensures Rep(m, t) && Plug(path, t) == tree && PathRep(m, path, t.Root())
    ensures AllBelow(Before(path), key) && AllAbove(After(path), key)
  {
  }
}
