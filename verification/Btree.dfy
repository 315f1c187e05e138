/** The B-tree object of ext/klib/kbtree.h: a set of keys in order. */
module Btree {
  import opened BtreeNode
  import opened BtreeShape
  import opened Kbtree
  import opened KbtreeDelete
  import opened Powers

  datatype Option = None | Some(key: int)

  /** `key` is the greatest key of the ascending `s` that is at most `k`, if there is one. */
  ghost predicate IsLower(s: seq<int>, k: int, key: Option) {
    match key
    case None => forall n :: n in s ==> k < n
    case Some(l) => l in s && l <= k && forall n :: n in s && n <= k ==> n <= l
  }

  /** `key` is the least key of the ascending `s` that is at least `k`, if there is one. */
  ghost predicate IsUpper(s: seq<int>, k: int, key: Option) {
    match key
    case None => forall n :: n in s ==> n < k
    case Some(u) => u in s && k <= u && forall n :: n in s && k <= n ==> u <= n
  }

  function LastOf(s: seq<int>): Option {
    if s == [] then None else Some(s[|s| - 1])
  }

  function FirstOf(s: seq<int>): Option {
    if s == [] then None else Some(s[0])
  }

  /** Where `k` is, seen from the subtree `c` on the way down. */
  ghost predicate Between(order: seq<int>, pre: seq<int>, c: Tree, post: seq<int>, k: int) {
    order == pre + Order(c) + post && AllBelow(pre, k) && AllAbove(post, k)
  }

  lemma BetweenDown(order: seq<int>, pre: seq<int>, c: Tree, post: seq<int>, k: int, i: nat)
    requires Between(order, pre, c, post, k) && Ascending(order) && |c.kids| == |c.keys| + 1 && i <= |c.keys|
    requires (i > 0 ==> c.keys[i - 1] < k) && (i < |c.keys| ==> k < c.keys[i])
    ensures Between(order, pre + HeadOf(c, i), c.kids[i], TailOf(c, i) + post, k)
    ensures LastOf(pre + HeadOf(c, i)) == if i > 0 then Some(c.keys[i - 1]) else LastOf(pre)
    ensures FirstOf(TailOf(c, i) + post) == if i < |c.keys| then Some(c.keys[i]) else FirstOf(post)
  {
    hide Order, HeadOf, TailOf;
    AscendingThree(pre, Order(c), post);
    Place(c, i, k);
    SidesEnd(c, i);
    LastBehind(pre, HeadOf(c, i));
    FirstBefore(TailOf(c, i), post);
    Inside(pre, HeadOf(c, i), Order(c.kids[i]), TailOf(c, i), post);
  }

  /** The keys next to child `i`. */
  lemma SidesEnd(c: Tree, i: nat)
    requires |c.kids| == |c.keys| + 1 && i <= |c.keys|
    ensures LastOf(HeadOf(c, i)) == if i > 0 then Some(c.keys[i - 1]) else None
    ensures FirstOf(TailOf(c, i)) == if i < |c.keys| then Some(c.keys[i]) else None
  {
    if i > 0 {
      HeadEnds(c.keys[..i], Orders(c.kids[..i]));
    } else {
      assert HeadOf(c, i) == [];
    }
  }

  lemma LastBehind(a: seq<int>, b: seq<int>)
    ensures LastOf(a + b) == if b == [] then LastOf(a) else LastOf(b)
  {
    assert b == [] ==> a + b == a;
  }

  lemma FirstBefore(a: seq<int>, b: seq<int>)
    ensures FirstOf(a + b) == if a == [] then FirstOf(b) else FirstOf(a)
  {
    assert a == [] ==> a + b == b;
  }

  lemma Inside(a: seq<int>, b: seq<int>, c: seq<int>, d: seq<int>, e: seq<int>)
    ensures a + (b + c + d) + e == (a + b) + c + (d + e)
  {
  }

  lemma BetweenHas(order: seq<int>, pre: seq<int>, c: Tree, post: seq<int>, k: int)
    requires Between(order, pre, c, post, k)
    ensures k in order <==> k in Order(c)
  {
    hide Order;
  }

  lemma EndsAre(pre: seq<int>, post: seq<int>, k: int)
    requires AllBelow(pre, k) && AllAbove(post, k) && Ascending(pre) && Ascending(post)
    ensures IsLower(pre + post, k, LastOf(pre)) && IsUpper(pre + post, k, FirstOf(post))
  {
    var s := pre + post;
    assert pre != [] ==> s[|pre| - 1] == pre[|pre| - 1];
    assert post != [] ==> s[|pre|] == post[0];
    forall n | n in s
      ensures n in pre || n in post
    {
    }
  }

  lemma BetweenLeaf(order: seq<int>, pre: seq<int>, c: Tree, post: seq<int>, k: int, i: nat)
    requires Between(order, pre, c, post, k) && Ascending(order) && Order(c) == c.keys && i <= |c.keys|
    requires (i > 0 ==> c.keys[i - 1] < k) && (i < |c.keys| ==> k < c.keys[i])
    ensures IsLower(order, k, if i > 0 then Some(c.keys[i - 1]) else LastOf(pre))
    ensures IsUpper(order, k, if i < |c.keys| then Some(c.keys[i]) else FirstOf(post))
  {
    hide *;
    BetweenParts(order, pre, c, post, k);
    var a, b := c.keys[..i], c.keys[i..];
    assert order == (pre + a) + (b + post);
    LeafEnds(pre, c.keys, post, k, i);
    AscendingTwo(pre + a, b + post);
    EndsAre(pre + a, b + post, k);
  }

  lemma BetweenParts(order: seq<int>, pre: seq<int>, c: Tree, post: seq<int>, k: int)
    requires Between(order, pre, c, post, k) && Ascending(order)
    ensures order == pre + Order(c) + post && AllBelow(pre, k) && AllAbove(post, k) && Ascending(Order(c))
  {
    hide Order;
    AscendingThree(pre, Order(c), post);
  }

  lemma LeafEnds(pre: seq<int>, keys: seq<int>, post: seq<int>, k: int, i: nat)
    requires AllBelow(pre, k) && AllAbove(post, k) && Ascending(keys) && i <= |keys|
    requires (i > 0 ==> keys[i - 1] < k) && (i < |keys| ==> k < keys[i])
    ensures AllBelow(pre + keys[..i], k) && AllAbove(keys[i..] + post, k)
    ensures LastOf(pre + keys[..i]) == if i > 0 then Some(keys[i - 1]) else LastOf(pre)
    ensures FirstOf(keys[i..] + post) == if i < |keys| then Some(keys[i]) else FirstOf(post)
  {
  }

  lemma AscendingTwo(a: seq<int>, b: seq<int>)
    requires Ascending(a + b)
    ensures Ascending(a) && Ascending(b)
  {
    assert a + b == a + b + [];
    AscendingThree(a, b, []);
  }

  // ---- height --------------------------------------------------------------------------------------

  lemma {:induction false} WeaveLong(keys: seq<int>, parts: seq<seq<int>>, n: nat)
    requires |parts| == |keys| + 1 && forall i :: 0 <= i < |parts| ==> n <= |parts[i]|
    ensures |Weave(keys, parts)| + 1 >= |parts| * (n + 1)
    decreases keys
  {
    if keys != [] {
      WeaveLong(keys[1..], parts[1..], n);
      assert |parts| * (n + 1) == |parts[1..]| * (n + 1) + (n + 1);
    }
  }

  /** A subtree of height `h` whose root has `t - 1` keys or more has `t^(h + 1) - 1` or more. */
  lemma {:induction false} EnoughKeys(c: Tree, h: nat, t: nat)
    requires t >= 2 && Fits(c, h, t) && t - 1 <= |c.keys|
    ensures |Order(c)| + 1 >= Power(t, h + 1)
    decreases h
  {
    if h > 0 {
      KidsEnough(c, h, t);
      assert |c.kids| * Power(t, h) >= t * Power(t, h) by { MoreTimes(|c.kids|, t, Power(t, h)); }
    }
  }

  lemma MoreTimes(a: nat, b: nat, p: nat)
    requires a >= b
    ensures a * p >= b * p
  {
    assert a * p == b * p + (a - b) * p;
  }

  lemma KidsEnough(c: Tree, h: nat, t: nat)
    requires t >= 2 && Fits(c, h, t) && h > 0
    ensures |Order(c)| + 1 >= |c.kids| * Power(t, h)
    decreases h, 0
  {
    var n := Power(t, h);
    PowerOne(t, h);
    forall i | 0 <= i < |c.kids|
      ensures n - 1 <= |Orders(c.kids)[i]|
    {
      OrdersAt(c.kids, i);
      EnoughKeys(c.kids[i], h - 1, t);
    }
    WeaveLong(c.keys, Orders(c.kids), n - 1);
  }

  function Power(b: nat, e: nat): nat {
    if e == 0 then 1 else b * Power(b, e - 1)
  }

  lemma {:induction false} PowerOne(b: nat, e: nat)
    requires b >= 2
    ensures Power(b, e) >= Pow2(e) >= 1
  {
    if e > 0 {
      PowerOne(b, e - 1);
      MoreTimes(b, 2, Power(b, e - 1));
    }
  }

  class BTree {
    const t: nat
    var root: Node
    var nKeys: nat
    ghost var tree: Tree
    ghost var height: nat
    ghost var mem: Memory

    ghost predicate Valid()
      reads this, mem.Keys, set n | n in mem :: n.keys, set n | n in mem :: n.ptr
    {
      && t >= 2 && Synced(mem, 2 * t - 1) && Owned(mem) && Holds(mem, tree, height, t) && root == tree.node
      && nKeys == |Order(tree)| && (height > 0 ==> 1 <= |tree.keys|)
    }

    /** The keys in order. */
    ghost function Keys(): seq<int>
      reads this
    {
      Order(tree)
    }

    /** What a caller can rely on between two calls. */
    lemma Shape()
      requires Valid()
      ensures Ascending(Keys()) && |Keys()| == nKeys && Fits(tree, height, t)
      ensures height > 0 ==> 2 * Power(t, height) <= nKeys + 1
    {
      HoldsParts(mem, tree, height, t);
      if height > 0 {
        KidsEnough(tree, height, t);
        MoreTimes(|tree.kids|, 2, Power(t, height));
      }
    }

    /** A path from the root is shorter than the stack of an iterator, as long as an `int` counts the keys. */
    lemma DepthBound()
      requires Valid() && nKeys < 0x8000_0000
      ensures height + 2 < 64
    {
      Shape();
      if height > 30 {
        PowerOne(t, height);
        Pow2Monotone(31, height);
        Pow2At32();
      }
    }

    constructor (t: nat)
      requires t >= 2
      ensures Valid() && Keys() == [] && this.t == t && fresh(Foot(mem))
    {
      var r := new Node(false, 2 * t - 1);
      this.t := t;
      root := r;
      nKeys := 0;
      tree := Tree(r, [], []);
      height := 0;
      mem := map[r := Cell([], [])];
      new;
      assert Roots([]) == [] && Order(tree) == [];
    }

    /** `kb_getp`: the node and the place of `k`; null iff it is absent. */
    method Get(k: int) returns (x: Node?, i: int)
      requires Valid()
      ensures x == null <==> k !in Keys()
      ensures x != null ==> x in mem && 0 <= i < x.n <= x.keys.Length && x.keys[i] == k
    {
      hide *;
      ghost var cap := 2 * t - 1;
      Start(k);
      ghost var c, h, pre, post := tree, height, [], [];
      x := root;
      var r := 0;
      while true
        invariant x != null && c.node == x && Holds(mem, c, h, t) && Synced(mem, cap) && t >= 2
        invariant Between(Keys(), pre, c, post, k) && Ascending(Keys()) && (h > 0 ==> 1 <= |c.keys|)
        decreases h
      {
        NodeFacts(mem, c, h, t, cap);
        i, r := GetAux(x, k, r);
        BetweenHas(Keys(), pre, c, post, k);
        if i >= 0 && r == 0 {
          HoldsParts(mem, c, h, t);
          Hit(c, x, i, k, h, t);
          return;
        }
        if !x.internal {
          MissLeaf(c, x, i, k);
          return null, i;
        }
        Beside(c, x, i, k);
        BetweenDown(Keys(), pre, c, post, k, i + 1);
        KidNode(mem, c, i + 1, h, t, cap);
        pre, post := pre + HeadOf(c, i + 1), TailOf(c, i + 1) + post;
        x := x.ptr[i + 1];
        c, h := c.kids[i + 1], h - 1;
      }
    }

    lemma Start(k: int)
      requires Valid()
      ensures Between(Keys(), [], tree, [], k) && Ascending(Keys()) && Synced(mem, 2 * t - 1) && Owned(mem) && t >= 2
      ensures Holds(mem, tree, height, t) && root == tree.node && (height > 0 ==> 1 <= |tree.keys|) && Keys() == Order(tree)
      ensures nKeys == |Keys()|
    {
    }

    /** `kb_intervalp`: the neighbours of `k`, both `k` itself if it is there. */
    method Interval(k: int) returns (lower: Option, upper: Option)
      requires Valid()
      ensures IsLower(Keys(), k, lower) && IsUpper(Keys(), k, upper)
      ensures k in Keys() ==> lower == Some(k) && upper == Some(k)
    {
      hide *;
      ghost var cap := 2 * t - 1;
      Start(k);
      ghost var c, h, pre, post := tree, height, [], [];
      var x, i, r := root, 0, 0;
      lower, upper := None, None;
      NoEnds();
      while true
        invariant c.node == x && Holds(mem, c, h, t) && Synced(mem, cap) && t >= 2
        invariant Between(Keys(), pre, c, post, k) && Ascending(Keys()) && (h > 0 ==> 1 <= |c.keys|)
        invariant lower == LastOf(pre) && upper == FirstOf(post)
        decreases h
      {
        NodeFacts(mem, c, h, t, cap);
        i, r := GetAux(x, k, r);
        BetweenHas(Keys(), pre, c, post, k);
        if i >= 0 && r == 0 {
          HoldsParts(mem, c, h, t);
          Hit(c, x, i, k, h, t);
          lower, upper := Some(x.keys[i]), Some(x.keys[i]);
          BothFound(Keys(), k);
          return;
        }
        Beside(c, x, i, k);
        if i >= 0 { lower := Some(x.keys[i]); }
        if i < x.n - 1 { upper := Some(x.keys[i + 1]); }
        if !x.internal {
          MissLeaf(c, x, i, k);
          BetweenLeaf(Keys(), pre, c, post, k, i + 1);
          return;
        }
        BetweenDown(Keys(), pre, c, post, k, i + 1);
        KidNode(mem, c, i + 1, h, t, cap);
        pre, post := pre + HeadOf(c, i + 1), TailOf(c, i + 1) + post;
        x := x.ptr[i + 1];
        c, h := c.kids[i + 1], h - 1;
      }
    }

    /** `kb_putp` of an absent key: the node and the place where it is now. */
    method Put(k: int) returns (x: Node, i: nat)
      requires Valid() && k !in Keys()
      modifies this, Foot(mem)
      ensures Valid() && fresh(Foot(mem) - old(Foot(mem)))
      ensures Keys() == With(old(Keys()), k) && nKeys == old(nKeys) + 1
      ensures forall n :: n in Keys() <==> n in old(Keys()) || n == k
      ensures x in Nodes(tree) && x in mem && i < x.n <= x.keys.Length && x.keys[i] == k
    {
      hide *;
      Start(k);
      NotInside();
      HoldsParts(mem, tree, height, t);
      NodeFacts(mem, tree, height, t, 2 * t - 1);
      WithAscending(Keys(), k);
      var r;
      ghost var m', c', h';
      r, x, i, m', c', h' := PutRoot(root, k, t, mem, tree, height);
      assert fresh(Foot(m') - Foot(mem));
      root, nKeys := r, nKeys + 1;
      mem, tree, height := m', c', h';
      MakeValid();
      StoredAt(x, i, k);
    }

    lemma StoredAt(x: Node, i: nat, k: int)
      requires Valid() && Stored(mem, tree, x, i, k)
      ensures x in Nodes(tree) && x in mem && i < x.n <= x.keys.Length && x.keys[i] == k
    {
      SyncedAt(mem, x, 2 * t - 1);
    }

    lemma NotInside()
      ensures this !in Foot(mem)
    {
    }

    lemma MakeValid()
      requires t >= 2 && Synced(mem, 2 * t - 1) && Owned(mem) && Holds(mem, tree, height, t) && root == tree.node
      requires nKeys == |Order(tree)| && (height > 0 ==> 1 <= |tree.keys|)
      ensures Valid() && Keys() == Order(tree)
    {
    }

    /** `kb_delp` of a key that is there. */
    method Del(k: int) returns (ret: int)
      requires Valid() && k in Keys()
      modifies this, Foot(mem)
      ensures Valid() && ret == k && Foot(mem) == old(Foot(mem))
      ensures Keys() == Without(old(Keys()), k) && nKeys == old(nKeys) - 1
      ensures forall n :: n in Keys() <==> n in old(Keys()) && n != k
    {
      hide *;
      Start(k);
      NotInside();
      WithoutAscending(Keys(), k);
      var r;
      ghost var m', c', h';
      ret, r, m', c', h' := DelRoot(root, k, t, mem, tree, height);
      SameFoot(mem, m');
      root, nKeys := r, nKeys - 1;
      mem, tree, height := m', c', h';
      MakeValid();
    }
  }

  lemma NoEnds()
    ensures LastOf([]) == None && FirstOf([]) == None
  {
  }

  lemma BothFound(s: seq<int>, k: int)
    requires k in s
    ensures IsLower(s, k, Some(k)) && IsUpper(s, k, Some(k))
  {
  }

  lemma Hit(c: Tree, x: Node, i: int, k: int, h: nat, t: nat)
    requires 0 <= i < x.n <= x.keys.Length && x.keys[..x.n] == c.keys && x.keys[i] == k
    requires if h == 0 then Order(c) == c.keys else |c.kids| == |c.keys| + 1
    requires Ascending(Order(c))
    ensures k in Order(c)
  {
    assert c.keys[i] == k;
    if h > 0 {
      KeysAscending(c);
    }
  }

  lemma Beside(c: Tree, x: Node, i: int, k: int)
    requires -1 <= i < x.n <= x.keys.Length && x.keys[..x.n] == c.keys
    requires forall j :: 0 <= j <= i ==> x.keys[j] <= k
    requires forall j :: i < j < x.n ==> k < x.keys[j]
    requires i >= 0 ==> x.keys[i] != k
    ensures i + 1 <= |c.keys| && (i + 1 > 0 ==> c.keys[i] == x.keys[i] < k)
    ensures i + 1 < |c.keys| ==> k < c.keys[i + 1] == x.keys[i + 1]
  {
    assert forall j :: 0 <= j < |c.keys| ==> c.keys[j] == x.keys[j];
  }

  lemma MissLeaf(c: Tree, x: Node, i: int, k: int)
    requires -1 <= i < x.n <= x.keys.Length && x.keys[..x.n] == c.keys && Order(c) == c.keys && Ascending(c.keys)
    requires forall j :: 0 <= j <= i ==> x.keys[j] <= k
    requires forall j :: i < j < x.n ==> k < x.keys[j]
    requires i >= 0 ==> x.keys[i] != k
    ensures k !in Order(c)
  {
    assert forall j :: 0 <= j < |c.keys| ==> c.keys[j] == x.keys[j];
    assert forall j :: 0 <= j < i ==> c.keys[j] < c.keys[i];
  }

  lemma Leaves(m: Memory, c: Tree, m': Memory, c': Tree, h: nat, t: nat)
    requires Left(m, c, m', c', h, t)
    ensures Holds(m', c', h, t) && c'.node == c.node
  {
  }

  lemma NotEmpty(m: Memory, c: Tree, k: int, h: nat, t: nat)
    requires Holds(m, c, h, t) && k in Order(c) && (h > 0 ==> 1 <= |c.keys|)
    ensures Loses(m, c, k, 0, h, t)
  {
  }

  lemma OneKid(c: Tree)
    requires c.keys == [] && |c.kids| == 1
    ensures Order(c) == Order(c.kids[0])
  {
    OrderAt(c, 0);
  }

  // ---- a new root ----------------------------------------------------------------------------------------

  /** A new root above the full one. */
  lemma NewRoot(m: Memory, m': Memory, c: Tree, s: Node, h: nat, t: nat)
    requires t >= 1 && Holds(m, c, h, t) && t - 1 <= |c.keys| && s !in m && s.internal && m' == m[s := Cell([], [c.node])]
    ensures Holds(m', Tree(s, [], [c]), h + 1, t) && Order(Tree(s, [], [c])) == Order(c)
  {
    var c' := Tree(s, [], [c]);
    OneKid(c');
    RepNodes(m, c);
    UnderOne(c);
    RepFrame(m, m', c, {s});
    assert Roots([c]) == [c.node];
    assert c'.kids == [c] && c'.keys == [];
    assert Distinct(c');
    assert Fits(c', h + 1, t);
    assert Rep(m', c');
    hide Order;
  }

  method Above(r: Node, ghost m: Memory, cap: nat) returns (s: Node, ghost m': Memory)
    requires Synced(m, cap) && Owned(m) && r in m
    ensures Synced(m', cap) && Owned(m') && s !in m && s.internal && m' == m[s := Cell([], [r])]
    ensures fresh({s as object, s.keys as object, s.ptr as object})
  {
    s := new Node(true, cap);
    s.ptr[0] := r;
    assert s.ptr[..1] == [r] && s.keys[..0] == [];
    m' := m[s := s.Fields()];
  }

  /** The root is full: it gets a parent and is split. */
  method Grow(r: Node, k: int, t: nat, ghost m: Memory, ghost c: Tree, ghost h: nat)
    returns (s: Node, ghost m': Memory, ghost c': Tree, ghost h': nat)
    requires t >= 2 && Synced(m, 2 * t - 1) && Owned(m) && Holds(m, c, h, t) && c.node == r
    requires |c.keys| == 2 * t - 1 && k !in Order(c)
    modifies Foot(m)
    ensures Synced(m', 2 * t - 1) && Owned(m') && fresh(Foot(m') - Foot(m)) && h' == h + 1
    ensures Holds(m', c', h', t) && c'.node == s && |c'.keys| == 1 && Order(c') == Order(c)
  {
    hide *;
    ghost var m1;
    NodeFacts(m, c, h, t, 2 * t - 1);
    s, m1 := Above(r, m, 2 * t - 1);
    NewRoot(m, m1, c, s, h, t);
    ghost var c1 := Tree(s, [], [c]);
    HoldsParts(m1, c1, h + 1, t);
    MoreFoot(m, m1, s);
    var z;
    z, m' := Split(s, 0, r, t, m1, c1, h + 1);
    MoreFoot(m1, m', z);
    SplitHolds(m1, m', c1, 0, t, z, h + 1);
    c', h' := Splitted(c1, 0, t, z), h + 1;
  }

  /** The root that a put starts from. */
  method RootFor(r: Node, k: int, t: nat, ghost m: Memory, ghost c: Tree, ghost h: nat)
    returns (s: Node, ghost m': Memory, ghost c': Tree, ghost h': nat)
    requires t >= 2 && Synced(m, 2 * t - 1) && Owned(m) && Holds(m, c, h, t) && c.node == r && k !in Order(c)
    requires h > 0 ==> 1 <= |c.keys|
    modifies Foot(m)
    ensures Synced(m', 2 * t - 1) && Owned(m') && fresh(Foot(m') - Foot(m))
    ensures Holds(m', c', h', t) && c'.node == s && |c'.keys| < 2 * t - 1 && Order(c') == Order(c) && (h' > 0 ==> 1 <= |c'.keys|)
  {
    hide *;
    NodeFacts(m, c, h, t, 2 * t - 1);
    HoldsParts(m, c, h, t);
    if r.n == 2 * t - 1 {
      s, m', c', h' := Grow(r, k, t, m, c, h);
    } else {
      s, m', c', h' := r, m, c, h;
    }
  }

  /** `kb_putp` but for the count. */
  method PutRoot(r: Node, k: int, t: nat, ghost m: Memory, ghost c: Tree, ghost h: nat)
    returns (s: Node, at: Node, i: nat, ghost m': Memory, ghost c': Tree, ghost h': nat)
    requires t >= 2 && Synced(m, 2 * t - 1) && Owned(m) && Holds(m, c, h, t) && c.node == r && k !in Order(c)
    requires h > 0 ==> 1 <= |c.keys|
    modifies Foot(m)
    ensures Synced(m', 2 * t - 1) && Owned(m') && fresh(Foot(m') - Foot(m))
    ensures Holds(m', c', h', t) && c'.node == s && Order(c') == With(Order(c), k) && (h' > 0 ==> 1 <= |c'.keys|)
    ensures Stored(m', c', at, i, k)
  {
    hide *;
    ghost var m1, c1;
    s, m1, c1, h' := RootFor(r, k, t, m, c, h);
    at, i, m', c' := PutAux(s, k, t, m1, c1, h');
    assert Foot(m') - Foot(m) <= (Foot(m') - Foot(m1)) + (Foot(m1) - Foot(m));
    Leaves(m1, c1, m', c', h', t);
  }

  /** `kb_delp` but for the count: an internal root left without keys gives way to its only child. */
  method DelRoot(r: Node, k: int, t: nat, ghost m: Memory, ghost c: Tree, ghost h: nat)
    returns (ret: int, s: Node, ghost m': Memory, ghost c': Tree, ghost h': nat)
    requires t >= 2 && Synced(m, 2 * t - 1) && Owned(m) && Holds(m, c, h, t) && c.node == r && k in Order(c)
    requires h > 0 ==> 1 <= |c.keys|
    modifies Foot(m)
    ensures Synced(m', 2 * t - 1) && Owned(m') && m'.Keys == m.Keys && ret == k
    ensures Holds(m', c', h', t) && c'.node == s && Order(c') == Without(Order(c), k) && (h' > 0 ==> 1 <= |c'.keys|)
  {
    hide *;
    ghost var d;
    NotEmpty(m, c, k, h, t);
    ret, m', d := DelAux(r, k, 0, t, m, c, h);
    TargetZero(Order(c), k);
    LostParts(m, c, k, m', d, h, t);
    Leaves(m, c, m', d, h, t);
    NodeFacts(m', d, h, t, 2 * t - 1);
    if r.n == 0 && r.internal {
      KidNode(m', d, 0, h, t, 2 * t - 1);
      OneKid(d);
      s, c', h' := r.ptr[0], d.kids[0], h - 1;
    } else {
      s, c', h' := r, d, h;
    }
  }
}
