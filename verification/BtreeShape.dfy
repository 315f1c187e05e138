/** The trees of ext/klib/kbtree.h as values, and their keys in order. */
module BtreeShape {
  import opened BtreeNode

  // ---- keys woven between parts ----------------------------------------------------------

  /** parts[0] keys[0] parts[1] keys[1] ... parts[n] */
  function Weave(keys: seq<int>, parts: seq<seq<int>>): seq<int>
    requires |parts| == |keys| + 1
  {
    if keys == [] then parts[0] else parts[0] + [keys[0]] + Weave(keys[1..], parts[1..])
  }

  /** Each part with the key behind it. */
  function Head(keys: seq<int>, parts: seq<seq<int>>): seq<int>
    requires |parts| == |keys|
  {
    if keys == [] then [] else parts[0] + [keys[0]] + Head(keys[1..], parts[1..])
  }

  /** Each part with the key in front of it. */
  function Tail(keys: seq<int>, parts: seq<seq<int>>): seq<int>
    requires |parts| == |keys|
  {
    if keys == [] then [] else [keys[0]] + parts[0] + Tail(keys[1..], parts[1..])
  }

  lemma {:induction false} WeaveTail(keys: seq<int>, parts: seq<seq<int>>)
    requires |parts| == |keys| + 1
    ensures Weave(keys, parts) == parts[0] + Tail(keys, parts[1..])
  {
    if keys != [] {
      WeaveTail(keys[1..], parts[1..]);
      assert parts[1..][1..] == parts[2..];
    }
  }

  lemma {:induction false} WeaveAt(keys: seq<int>, parts: seq<seq<int>>, i: nat)
    requires |parts| == |keys| + 1 && i <= |keys|
    ensures Weave(keys, parts) == Head(keys[..i], parts[..i]) + parts[i] + Tail(keys[i..], parts[i + 1..])
    decreases i
  {
    if i == 0 {
      WeaveTail(keys, parts);
      assert keys[0..] == keys;
    } else {
      WeaveAt(keys[1..], parts[1..], i - 1);
      assert keys[..i][1..] == keys[1..][..i - 1] && parts[..i][1..] == parts[1..][..i - 1];
      assert keys[1..][i - 1..] == keys[i..] && parts[1..][i..] == parts[i + 1..];
      Regroup(parts[0], keys[0], Head(keys[1..i], parts[1..i]), parts[i], Tail(keys[i..], parts[i + 1..]));
      assert keys[1..i] == keys[..i][1..] && parts[1..i] == parts[..i][1..];
    }
  }

  lemma Regroup(p: seq<int>, k: int, h: seq<int>, m: seq<int>, t: seq<int>)
    ensures p + [k] + (h + m + t) == (p + [k] + h) + m + t
  {
  }

  /** Two neighbouring parts and the key between them. */
  lemma WeaveTwo(keys: seq<int>, parts: seq<seq<int>>, i: nat)
    requires |parts| == |keys| + 1 && i < |keys|
    ensures Weave(keys, parts) ==
      Head(keys[..i], parts[..i]) + (parts[i] + [keys[i]] + parts[i + 1]) + Tail(keys[i + 1..], parts[i + 2..])
  {
    WeaveAt(keys, parts, i);
    var ks, ps := keys[i..], parts[i + 1..];
    assert ks[1..] == keys[i + 1..] && ps[1..] == parts[i + 2..];
    Regroup2(Head(keys[..i], parts[..i]), parts[i], keys[i], parts[i + 1], Tail(ks[1..], ps[1..]));
  }

  lemma Regroup2(h: seq<int>, p: seq<int>, k: int, q: seq<int>, t: seq<int>)
    ensures h + p + ([k] + q + t) == h + (p + [k] + q) + t
  {
  }

  // ---- trees --------------------------------------------------------------------------------

  /** A leaf has no children. */
  datatype Tree = Tree(node: Node, keys: seq<int>, kids: seq<Tree>)

  function Order(t: Tree): seq<int>
    decreases t
  {
    if |t.kids| != |t.keys| + 1 then t.keys else Weave(t.keys, Orders(t.kids))
  }

  function Orders(kids: seq<Tree>): (parts: seq<seq<int>>)
    ensures |parts| == |kids|
    decreases kids
  {
    if kids == [] then [] else [Order(kids[0])] + Orders(kids[1..])
  }

  lemma {:induction false} OrdersAt(kids: seq<Tree>, i: nat)
    requires i < |kids|
    ensures Orders(kids)[i] == Order(kids[i])
  {
    if i > 0 {
      OrdersAt(kids[1..], i - 1);
    }
  }

  ghost function Nodes(t: Tree): set<Node>
    decreases t
  {
    {t.node} + Under(t.kids)
  }

  ghost function Under(kids: seq<Tree>): set<Node>
    decreases kids
  {
    if kids == [] then {} else Nodes(kids[0]) + Under(kids[1..])
  }

  ghost predicate Distinct(t: Tree)
    decreases t
  {
    t.node !in Under(t.kids) && Apart(t.kids)
  }

  /** No node occurs twice in or among the trees. */
  ghost predicate Apart(kids: seq<Tree>)
    decreases kids
  {
    kids != [] ==> Distinct(kids[0]) && Nodes(kids[0]) !! Under(kids[1..]) && Apart(kids[1..])
  }

  lemma {:induction false} UnderJoin(a: seq<Tree>, b: seq<Tree>)
    ensures Under(a + b) == Under(a) + Under(b)
    ensures Apart(a + b) <==> Apart(a) && Apart(b) && Under(a) !! Under(b)
  {
    if a == [] {
      assert a + b == b;
    } else {
      assert (a + b)[0] == a[0] && (a + b)[1..] == a[1..] + b;
      UnderJoin(a[1..], b);
    }
  }

  lemma UnderOne(t: Tree)
    ensures Under([t]) == Nodes(t) && (Apart([t]) <==> Distinct(t))
  {
    assert [t][1..] == [];
  }

  /** Child `i` among the others. */
  lemma UnderAt(kids: seq<Tree>, i: nat)
    requires i < |kids|
    ensures Under(kids) == Under(kids[..i]) + Nodes(kids[i]) + Under(kids[i + 1..])
    ensures Apart(kids) <==>
      && Apart(kids[..i]) && Distinct(kids[i]) && Apart(kids[i + 1..]) && Under(kids[..i]) !! Nodes(kids[i])
      && Under(kids[..i]) !! Under(kids[i + 1..]) && Nodes(kids[i]) !! Under(kids[i + 1..])
  {
    hide Under, Apart, Nodes, Distinct;
    assert kids == kids[..i] + ([kids[i]] + kids[i + 1..]);
    UnderJoin(kids[..i], [kids[i]] + kids[i + 1..]);
    UnderJoin([kids[i]], kids[i + 1..]);
    UnderOne(kids[i]);
  }

  // ---- representation in memory -------------------------------------------------------------

  type Memory = map<Node, Cell>

  function Roots(kids: seq<Tree>): (r: seq<Node?>)
    ensures |r| == |kids|
  {
    seq(|kids|, i requires 0 <= i < |kids| => kids[i].node)
  }

  ghost predicate Rep(m: Memory, t: Tree)
    decreases t
  {
    && t.node in m && m[t.node] == Cell(t.keys, Roots(t.kids)) && t.node.internal == (t.kids != [])
    && RepAll(m, t.kids)
  }

  ghost predicate RepAll(m: Memory, kids: seq<Tree>)
    decreases kids
  {
    forall i :: 0 <= i < |kids| ==> Rep(m, kids[i])
  }

  ghost predicate SameBut(m: Memory, m': Memory, changed: set<Node>) {
    m.Keys <= m'.Keys && forall n :: n in m && n !in changed ==> m'[n] == m[n]
  }

  lemma {:induction false} RepFrame(m: Memory, m': Memory, t: Tree, changed: set<Node>)
    requires Rep(m, t) && SameBut(m, m', changed) && changed !! Nodes(t)
    ensures Rep(m', t)
    decreases t
  {
    forall i | 0 <= i < |t.kids|
      ensures Rep(m', t.kids[i])
    {
      UnderAt(t.kids, i);
      RepFrame(m, m', t.kids[i], changed);
    }
  }

  lemma RepAllFrame(m: Memory, m': Memory, kids: seq<Tree>, changed: set<Node>)
    requires RepAll(m, kids) && SameBut(m, m', changed) && changed !! Under(kids)
    ensures RepAll(m', kids)
  {
    forall i | 0 <= i < |kids|
      ensures Rep(m', kids[i])
    {
      UnderAt(kids, i);
      RepFrame(m, m', kids[i], changed);
    }
  }

  lemma {:induction false} RepNodes(m: Memory, t: Tree)
    requires Rep(m, t)
    ensures Nodes(t) <= m.Keys
    decreases t
  {
    RepAllNodes(m, t.kids);
  }

  lemma {:induction false} RepAllNodes(m: Memory, kids: seq<Tree>)
    requires RepAll(m, kids)
    ensures Under(kids) <= m.Keys
    decreases kids
  {
    if kids != [] {
      RepNodes(m, kids[0]);
      RepAllNodes(m, kids[1..]);
    }
  }

  // ---- shape -----------------------------------------------------------------------------------

  /** Height `h` everywhere, at most `2t - 1` keys a node, and below the root at least `t - 1`. */
  ghost predicate Fits(x: Tree, h: nat, t: nat) {
    && |x.keys| <= 2 * t - 1
    && (h == 0 ==> x.kids == [])
    && (h > 0 ==>
      && |x.kids| == |x.keys| + 1
      && forall i :: 0 <= i < |x.kids| ==> Fits(x.kids[i], h - 1, t) && t - 1 <= |x.kids[i].keys|)
  }

  predicate Ascending(s: seq<int>) {
    forall i, j :: 0 <= i < j < |s| ==> s[i] < s[j]
  }

  function HeadOf(t: Tree, i: nat): seq<int>
    requires i <= |t.keys| && i <= |t.kids|
  {
    Head(t.keys[..i], Orders(t.kids[..i]))
  }

  function TailOf(t: Tree, i: nat): seq<int>
    requires i <= |t.keys| && |t.kids| == |t.keys| + 1
  {
    Tail(t.keys[i..], Orders(t.kids[i + 1..]))
  }

  lemma OrdersFrom(kids: seq<Tree>, i: nat)
    requires i <= |kids|
    ensures Orders(kids)[i..] == Orders(kids[i..]) && Orders(kids)[..i] == Orders(kids[..i])
  {
    hide Orders;
    assert kids == kids[..i] + kids[i..];
    OrdersJoin(kids[..i], kids[i..]);
  }

  /** The keys around child `i`. */
  lemma OrderAt(t: Tree, i: nat)
    requires |t.kids| == |t.keys| + 1 && i <= |t.keys|
    ensures Order(t) == HeadOf(t, i) + Order(t.kids[i]) + TailOf(t, i)
  {
    OrdersAt(t.kids, i);
    WeaveAt(t.keys, Orders(t.kids), i);
    OrdersFrom(t.kids, i);
    OrdersFrom(t.kids, i + 1);
  }

  /** The keys around children `i` and `i + 1`. */
  lemma OrderTwo(t: Tree, i: nat)
    requires |t.kids| == |t.keys| + 1 && i < |t.keys|
    ensures Order(t) == HeadOf(t, i) + (Order(t.kids[i]) + [t.keys[i]] + Order(t.kids[i + 1])) + TailOf(t, i + 1)
  {
    OrdersAt(t.kids, i);
    OrdersAt(t.kids, i + 1);
    WeaveTwo(t.keys, Orders(t.kids), i);
    OrdersFrom(t.kids, i);
    OrdersFrom(t.kids, i + 2);
  }

  // ---- joining and cutting -------------------------------------------------------------------------

  /** Two neighbours and the key between them as one node. */
  function Join(a: Tree, k: int, b: Tree): Tree {
    Tree(a.node, a.keys + [k] + b.keys, a.kids + b.kids)
  }

  /** Both leaves, or both internal nodes. */
  predicate Alike(a: Tree, b: Tree) {
    (a.kids == [] && b.kids == []) || (|a.kids| == |a.keys| + 1 && |b.kids| == |b.keys| + 1)
  }

  lemma {:induction false} OrdersJoin(a: seq<Tree>, b: seq<Tree>)
    ensures Orders(a + b) == Orders(a) + Orders(b)
  {
    if a == [] {
      assert a + b == b;
    } else {
      assert (a + b)[0] == a[0] && (a + b)[1..] == a[1..] + b;
      OrdersJoin(a[1..], b);
    }
  }

  lemma {:induction false} WeaveJoin(ka: seq<int>, pa: seq<seq<int>>, k: int, kb: seq<int>, pb: seq<seq<int>>)
    requires |pa| == |ka| + 1 && |pb| == |kb| + 1
    ensures Weave(ka + [k] + kb, pa + pb) == Weave(ka, pa) + [k] + Weave(kb, pb)
  {
    var keys, parts := ka + [k] + kb, pa + pb;
    if ka == [] {
      assert keys[1..] == kb && parts[1..] == pb;
    } else {
      assert keys[1..] == ka[1..] + [k] + kb && parts[1..] == pa[1..] + pb;
      WeaveJoin(ka[1..], pa[1..], k, kb, pb);
    }
  }

  lemma JoinOrder(a: Tree, k: int, b: Tree)
    requires Alike(a, b)
    ensures Order(Join(a, k, b)) == Order(a) + [k] + Order(b)
  {
    if a.kids != [] {
      OrdersJoin(a.kids, b.kids);
      WeaveJoin(a.keys, Orders(a.kids), k, b.keys, Orders(b.kids));
    }
  }

  lemma JoinNodes(a: Tree, k: int, b: Tree)
    ensures Nodes(Join(a, k, b)) == {a.node} + Under(a.kids) + Under(b.kids)
    ensures Distinct(Join(a, k, b)) <==>
      && a.node !in Under(a.kids) && a.node !in Under(b.kids) && Apart(a.kids) && Apart(b.kids) && Under(a.kids) !! Under(b.kids)
  {
    UnderJoin(a.kids, b.kids);
  }

  lemma JoinFits(a: Tree, k: int, b: Tree, h: nat, t: nat)
    requires Fits(a, h, t) && Fits(b, h, t) && |a.keys| + 1 + |b.keys| <= 2 * t - 1
    ensures Alike(a, b) && Fits(Join(a, k, b), h, t)
  {
  }

  // ---- changing neighbouring children ----------------------------------------------------------------

  /** Children `lo` up to `hi` become `mid`, and the keys become `keys`. */
  function Middle(x: Tree, keys: seq<int>, lo: nat, hi: nat, mid: seq<Tree>): Tree
    requires lo <= hi <= |x.kids|
  {
    Tree(x.node, keys, x.kids[..lo] + mid + x.kids[hi..])
  }

  lemma UnderThree(a: seq<Tree>, b: seq<Tree>, c: seq<Tree>)
    ensures Under(a + b + c) == Under(a) + Under(b) + Under(c)
    ensures Apart(a + b + c) <==>
      Apart(a) && Apart(b) && Apart(c) && Under(a) !! Under(b) && Under(a) !! Under(c) && Under(b) !! Under(c)
  {
    hide Under, Apart;
    UnderJoin(a + b, c);
    UnderJoin(a, b);
  }

  lemma MiddleNodes(x: Tree, keys: seq<int>, lo: nat, hi: nat, mid: seq<Tree>)
    requires lo <= hi <= |x.kids|
    ensures Nodes(x) == {x.node} + Under(x.kids[..lo]) + Under(x.kids[lo..hi]) + Under(x.kids[hi..])
    ensures Nodes(Middle(x, keys, lo, hi, mid)) == {x.node} + Under(x.kids[..lo]) + Under(mid) + Under(x.kids[hi..])
    ensures Distinct(x) ==>
      && x.node !in Under(x.kids[..lo]) && x.node !in Under(x.kids[lo..hi]) && x.node !in Under(x.kids[hi..])
      && Apart(x.kids[lo..hi]) && Under(x.kids[..lo]) !! Under(x.kids[lo..hi]) && Under(x.kids[lo..hi]) !! Under(x.kids[hi..])
      && Under(x.kids[..lo]) !! Under(x.kids[hi..])
    ensures Distinct(x) && Apart(mid) && x.node !in Under(mid)
      && Under(mid) !! Under(x.kids[..lo]) && Under(mid) !! Under(x.kids[hi..])
      ==> Distinct(Middle(x, keys, lo, hi, mid))
  {
    var a, b, c := x.kids[..lo], x.kids[lo..hi], x.kids[hi..];
    assert x.kids == a + b + c;
    UnderThree(a, b, c);
    UnderThree(a, mid, c);
    hide Under, Apart;
  }

  lemma MiddleRep(m: Memory, m': Memory, x: Tree, keys: seq<int>, lo: nat, hi: nat, mid: seq<Tree>, changed: set<Node>)
    requires lo <= hi <= |x.kids| && Rep(m, x) && SameBut(m, m', changed) && RepAll(m', mid)
    requires changed !! Under(x.kids[..lo]) && changed !! Under(x.kids[hi..])
    requires var x' := Middle(x, keys, lo, hi, mid);
      x.node in m' && m'[x.node] == Cell(keys, Roots(x'.kids)) && x.node.internal == (x'.kids != [])
    ensures Rep(m', Middle(x, keys, lo, hi, mid))
  {
    var x', a, c := Middle(x, keys, lo, hi, mid), x.kids[..lo], x.kids[hi..];
    RepAllFrame(m, m', a, changed);
    RepAllFrame(m, m', c, changed);
    hide Under, SameBut;
    forall i | 0 <= i < |x'.kids|
      ensures Rep(m', x'.kids[i])
    {
      if i < lo {
        assert x'.kids[i] == a[i];
      } else if i < lo + |mid| {
        assert x'.kids[i] == mid[i - lo];
      } else {
        assert x'.kids[i] == c[i - lo - |mid|];
      }
    }
  }

  lemma MiddleFits(x: Tree, keys: seq<int>, lo: nat, hi: nat, mid: seq<Tree>, h: nat, t: nat)
    requires h > 0 && lo <= hi <= |x.kids| && Fits(x, h, t)
    requires |keys| <= 2 * t - 1 && |x.kids| + |mid| == |keys| + 1 + (hi - lo)
    requires forall i :: 0 <= i < |mid| ==> Fits(mid[i], h - 1, t) && t - 1 <= |mid[i].keys|
    ensures Fits(Middle(x, keys, lo, hi, mid), h, t)
  {
    var x', a, c := Middle(x, keys, lo, hi, mid), x.kids[..lo], x.kids[hi..];
    forall i | 0 <= i < |x'.kids|
      ensures Fits(x'.kids[i], h - 1, t) && t - 1 <= |x'.kids[i].keys|
    {
      if i < lo {
        assert x'.kids[i] == x.kids[i];
      } else if i < lo + |mid| {
        assert x'.kids[i] == mid[i - lo];
      } else {
        assert x'.kids[i] == x.kids[i - |mid| - lo + hi];
      }
    }
  }

  lemma RootsMiddle(x: Tree, keys: seq<int>, lo: nat, hi: nat, mid: seq<Tree>)
    requires lo <= hi <= |x.kids|
    ensures Roots(Middle(x, keys, lo, hi, mid).kids) == Roots(x.kids)[..lo] + Roots(mid) + Roots(x.kids)[hi..]
  {
  }

  /** Child `i` and the next become `c`; the key between them goes. */
  function Merged(x: Tree, i: nat, c: Tree): Tree
    requires i + 1 < |x.kids| && i < |x.keys|
  {
    Middle(x, x.keys[..i] + x.keys[i + 1..], i, i + 2, [c])
  }

  lemma MergedOrder(x: Tree, i: nat, c: Tree)
    requires i < |x.keys| && |x.kids| == |x.keys| + 1
    requires Order(c) == Order(x.kids[i]) + [x.keys[i]] + Order(x.kids[i + 1])
    ensures Order(Merged(x, i, c)) == Order(x)
  {
    var x' := Merged(x, i, c);
    OrderTwo(x, i);
    OrderAt(x', i);
    assert x'.keys[..i] == x.keys[..i] && x'.kids[..i] == x.kids[..i];
    assert x'.keys[i..] == x.keys[i + 1..] && x'.kids[i + 1..] == x.kids[i + 2..];
  }

  /** Children `i` and `i + 1` become `a` and `b`, and the key between them `k`. */
  function Paired(x: Tree, i: nat, a: Tree, k: int, b: Tree): Tree
    requires i + 1 < |x.kids| && i < |x.keys|
  {
    Middle(x, x.keys[i := k], i, i + 2, [a, b])
  }

  lemma PairedKeys(x: Tree, i: nat, a: Tree, k: int, b: Tree)
    requires i < |x.keys| && |x.kids| == |x.keys| + 1
    ensures Order(Paired(x, i, a, k, b)) == HeadOf(x, i) + (Order(a) + [k] + Order(b)) + TailOf(x, i + 1)
  {
    var x' := Paired(x, i, a, k, b);
    OrderTwo(x', i);
    assert x'.keys[..i] == x.keys[..i] && x'.kids[..i] == x.kids[..i];
    assert x'.keys[i + 1..] == x.keys[i + 1..] && x'.kids[i + 2..] == x.kids[i + 2..];
  }

  lemma PairedOrder(x: Tree, i: nat, a: Tree, k: int, b: Tree)
    requires i < |x.keys| && |x.kids| == |x.keys| + 1
    requires Order(a) + [k] + Order(b) == Order(x.kids[i]) + [x.keys[i]] + Order(x.kids[i + 1])
    ensures Order(Paired(x, i, a, k, b)) == Order(x)
  {
    PairedKeys(x, i, a, k, b);
    OrderTwo(x, i);
  }

  /** Child `i` becomes `c`. */
  function WithKid(x: Tree, i: nat, c: Tree): Tree
    requires i < |x.kids|
  {
    Middle(x, x.keys, i, i + 1, [c])
  }

  lemma WithKidOrder(x: Tree, i: nat, c: Tree)
    requires i <= |x.keys| && |x.kids| == |x.keys| + 1
    ensures Order(WithKid(x, i, c)) == HeadOf(x, i) + Order(c) + TailOf(x, i)
  {
    var x' := WithKid(x, i, c);
    OrderAt(x', i);
    assert x'.keys[..i] == x.keys[..i] && x'.kids[..i] == x.kids[..i];
    assert x'.keys[i..] == x.keys[i..] && x'.kids[i + 1..] == x.kids[i + 1..];
  }
}
