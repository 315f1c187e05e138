/** The rotations of krmq.h (lines 154-192) on nodes in memory. */
module KrmqRotate {
  import opened AvlShape
  import opened AvlMoves

  /** The fields of the root of a tree. */
  function RootCell(t: Tree): Cell
    requires t.Fork?
  {
    Cell(t.left.Root(), t.right.Root(), t.s, t.balance, t.size)
  }

  lemma ForkRep(m: Memory, t: Tree, dir: bool)
    requires Rep(m, t) && t.Fork?
    ensures t.node in m && m[t.node] == RootCell(t)
    ensures Rep(m, t.Sub(dir)) && Rep(m, t.Sub(!dir))
  {
  }

  lemma MakeRep(m: Memory, t: Tree, dir: bool)
    requires t.Fork? && t.node in m && m[t.node] == RootCell(t)
    requires Rep(m, t.Sub(dir)) && Rep(m, t.Sub(!dir))
    ensures Rep(m, t)
  {
  }

  /** `c` points to tree `x`, whose root says so. */
  ghost predicate Shows(c: Node?, x: Tree)
    reads x.Root()
  {
    c == x.Root() && (x.Fork? ==> x.node.Fields() == RootCell(x))
  }

  lemma RootShows(m: Memory, x: Tree)
    requires Synced(m) && Rep(m, x)
    ensures Shows(x.Root(), x)
  {
    if x.Fork? {
      ForkRep(m, x, true);
    }
  }

  method SizeAt(c: Node?, ghost x: Tree) returns (n: nat)
    requires Shows(c, x)
    ensures n == SizeOf(x)
  {
    n := if c != null then c.size else 0;
  }

  /** `krmq_update_min` */
  method UpdateMin(p: Node, q: Node?, r: Node?, ghost x: Tree, ghost y: Tree)
    requires Shows(q, x) && Shows(r, y) && p != q && p != r
    modifies p`s
    ensures p.s == MinOf(p, x, y)
  {
    p.s := if q == null || p.weight < q.s.weight then p else q.s;
    p.s := if r == null || p.s.weight < r.s.weight then p.s else r.s;
  }

  /** Trees away from a few nodes stay as they are when only those change. */
  lemma Untouched(m: Memory, m': Memory, changed: set<Node>, x: Tree)
    requires Rep(m, x) && changed !! Nodes(x)
    requires m'.Keys == m.Keys && forall n :: n in m && n !in changed ==> m'[n] == m[n]
    ensures Rep(m', x)
  {
    RepFrame(m, m', x);
  }

  // ---- one rotation -------------------------------------------------------------------

  ghost predicate Away(x: Tree, changed: set<Node>) {
    changed !! Nodes(x) && x.Root() !in changed
  }

  lemma Apart1(t: Tree, dir: bool)
    requires Distinct(t) && CanRotate1(t, dir)
    ensures var q := t.Sub(!dir);
      var changed := {t.node, q.node};
      t.node != q.node && Away(t.Sub(dir), changed) && Away(q.Sub(dir), changed) && Away(q.Sub(!dir), changed)
  {
  }

  /** `krmq_rotate1` */
  method Rotate1(p: Node, dir: bool, ghost m: Memory, ghost t: Tree) returns (q: Node, ghost m': Memory)
    requires Synced(m) && Rep(m, t) && Distinct(t) && CanRotate1(t, dir) && p == t.node
    modifies p, t.Sub(!dir).node
    ensures q == t.Sub(!dir).node && Rep(m', Rotated1(t, dir))
    ensures Synced(m') && m'.Keys == m.Keys
    ensures forall n :: n in m && n != p && n != q ==> m'[n] == m[n]
  {
    ghost var qt := t.Sub(!dir);
    ForkRep(m, t, dir);
    ForkRep(m, qt, dir);
    RootShows(m, t.Sub(dir));
    RootShows(m, qt.Sub(dir));
    Apart1(t, dir);
    hide Rep, Distinct, Nodes, MinOf;
    q := Turn1(p, dir, t);
    m' := m[p := p.Fields()][q := q.Fields()];
    Rotate1Rep(m, m', t, dir);
  }

  method Turn1(p: Node, dir: bool, ghost t: Tree) returns (q: Node)
    requires CanRotate1(t, dir) && p == t.node && p.Fields() == RootCell(t)
    requires t.Sub(!dir).node.Fields() == RootCell(t.Sub(!dir)) && t.Sub(!dir).node != p
    requires Shows(t.Sub(dir).Root(), t.Sub(dir)) && Shows(t.Sub(!dir).Sub(dir).Root(), t.Sub(!dir).Sub(dir))
    requires Away(t.Sub(dir), {p, t.Sub(!dir).node}) && Away(t.Sub(!dir).Sub(dir), {p, t.Sub(!dir).node})
    modifies p, t.Sub(!dir).node
    ensures q == t.Sub(!dir).node
    ensures q.Fields() == RootCell(Rotated1(t, dir)) && p.Fields() == RootCell(Rotated1(t, dir).Sub(dir))
  {
    hide MinOf;
    q := p.Child(!dir);
    var s, sizeP := p.s, p.size;
    var sizeB := SizeAt(q.Child(dir), t.Sub(!dir).Sub(dir));
    p.size := p.size - (q.size - sizeB);
    q.size := sizeP;
    UpdateMin(p, p.Child(dir), q.Child(dir), t.Sub(dir), t.Sub(!dir).Sub(dir));
    q.s := s;
    p.SetChild(!dir, q.Child(dir));
    q.SetChild(dir, p);
  }

  lemma Rotate1Rep(m: Memory, m': Memory, t: Tree, dir: bool)
    requires Rep(m, t) && Distinct(t) && CanRotate1(t, dir)
    requires m'.Keys == m.Keys && forall n :: n in m && n !in {t.node, t.Sub(!dir).node} ==> m'[n] == m[n]
    requires t.node in m' && t.Sub(!dir).node in m'
    requires m'[t.Sub(!dir).node] == RootCell(Rotated1(t, dir)) && m'[t.node] == RootCell(Rotated1(t, dir).Sub(dir))
    ensures Rep(m', Rotated1(t, dir))
  {
    var q, t' := t.Sub(!dir), Rotated1(t, dir);
    ForkRep(m, t, dir);
    ForkRep(m, q, dir);
    Apart1(t, dir);
    hide Rep, Distinct, Nodes, MinOf;
    var changed := {t.node, q.node};
    Untouched(m, m', changed, t.Sub(dir));
    Untouched(m, m', changed, q.Sub(dir));
    Untouched(m, m', changed, q.Sub(!dir));
    MakeRep(m', t'.Sub(dir), dir);
    MakeRep(m', t', dir);
  }

  // ---- two rotations --------------------------------------------------------------------

  lemma Apart2(t: Tree, dir: bool)
    requires Distinct(t) && CanRotate2(t, dir)
    ensures var q := t.Sub(!dir);
      var r := q.Sub(dir);
      var changed := {t.node, q.node, r.node};
      && t.node != q.node && t.node != r.node && q.node != r.node
      && Away(t.Sub(dir), changed) && Away(q.Sub(!dir), changed) && Away(r.Sub(dir), changed) && Away(r.Sub(!dir), changed)
  {
    hide Nodes, Distinct, Sized, Mins, Balanced, Height, Count;
    Sides(t, dir);
    Sides(t.Sub(!dir), dir);
    Sides(t.Sub(!dir).Sub(dir), dir);
    RootIn(t.Sub(dir));
    RootIn(t.Sub(!dir).Sub(!dir));
    RootIn(t.Sub(!dir).Sub(dir).Sub(dir));
    RootIn(t.Sub(!dir).Sub(dir).Sub(!dir));
  }

  lemma RootIn(x: Tree)
    ensures x.Root() != null ==> x.Root() in Nodes(x)
  {
  }

  /** `krmq_rotate2` */
  method Rotate2(p: Node, dir: bool, ghost m: Memory, ghost t: Tree) returns (r: Node, ghost m': Memory)
    requires Synced(m) && Rep(m, t) && Distinct(t) && CanRotate2(t, dir) && p == t.node
    modifies p, t.Sub(!dir).node, t.Sub(!dir).Sub(dir).node
    ensures r == t.Sub(!dir).Sub(dir).node && Rep(m', Rotated2(t, dir))
    ensures Synced(m') && m'.Keys == m.Keys
    ensures forall n :: n in m && n !in {p, t.Sub(!dir).node, r} ==> m'[n] == m[n]
  {
    ghost var qt := t.Sub(!dir);
    ghost var rt := qt.Sub(dir);
    ForkRep(m, t, dir);
    ForkRep(m, qt, dir);
    ForkRep(m, rt, dir);
    RootShows(m, t.Sub(dir));
    RootShows(m, qt.Sub(!dir));
    RootShows(m, rt.Sub(dir));
    RootShows(m, rt.Sub(!dir));
    Apart2(t, dir);
    hide Rep, Distinct, Nodes, MinOf;
    var q: Node := p.Child(!dir);
    r := Turn2(p, q, dir, t);
    m' := m[p := p.Fields()][q := q.Fields()][r := r.Fields()];
    Rotate2Rep(m, m', t, dir);
  }

  function WithChild(c: Cell, dir: bool, x: Node?): Cell {
    if dir then c.(p1 := x) else c.(p0 := x)
  }

  method Turn2(p: Node, q: Node, dir: bool, ghost t: Tree) returns (r: Node)
    requires CanRotate2(t, dir) && p == t.node && q == t.Sub(!dir).node
    requires p.Fields() == RootCell(t) && q.Fields() == RootCell(t.Sub(!dir))
    requires t.Sub(!dir).Sub(dir).node.Fields() == RootCell(t.Sub(!dir).Sub(dir))
    requires p != q && t.Sub(!dir).Sub(dir).node != p && t.Sub(!dir).Sub(dir).node != q
    requires Shows(t.Sub(dir).Root(), t.Sub(dir)) && Shows(t.Sub(!dir).Sub(!dir).Root(), t.Sub(!dir).Sub(!dir))
    requires Shows(t.Sub(!dir).Sub(dir).Sub(dir).Root(), t.Sub(!dir).Sub(dir).Sub(dir))
    requires Shows(t.Sub(!dir).Sub(dir).Sub(!dir).Root(), t.Sub(!dir).Sub(dir).Sub(!dir))
    requires Away(t.Sub(dir), {p, q, t.Sub(!dir).Sub(dir).node})
    requires Away(t.Sub(!dir).Sub(!dir), {p, q, t.Sub(!dir).Sub(dir).node})
    requires Away(t.Sub(!dir).Sub(dir).Sub(dir), {p, q, t.Sub(!dir).Sub(dir).node})
    requires Away(t.Sub(!dir).Sub(dir).Sub(!dir), {p, q, t.Sub(!dir).Sub(dir).node})
    modifies p, q, t.Sub(!dir).Sub(dir).node
    ensures r == t.Sub(!dir).Sub(dir).node && r.Fields() == RootCell(Rotated2(t, dir))
    ensures p.Fields() == RootCell(Rotated2(t, dir).Sub(dir)) && q.Fields() == RootCell(Rotated2(t, dir).Sub(!dir))
  {
    hide MinOf, Away;
    r := q.Child(dir);
    Measure2(p, q, r, dir, t);
    Relink2(p, q, r, dir);
    Settle2(p, q, r, if dir then -1 else 1);
  }

  /** Sizes and lightest nodes, while the links are still the old ones. */
  method Measure2(p: Node, q: Node, r: Node, dir: bool, ghost t: Tree)
    requires CanRotate2(t, dir) && p == t.node && q == t.Sub(!dir).node && r == t.Sub(!dir).Sub(dir).node
    requires p.Fields() == RootCell(t) && q.Fields() == RootCell(t.Sub(!dir))
    requires r.Fields() == RootCell(t.Sub(!dir).Sub(dir))
    requires p != q && r != p && r != q
    requires Shows(t.Sub(dir).Root(), t.Sub(dir)) && Shows(t.Sub(!dir).Sub(!dir).Root(), t.Sub(!dir).Sub(!dir))
    requires Shows(r.Child(dir), t.Sub(!dir).Sub(dir).Sub(dir)) && Shows(r.Child(!dir), t.Sub(!dir).Sub(dir).Sub(!dir))
    requires Away(t.Sub(dir), {p, q, r}) && Away(t.Sub(!dir).Sub(!dir), {p, q, r})
    requires Away(t.Sub(!dir).Sub(dir).Sub(dir), {p, q, r}) && Away(t.Sub(!dir).Sub(dir).Sub(!dir), {p, q, r})
    modifies p, q, r
    ensures var qt := t.Sub(!dir);
      var a, b, c, d := t.Sub(dir), qt.Sub(dir).Sub(dir), qt.Sub(dir).Sub(!dir), qt.Sub(!dir);
      && p.Fields() == RootCell(t).(size := t.size - (qt.size - SizeOf(b)), s := MinOf(p, a, b))
      && q.Fields() == RootCell(qt).(size := qt.size - (SizeOf(b) + 1), s := MinOf(q, d, c))
      && r.Fields() == RootCell(qt.Sub(dir)).(size := t.size, s := t.s)
  {
    hide MinOf;
    var s := p.s;
    ghost var rt := t.Sub(!dir).Sub(dir);
    Resize2(p, q, r, dir, rt.Sub(dir));
    UpdateMin(p, p.Child(dir), r.Child(dir), t.Sub(dir), rt.Sub(dir));
    UpdateMin(q, q.Child(!dir), r.Child(!dir), t.Sub(!dir).Sub(!dir), rt.Sub(!dir));
    r.s := s;
  }

  /** The sizes alone; `b` is the subtree that goes from `r` to `p`. */
  method Resize2(p: Node, q: Node, r: Node, dir: bool, ghost b: Tree)
    requires p != q && r != p && r != q && Shows(r.Child(dir), b) && Away(b, {p, q, r})
    requires q.size <= p.size + SizeOf(b) && SizeOf(b) + 1 <= q.size
    modifies p`size, q`size, r`size
    ensures p.size == old(p.size) - (old(q.size) - SizeOf(b)) && q.size == old(q.size) - (SizeOf(b) + 1)
    ensures r.size == old(p.size)
  {
    var sizeXDir := SizeAt(r.Child(dir), b);
    r.size := p.size;
    p.size := p.size - (q.size - sizeXDir);
    q.size := q.size - (sizeXDir + 1);
  }

  method Relink2(p: Node, q: Node, r: Node, dir: bool)
    requires p != q && p != r && q != r
    modifies p, q, r
    ensures p.Fields() == WithChild(old(p.Fields()), !dir, old(r.Child(dir)))
    ensures q.Fields() == WithChild(old(q.Fields()), dir, old(r.Child(!dir)))
    ensures r.Fields() == WithChild(WithChild(old(r.Fields()), dir, p), !dir, q)
  {
    p.SetChild(!dir, r.Child(dir));
    r.SetChild(dir, p);
    q.SetChild(dir, r.Child(!dir));
    r.SetChild(!dir, q);
  }

  method Settle2(p: Node, q: Node, r: Node, b1: int)
    requires p != q && p != r && q != r
    modifies p`balance, q`balance, r`balance
    ensures p.balance == if old(r.balance) == b1 then -b1 else 0
    ensures q.balance == if old(r.balance) == b1 || old(r.balance) == 0 then 0 else b1
    ensures r.balance == 0
  {
    if r.balance == b1 {
      q.balance, p.balance := 0, -b1;
    } else if r.balance == 0 {
      q.balance, p.balance := 0, 0;
    } else {
      q.balance, p.balance := b1, 0;
    }
    r.balance := 0;
  }

  lemma Rotate2Rep(m: Memory, m': Memory, t: Tree, dir: bool)
    requires Rep(m, t) && Distinct(t) && CanRotate2(t, dir)
    requires var q := t.Sub(!dir);
      var r := q.Sub(dir);
      && (m'.Keys == m.Keys && forall n :: n in m && n !in {t.node, q.node, r.node} ==> m'[n] == m[n])
      && t.node in m' && q.node in m' && r.node in m' && m'[r.node] == RootCell(Rotated2(t, dir))
      && m'[t.node] == RootCell(Rotated2(t, dir).Sub(dir)) && m'[q.node] == RootCell(Rotated2(t, dir).Sub(!dir))
    ensures Rep(m', Rotated2(t, dir))
  {
    var q, t' := t.Sub(!dir), Rotated2(t, dir);
    var r := q.Sub(dir);
    ForkRep(m, t, dir);
    ForkRep(m, q, dir);
    ForkRep(m, r, dir);
    Apart2(t, dir);
    hide Rep, Distinct, Nodes, MinOf;
    var changed := {t.node, q.node, r.node};
    Untouched(m, m', changed, t.Sub(dir));
    Untouched(m, m', changed, q.Sub(!dir));
    Untouched(m, m', changed, r.Sub(dir));
    Untouched(m, m', changed, r.Sub(!dir));
    MakeRep(m', t'.Sub(dir), dir);
    MakeRep(m', t'.Sub(!dir), dir);
    MakeRep(m', t', dir);
  }
}
