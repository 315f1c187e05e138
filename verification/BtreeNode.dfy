/** The nodes of ext/klib/kbtree.h, with the array moves that its operations are made of. */
module BtreeNode {

  /** What a node holds: its keys and, if it is internal, one child more. */
  datatype Cell = Cell(keys: seq<int>, kids: seq<Node?>)

  lemma NothingBefore<T>(s: seq<T>)
    ensures [] + s == s && s[..0] == [] && s[0..] == s
  {
  }

  /** A node with room for `cap` keys and, if it is internal, `cap + 1` children. */
  class Node {
    const internal: bool
    const keys: array<int>
    const ptr: array<Node?>
    var n: nat

    constructor (internal: bool, cap: nat)
      ensures fresh(keys) && fresh(ptr) && Shaped(cap) && n == 0 && this.internal == internal
    {
      this.internal := internal;
      keys := new int[cap](_ => 0);
      ptr := new Node?[if internal then cap + 1 else 0](_ => null);
      n := 0;
    }

    ghost predicate Shaped(cap: nat)
      reads this
    {
      n <= cap && keys.Length == cap && ptr.Length == if internal then cap + 1 else 0
    }

    function Fields(): Cell
      reads this, keys, ptr
      requires n <= keys.Length && (internal ==> n + 1 <= ptr.Length)
    {
      Cell(keys[..n], if internal then ptr[..n + 1] else [])
    }

    /** Keys from `i` on move up by one, and `k` comes to `i`. The count stays as it is. */
    method PutKey(i: nat, k: int)
      requires i <= n < keys.Length
      modifies keys
      ensures keys[..n + 1] == old(keys[..n])[..i] + [k] + old(keys[..n])[i..]
    {
      forall j | i < j <= n {
        keys[j] := keys[j - 1];
      }
      keys[i] := k;
    }

    /** Children from `i` on move up by one, and `c` comes to `i`. */
    method PutChild(i: nat, c: Node?)
      requires i <= n + 1 < ptr.Length
      modifies ptr
      ensures ptr[..n + 2] == old(ptr[..n + 1])[..i] + [c] + old(ptr[..n + 1])[i..]
    {
      forall j | i < j <= n + 1 {
        ptr[j] := ptr[j - 1];
      }
      ptr[i] := c;
    }

    /** Keys behind `i` move down by one. */
    method CutKey(i: nat)
      requires i < n <= keys.Length
      modifies keys
      ensures keys[..n - 1] == old(keys[..n])[..i] + old(keys[..n])[i + 1..]
    {
      forall j | i <= j < n - 1 {
        keys[j] := keys[j + 1];
      }
    }

    /** Children behind `i` move down by one. */
    method CutChild(i: nat)
      requires i <= n < ptr.Length
      modifies ptr
      ensures ptr[..n] == old(ptr[..n + 1])[..i] + old(ptr[..n + 1])[i + 1..]
    {
      forall j | i <= j < n {
        ptr[j] := ptr[j + 1];
      }
    }

    /** The keys of `y` from `from` up to `end`, copied to `to`. */
    method CopyKeys(y: Node, from: nat, end: nat, to: nat)
      requires y.keys != keys && from <= end <= y.keys.Length && to + (end - from) <= keys.Length
      modifies keys
      ensures keys[..to + (end - from)] == old(keys[..to]) + y.keys[from..end]
    {
      forall j | 0 <= j < end - from {
        keys[to + j] := y.keys[from + j];
      }
    }

    /** The children of `y` from `from` up to `end`, copied to `to`. */
    method CopyKids(y: Node, from: nat, end: nat, to: nat)
      requires y.ptr != ptr && from <= end <= y.ptr.Length && to + (end - from) <= ptr.Length
      modifies ptr
      ensures ptr[..to + (end - from)] == old(ptr[..to]) + y.ptr[from..end]
    {
      forall j | 0 <= j < end - from {
        ptr[to + j] := y.ptr[from + j];
      }
    }

    // ---- what the operations do to one node --------------------------------------------------

    /** A key into a leaf. */
    method InsertKey(i: nat, k: int, ghost cap: nat)
      requires Shaped(cap) && !internal && i <= n < cap
      modifies this, keys
      ensures Shaped(cap) && Fields() == Cell(old(Fields().keys)[..i] + [k] + old(Fields().keys)[i..], [])
    {
      PutKey(i, k);
      n := n + 1;
    }

    /** The key and the new half of a child that has been split at `i`. */
    method InsertHalf(i: nat, k: int, z: Node, ghost cap: nat)
      requires Shaped(cap) && internal && i <= n < cap
      modifies this, keys, ptr
      ensures Shaped(cap)
      ensures Fields() == Cell(old(Fields().keys)[..i] + [k] + old(Fields().keys)[i..],
                               old(Fields().kids)[..i + 1] + [z] + old(Fields().kids)[i + 1..])
    {
      PutChild(i + 1, z);
      PutKey(i, k);
      n := n + 1;
    }

    /** The upper part of `y`, from key `t` on, into a new node. */
    method TakeTail(y: Node, t: nat, ghost cap: nat)
      requires Shaped(cap) && y.Shaped(cap) && y != this && keys != y.keys && ptr != y.ptr && internal == y.internal
      requires t <= y.n
      modifies this, keys, ptr
      ensures Shaped(cap)
      ensures Fields() == Cell(y.Fields().keys[t..], if internal then y.Fields().kids[t..] else [])
    {
      FirstKeys(y, t, y.n);
      if internal {
        FirstKids(y, t, y.n + 1);
      }
      n := y.n - t;
    }

    /** The keys of `y` from `from` up to `end`, copied to the front. */
    method FirstKeys(y: Node, from: nat, end: nat)
      requires y.keys != keys && from <= end <= y.keys.Length && end - from <= keys.Length
      modifies keys
      ensures keys[..end - from] == y.keys[..end][from..]
    {
      NothingBefore(y.keys[from..end]);
      assert keys[..0] == [];
      CopyKeys(y, from, end, 0);
    }

    method FirstKids(y: Node, from: nat, end: nat)
      requires y.ptr != ptr && from <= end <= y.ptr.Length && end - from <= ptr.Length
      modifies ptr
      ensures ptr[..end - from] == y.ptr[..end][from..]
    {
      NothingBefore(y.ptr[from..end]);
      assert ptr[..0] == [];
      CopyKids(y, from, end, 0);
    }

    method Truncate(t: nat, ghost cap: nat)
      requires Shaped(cap) && t <= n
      modifies this
      ensures Shaped(cap)
      ensures Fields() == Cell(old(Fields().keys)[..t], if internal then old(Fields().kids)[..t + 1] else [])
    {
      n := t;
    }

    method SetKey(i: nat, k: int, ghost cap: nat)
      requires Shaped(cap) && i < n
      modifies keys
      ensures Shaped(cap) && Fields() == old(Fields()).(keys := old(Fields().keys)[i := k])
    {
      keys[i] := k;
    }

    method RemoveKey(i: nat, ghost cap: nat)
      requires Shaped(cap) && !internal && i < n
      modifies this, keys
      ensures Shaped(cap) && Fields() == Cell(old(Fields().keys)[..i] + old(Fields().keys)[i + 1..], [])
    {
      CutKey(i);
      n := n - 1;
    }

    /** Key `i` and the child behind it go. */
    method RemoveAt(i: nat, ghost cap: nat)
      requires Shaped(cap) && internal && i < n
      modifies this, keys, ptr
      ensures Shaped(cap)
      ensures Fields() == Cell(old(Fields().keys)[..i] + old(Fields().keys)[i + 1..],
                               old(Fields().kids)[..i + 1] + old(Fields().kids)[i + 2..])
    {
      CutKey(i);
      CutChild(i + 1);
      n := n - 1;
    }

    /** A key, and the last child of the left neighbour, in front. */
    method PushFront(k: int, c: Node?, ghost cap: nat)
      requires Shaped(cap) && n < cap
      modifies this, keys, ptr
      ensures Shaped(cap)
      ensures Fields() == Cell([k] + old(Fields().keys), if internal then [c] + old(Fields().kids) else [])
    {
      PutFirstKey(k);
      if internal {
        PutFirstChild(c);
      }
      n := n + 1;
    }

    method PutFirstKey(k: int)
      requires n < keys.Length
      modifies keys
      ensures keys[..n + 1] == [k] + old(keys[..n])
    {
      NothingBefore([k] + keys[..n]);
      NothingBefore(keys[..n]);
      PutKey(0, k);
    }

    method PutFirstChild(c: Node?)
      requires n + 1 < ptr.Length
      modifies ptr
      ensures ptr[..n + 2] == [c] + old(ptr[..n + 1])
    {
      NothingBefore([c] + ptr[..n + 1]);
      NothingBefore(ptr[..n + 1]);
      PutChild(0, c);
    }

    /** A key, and the first child of the right neighbour, behind. */
    method PushBack(k: int, c: Node?, ghost cap: nat)
      requires Shaped(cap) && n < cap
      modifies this, keys, ptr
      ensures Shaped(cap)
      ensures Fields() == Cell(old(Fields().keys) + [k], if internal then old(Fields().kids) + [c] else [])
    {
      keys[n] := k;
      n := n + 1;
      if internal {
        ptr[n] := c;
      }
    }

    method PopBack(ghost cap: nat)
      requires Shaped(cap) && n > 0
      modifies this
      ensures Shaped(cap)
      ensures Fields() == Cell(old(Fields().keys)[..old(n) - 1], if internal then old(Fields().kids)[..old(n)] else [])
    {
      n := n - 1;
    }

    method PopFront(ghost cap: nat)
      requires Shaped(cap) && n > 0
      modifies this, keys, ptr
      ensures Shaped(cap)
      ensures Fields() == Cell(old(Fields().keys)[1..], if internal then old(Fields().kids)[1..] else [])
    {
      CutFirstKey();
      if internal {
        CutFirstChild();
      }
      n := n - 1;
    }

    method CutFirstKey()
      requires 0 < n <= keys.Length
      modifies keys
      ensures keys[..n - 1] == old(keys[..n])[1..]
    {
      NothingBefore(keys[..n][1..]);
      assert keys[..n][..0] == [];
      CutKey(0);
    }

    method CutFirstChild()
      requires n < ptr.Length
      modifies ptr
      ensures ptr[..n] == old(ptr[..n + 1])[1..]
    {
      NothingBefore(ptr[..n + 1][1..]);
      assert ptr[..n + 1][..0] == [];
      CutChild(0);
    }

    /** A key and all of the right neighbour `z` behind. */
    method AppendAll(k: int, z: Node, ghost cap: nat)
      requires Shaped(cap) && z.Shaped(cap) && z != this && keys != z.keys && ptr != z.ptr && internal == z.internal
      requires n + 1 + z.n <= cap
      modifies this, keys, ptr
      ensures Shaped(cap)
      ensures Fields() == Cell(old(Fields().keys) + [k] + z.Fields().keys,
                               if internal then old(Fields().kids) + z.Fields().kids else [])
    {
      var m := n + 1;
      AppendKeys(k, z);
      if internal {
        AppendKids(z, m);
      }
      n := m + z.n;
    }

    method AppendKeys(k: int, z: Node)
      requires keys != z.keys && n + 1 + z.n <= keys.Length && z.n <= z.keys.Length
      modifies keys
      ensures keys[..n + 1 + z.n] == old(keys[..n]) + [k] + z.keys[..z.n]
    {
      assert z.keys[0..z.n] == z.keys[..z.n];
      keys[n] := k;
      assert keys[..n + 1] == old(keys[..n]) + [k];
      CopyKeys(z, 0, z.n, n + 1);
    }

    /** The children of `z` behind the first `m` of this node. */
    method AppendKids(z: Node, m: nat)
      requires ptr != z.ptr && z.n + 1 <= z.ptr.Length && m + z.n + 1 <= ptr.Length
      modifies ptr
      ensures ptr[..m + z.n + 1] == old(ptr[..m]) + z.ptr[..z.n + 1]
    {
      assert z.ptr[0..z.n + 1] == z.ptr[..z.n + 1];
      CopyKids(z, 0, z.n + 1, m);
    }
  }
}
