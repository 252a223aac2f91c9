/** The stateful in-order iterator of iterator.go. The source keeps a pointer
    to the next node and climbs `Parent` pointers; here the node's ancestry
    is the path of left/right steps that leads to it from the root, so that
    climbing to the parent drops the path's last step and "I am my parent's
    left child" reads that step. */
module TreeIterator {
  import opened Wrappers
  import opened Index
  import opened ByteOrder

  datatype Dir = L | R

  /** The child of `n` in direction `d`; nil below nil. */
  function Child(n: Node, d: Dir): Node
  {
    if n.Nil? then Nil else if d == L then n.left else n.right
  }

  /** The subtree reached from `n` by following `p`. */
  function At(n: Node, p: seq<Dir>): Node
    decreases |p|
  {
    if p == [] then n else Child(At(n, p[..|p| - 1]), p[|p| - 1])
  }

  /** How many items of the in-order walk of `n` come before the items of the
      subtree at `p`. */
  function Offset(n: Node, p: seq<Dir>): nat
    decreases |p|
  {
    if p == [] then 0
    else
      var q := p[..|p| - 1];
      var m := At(n, q);
      if p[|p| - 1] == L || m.Nil? then Offset(n, q) else Offset(n, q) + |InOrder(m.left)| + 1
  }

  /** The position, in the in-order walk of `n`, of the node at `p`. */
  function Rank(n: Node, p: seq<Dir>): nat
  {
    Offset(n, p) + if At(n, p).Nil? then 0 else |InOrder(At(n, p).left)|
  }

  /** One step down: the subtree and offset of `p + [d]` from those of `p`. */
  lemma Step(n: Node, p: seq<Dir>, d: Dir)
    ensures At(n, p + [d]) == Child(At(n, p), d)
    ensures Offset(n, p + [d]) ==
              if d == L || At(n, p).Nil? then Offset(n, p)
              else Offset(n, p) + |InOrder(At(n, p).left)| + 1
  {
    assert (p + [d])[..|p|] == p;
  }

  /** `part` occurs in `whole` starting at `o`. */
  ghost predicate RunAt(whole: seq<Item>, o: nat, part: seq<Item>)
  {
    o + |part| <= |whole| && forall i :: 0 <= i < |part| ==> whole[o + i] == part[i]
  }

  /** The walk of a node's children occur inside the run of the node's walk:
      the left one at its start, the right one just after the node's item. */
  lemma RunChildren(whole: seq<Item>, o: nat, m: Node)
    requires m.Node? && RunAt(whole, o, InOrder(m))
    ensures RunAt(whole, o, InOrder(m.left))
    ensures RunAt(whole, o + |InOrder(m.left)| + 1, InOrder(m.right))
  {
    var s, a, b := InOrder(m), InOrder(m.left), InOrder(m.right);
    assert s == a + [Item(m.key, m.value, m.live)] + b;
    forall i | 0 <= i < |a| ensures whole[o + i] == a[i] {
      assert whole[o + i] == s[i];
    }
    forall i | 0 <= i < |b| ensures whole[o + |a| + 1 + i] == b[i] {
      assert whole[o + (|a| + 1 + i)] == s[|a| + 1 + i];
    }
  }

  /** The subtree at `p` occupies a contiguous run of the in-order walk,
      starting at `Offset(n, p)`. */
  lemma {:induction false} SubtreeRun(n: Node, p: seq<Dir>)
    ensures RunAt(InOrder(n), Offset(n, p), InOrder(At(n, p)))
    decreases |p|
  {
    if p == [] {
      assert RunAt(InOrder(n), 0, InOrder(n));
    } else {
      var q, d := p[..|p| - 1], p[|p| - 1];
      assert p == q + [d];
      Step(n, q, d);
      SubtreeRun(n, q);
      if At(n, q).Node? {
        RunChildren(InOrder(n), Offset(n, q), At(n, q));
      }
    }
  }

  /** The item of the node at `p` sits at `Rank(n, p)` in the in-order walk. */
  lemma ItemAt(n: Node, p: seq<Dir>)
    requires At(n, p).Node?
    ensures Rank(n, p) < |InOrder(n)|
    ensures InOrder(n)[Rank(n, p)] == Item(At(n, p).key, At(n, p).value, At(n, p).live)
  {
    var m := At(n, p);
    SubtreeRun(n, p);
    assert InOrder(m)[|InOrder(m.left)|] == Item(m.key, m.value, m.live);
    assert InOrder(n)[Offset(n, p) + |InOrder(m.left)|] == InOrder(m)[|InOrder(m.left)|];
  }

  /** Follows left children from the node `cur` at path `p` down to the
      leftmost node of its subtree, which is the first of its items. */
  method Leftmost(root: Node, cur: Node, p: seq<Dir>) returns (last: Node, q: seq<Dir>)
    requires cur.Node? && cur == At(root, p)
    ensures last.Node? && last.left.Nil? && last == At(root, q)
    ensures Rank(root, q) == Offset(root, p)
  {
    last, q := cur, p;
    while last.left.Node?
      invariant last.Node? && last == At(root, q)
      invariant Offset(root, q) == Offset(root, p)
      decreases last
    {
      Step(root, q, L);
      last, q := last.left, q + [L];
    }
  }

  /** Climbs from the node `cur` at path `p`, which has no right child, to
      the first ancestor reached from its left side (nil past the root):
      the node that follows `cur` in order. */
  method Successor(root: Node, cur: Node, p: seq<Dir>) returns (succ: Node, q: seq<Dir>)
    requires cur.Node? && cur.right.Nil? && cur == At(root, p)
    ensures succ.Nil? ==> Rank(root, p) + 1 == |InOrder(root)|
    ensures succ.Node? ==> succ == At(root, q) && Rank(root, q) == Rank(root, p) + 1
  {
    succ, q := cur, p;
    var pos := Rank(root, p);
    while true
      invariant succ.Node? && succ == At(root, q)
      invariant Offset(root, q) + |InOrder(succ)| == pos + 1
      decreases |q|
    {
      if q == [] {
        return Nil, q;
      }
      var up, d := q[..|q| - 1], q[|q| - 1];
      assert q == up + [d];
      Step(root, up, d);
      succ, q := At(root, up), up;
      if d == L {
        return;
      }
    }
  }

  /** The iterator: `next` is the node to return next (nil when exhausted)
      and `path` its ancestry in the tree it was created on. */
  class Iterator {
    const root: Node
    var next: Node
    var path: seq<Dir>

    ghost predicate Valid()
      reads this
    {
      next.Nil? || next == At(root, path)
    }

    /** The walk the iterator follows. */
    ghost function Items(): seq<Item>
    {
      InOrder(root)
    }

    /** How many items have been returned so far. */
    ghost function Position(): nat
      reads this
    {
      if next.Nil? then |Items()| else Rank(root, path)
    }

    /** `Tree.Iterator`: starts at the leftmost node, nil for an empty tree. */
    constructor (t: Tree)
      ensures root == t.root && Valid() && Position() == 0
    {
      root := t.root;
      if t.root.Nil? {
        next, path := Nil, [];
      } else {
        var first, p := Leftmost(t.root, t.root, []);
        next, path := first, p;
      }
    }

    /** `HasNext`: whether some item is still to come. */
    function HasNext(): (b: bool)
      reads this
      requires Valid()
      ensures b <==> Position() < |Items()|
    {
      if next.Node? then ItemAt(root, path); true else false
    }

    /** `Next`: returns the next item in order and moves to its successor:
        the leftmost node of the right subtree if there is one, otherwise the
        first ancestor reached from its left side, nil if none. */
    method Next() returns (r: Result<Item>)
      requires Valid()
      modifies this
      ensures Valid()
      ensures old(Position()) == |Items()| ==>
                r == Err("cannot call next on a nil iterator") && next == old(next)
      ensures old(Position()) < |Items()| ==>
                r == Ok(Items()[old(Position())]) && Position() == old(Position()) + 1
    {
      if next.Nil? {
        return Err("cannot call next on a nil iterator");
      }
      ItemAt(root, path);
      ghost var pos := Rank(root, path);
      assert pos == old(Position());
      r := Ok(Item(next.key, next.value, next.live));
      assert r == Ok(Items()[pos]);
      var n, p;
      if next.right.Node? {
        Step(root, path, R);
        n, p := Leftmost(root, next.right, path + [R]);
      } else {
        n, p := Successor(root, next, path);
      }
      next, path := n, p;
      assert Position() == pos + 1;
    }
  }

  /** Draining the iterator yields keys in strictly ascending order: the
      items come from the in-order walk of an ordered tree. */
  lemma IteratorAscending(it: Iterator, i: nat, j: nat)
    requires Ordered(it.root)
    requires i < j < |it.Items()|
    ensures Less(it.Items()[i].key, it.Items()[j].key)
  {
    OrderedAscending(it.root);
  }
}
