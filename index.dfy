/** The in-memory index of binarySearchTree.go: an unbalanced binary search
    tree keyed by byte strings, whose nodes carry a value and a marker
    (`live`; false marks a tombstone). The linked nodes are modelled as a
    datatype, the node-level recursion as functions on it, and `Tree` as a
    class whose `root` the mutating operations replace. */
module Index {
  import opened Wrappers
  import opened Codec
  import opened ByteOrder

  type Key = seq<byte>
  type Value = seq<byte>

  /** A node of the tree, or the nil pointer; `live` is the source's `marker`. */
  datatype Node = Nil | Node(left: Node, key: Key, value: Value, live: bool, right: Node)

  /** What one node carries, as an in-order walk sees it. */
  datatype Item = Item(key: Key, value: Value, live: bool)

  /** The nodes in left-root-right order, tombstones included. */
  function InOrder(n: Node): seq<Item>
  {
    match n
    case Nil => []
    case Node(l, k, v, live, r) => InOrder(l) + [Item(k, v, live)] + InOrder(r)
  }

  /** The keys of all nodes, tombstones included. */
  function Keys(n: Node): set<Key>
  {
    match n
    case Nil => {}
    case Node(l, k, _, _, r) => Keys(l) + {k} + Keys(r)
  }

  /** The binary-search-tree invariant: every key in a left subtree sorts
      before its node's key, every key in a right subtree after it. */
  ghost predicate Ordered(n: Node)
  {
    match n
    case Nil => true
    case Node(l, k, _, _, r) =>
      && Ordered(l) && Ordered(r)
      && (forall x :: x in Keys(l) ==> Less(x, k))
      && (forall x :: x in Keys(r) ==> Less(k, x))
  }

  /** Keys strictly increase along `s`. */
  ghost predicate Ascending(s: seq<Item>)
  {
    forall i, j :: 0 <= i < j < |s| ==> Less(s[i].key, s[j].key)
  }

  /** The tree with values and markers erased: its structure and keys. */
  function Shape(n: Node): Node
  {
    match n
    case Nil => Nil
    case Node(l, k, _, _, r) => Node(Shape(l), k, [], true, Shape(r))
  }

  /** Every node the in-order walk meets has its key among the tree's keys. */
  lemma {:induction false} InOrderKeys(n: Node)
    ensures forall it :: it in InOrder(n) ==> it.key in Keys(n)
  {
    match n
    case Nil =>
    case Node(l, k, v, live, r) =>
      InOrderKeys(l);
      InOrderKeys(r);
  }

  /** Every key of the tree is met by the in-order walk. */
  lemma {:induction false} KeysInOrder(n: Node, k: Key)
    requires k in Keys(n)
    ensures exists i :: 0 <= i < |InOrder(n)| && InOrder(n)[i].key == k
  {
    match n
    case Node(l, nk, v, live, r) =>
      var a, b := InOrder(l), InOrder(r);
      if k in Keys(l) {
        KeysInOrder(l, k);
        var i :| 0 <= i < |a| && a[i].key == k;
        assert InOrder(n)[i] == a[i];
      } else if k == nk {
        assert InOrder(n)[|a|].key == k;
      } else {
        KeysInOrder(r, k);
        var i :| 0 <= i < |b| && b[i].key == k;
        assert InOrder(n)[|a| + 1 + i] == b[i];
      }
  }

  /** `A + [x] + B` is ascending when its parts are and `x` separates them. */
  lemma AscendingJoin(a: seq<Item>, x: Item, b: seq<Item>)
    requires Ascending(a) && Ascending(b)
    requires forall it :: it in a ==> Less(it.key, x.key)
    requires forall it :: it in b ==> Less(x.key, it.key)
    ensures Ascending(a + [x] + b)
  {
    var s := a + [x] + b;
    forall i, j | 0 <= i < j < |s|
      ensures Less(s[i].key, s[j].key)
    {
      if i < |a| && j > |a| {
        assert s[i] in a && s[j] in b;
        LessTransitive(s[i].key, x.key, s[j].key);
      } else if i < |a| {
        assert s[i] in a;
      } else if i == |a| {
        assert s[j] in b;
      } else {
        assert s[i] == b[i - |a| - 1] && s[j] == b[j - |a| - 1];
      }
    }
  }

  /** An ordered tree's in-order walk visits keys in strictly ascending
      order, so `Ascend` and the iterator yield sorted keys. */
  lemma {:induction false} OrderedAscending(n: Node)
    requires Ordered(n)
    ensures Ascending(InOrder(n))
  {
    match n
    case Nil =>
    case Node(l, k, v, live, r) =>
      OrderedAscending(l);
      OrderedAscending(r);
      InOrderKeys(l);
      InOrderKeys(r);
      AscendingJoin(InOrder(l), Item(k, v, live), InOrder(r));
  }

  // ---------------------------------------------------------------- Get

  /** `Node.Get`: descend by comparison; an exact match answers with its
      value only if the node is live. A nil node answers "not found". */
  function Search(n: Node, key: Key): Option<Value>
  {
    match n
    case Nil => None
    case Node(l, k, v, live, r) =>
      if key == k then (if live then Some(v) else None)
      else if Less(key, k) then Search(l, key)
      else Search(r, key)
  }

  /** On an ordered tree, `Search` finds `v` exactly when a live node with
      this key and value is in the tree; missing and tombstoned keys give
      nothing. */
  lemma {:induction false} SearchSpec(n: Node, key: Key, v: Value)
    requires Ordered(n)
    ensures Search(n, key) == Some(v) <==> Item(key, v, true) in InOrder(n)
  {
    match n
    case Nil =>
    case Node(l, k, w, live, r) =>
      InOrderKeys(l);
      InOrderKeys(r);
      SearchSpec(l, key, v);
      SearchSpec(r, key, v);
      if Item(key, v, true) in InOrder(l) {
        assert Less(key, k);
        LessIrreflexive(key);
      } else if Item(key, v, true) in InOrder(r) {
        assert Less(k, key);
        LessIrreflexive(key);
        LessAsymmetric(k, key);
      }
      if key != k && !Less(key, k) {
        LessTotal(key, k);
        if Item(key, v, true) in InOrder(l) {
          LessAsymmetric(k, key);
        }
      }
      if Less(key, k) && Item(key, v, true) in InOrder(r) {
        LessAsymmetric(k, key);
      }
  }

  // ---------------------------------------------------------------- Set

  /** `Tree.Set`/`Node.Set`: descend by comparison; an equal key has only its
      value replaced (its marker is left as it was); otherwise a new live leaf
      is attached where the descent falls off the tree (the root of an empty
      tree). */
  function Insert(n: Node, key: Key, value: Value): (r: Node)
    ensures r.Node?
    ensures Keys(r) == Keys(n) + {key}
    ensures Ordered(n) ==> Ordered(r)
  {
    match n
    case Nil => Node(Nil, key, value, true, Nil)
    case Node(l, k, v, live, rt) =>
      if key == k then Node(l, k, value, live, rt)
      else if Less(key, k) then Node(Insert(l, key, value), k, v, live, rt)
      else
        LessTotal(key, k);
        Node(l, k, v, live, Insert(rt, key, value))
  }

  /** Reference insertion into a sorted list: `it` goes before the first
      element whose key is larger. */
  function InsertSorted(s: seq<Item>, it: Item): (r: seq<Item>)
    ensures |r| == |s| + 1
  {
    if s == [] then [it]
    else if Less(it.key, s[0].key) then [it] + s
    else [s[0]] + InsertSorted(s[1..], it)
  }

  lemma {:induction false} InsertSortedBefore(a: seq<Item>, c: seq<Item>, it: Item)
    requires c != [] && Less(it.key, c[0].key)
    ensures InsertSorted(a + c, it) == InsertSorted(a, it) + c
  {
    if a != [] {
      assert (a + c)[0] == a[0] && (a + c)[1..] == a[1..] + c;
      InsertSortedBefore(a[1..], c, it);
    }
  }

  lemma {:induction false} InsertSortedAfter(a: seq<Item>, c: seq<Item>, it: Item)
    requires forall x :: x in a ==> !Less(it.key, x.key)
    ensures InsertSorted(a + c, it) == a + InsertSorted(c, it)
  {
    if a != [] {
      assert (a + c)[0] == a[0] && (a + c)[1..] == a[1..] + c;
      assert a[0] in a;
      assert forall x :: x in a[1..] ==> x in a;
      InsertSortedAfter(a[1..], c, it);
      assert a == [a[0]] + a[1..];
      calc {
        InsertSorted(a + c, it);
        [a[0]] + InsertSorted(a[1..] + c, it);
        [a[0]] + (a[1..] + InsertSorted(c, it));
        a + InsertSorted(c, it);
      }
    } else {
      assert a + c == c;
    }
  }

  /** Setting an absent key adds exactly one live node, at its sorted place
      in the in-order walk; everything else keeps its order and content. */
  lemma {:induction false} InsertNew(n: Node, key: Key, value: Value)
    requires Ordered(n) && key !in Keys(n)
    ensures InOrder(Insert(n, key, value)) == InsertSorted(InOrder(n), Item(key, value, true))
  {
    match n
    case Nil =>
    case Node(l, k, v, live, r) =>
      if Less(key, k) {
        InsertNew(l, key, value);
        InsertNewLeft(n, key, value);
      } else {
        InsertNew(r, key, value);
        InsertNewRight(n, key, value);
      }
  }

  /** The step of `InsertNew` into the left subtree. */
  lemma InsertNewLeft(n: Node, key: Key, value: Value)
    requires n.Node? && Less(key, n.key)
    requires InOrder(Insert(n.left, key, value)) == InsertSorted(InOrder(n.left), Item(key, value, true))
    ensures InOrder(Insert(n, key, value)) == InsertSorted(InOrder(n), Item(key, value, true))
  {
    var it, x := Item(key, value, true), Item(n.key, n.value, n.live);
    var a, b := InOrder(n.left), InOrder(n.right);
    LessIrreflexive(key);
    InsertSortedBeforeNode(a, x, b, it);
  }

  lemma InsertSortedBeforeNode(a: seq<Item>, x: Item, b: seq<Item>, it: Item)
    requires Less(it.key, x.key)
    ensures InsertSorted(a + [x] + b, it) == InsertSorted(a, it) + [x] + b
  {
    InsertSortedBefore(a, [x] + b, it);
    assert a + [x] + b == a + ([x] + b);
    assert InsertSorted(a, it) + [x] + b == InsertSorted(a, it) + ([x] + b);
  }

  /** The step of `InsertNew` into the right subtree. */
  lemma InsertNewRight(n: Node, key: Key, value: Value)
    requires Ordered(n) && n.Node? && key != n.key && !Less(key, n.key)
    requires InOrder(Insert(n.right, key, value)) == InsertSorted(InOrder(n.right), Item(key, value, true))
    ensures InOrder(Insert(n, key, value)) == InsertSorted(InOrder(n), Item(key, value, true))
  {
    var it, k, x := Item(key, value, true), n.key, Item(n.key, n.value, n.live);
    var a, b := InOrder(n.left), InOrder(n.right);
    InOrderKeys(n.left);
    LessTotal(key, k);
    forall y | y in a + [x]
      ensures !Less(key, y.key)
    {
      if y in a {
        LessTransitive(y.key, k, key);
        LessAsymmetric(y.key, key);
      } else {
        LessAsymmetric(k, key);
      }
    }
    InsertSortedAfter(a + [x], b, it);
    assert InOrder(Insert(n, key, value)) == a + [x] + InsertSorted(b, it);
  }

  /** The items of `s` with the value of key `key` replaced by `v`; markers
      are kept. */
  function SetValue(s: seq<Item>, key: Key, v: Value): (r: seq<Item>)
  {
    seq(|s|, i requires 0 <= i < |s| => if s[i].key == key then Item(key, v, s[i].live) else s[i])
  }

  /** The items of `s` with the key `key` marked as a tombstone. */
  function MarkDeleted(s: seq<Item>, key: Key): (r: seq<Item>)
  {
    seq(|s|, i requires 0 <= i < |s| => if s[i].key == key then s[i].(live := false) else s[i])
  }

  lemma SetValueConcat(a: seq<Item>, b: seq<Item>, key: Key, v: Value)
    ensures SetValue(a + b, key, v) == SetValue(a, key, v) + SetValue(b, key, v)
  {
  }

  lemma SetValueAbsent(a: seq<Item>, key: Key, v: Value)
    requires forall it :: it in a ==> it.key != key
    ensures SetValue(a, key, v) == a
  {
    forall i | 0 <= i < |a| ensures SetValue(a, key, v)[i] == a[i] { assert a[i] in a; }
  }

  lemma MarkDeletedConcat(a: seq<Item>, b: seq<Item>, key: Key)
    ensures MarkDeleted(a + b, key) == MarkDeleted(a, key) + MarkDeleted(b, key)
  {
  }

  lemma MarkDeletedAbsent(a: seq<Item>, key: Key)
    requires forall it :: it in a ==> it.key != key
    ensures MarkDeleted(a, key) == a
  {
    forall i | 0 <= i < |a| ensures MarkDeleted(a, key)[i] == a[i] { assert a[i] in a; }
  }

  /** No key of an ordered tree's left subtree is its root key or in its
      right subtree, and vice versa. */
  lemma SubtreeKeys(n: Node)
    requires n.Node? && Ordered(n)
    ensures forall it :: it in InOrder(n.left) ==> it.key != n.key && it.key !in Keys(n.right)
    ensures forall it :: it in InOrder(n.right) ==> it.key != n.key && it.key !in Keys(n.left)
  {
    InOrderKeys(n.left);
    InOrderKeys(n.right);
    LessIrreflexive(n.key);
    forall it | it in InOrder(n.left) ensures it.key !in Keys(n.right) {
      if it.key in Keys(n.right) { LessAsymmetric(it.key, n.key); }
    }
    forall it | it in InOrder(n.right) ensures it.key !in Keys(n.left) {
      if it.key in Keys(n.left) { LessAsymmetric(it.key, n.key); }
    }
  }

  /** On an ordered tree, a key lies in the subtree its comparison with the
      root selects, and in no other part. */
  lemma KeySide(n: Node, key: Key)
    requires n.Node? && Ordered(n)
    ensures Less(key, n.key) ==> forall it :: it in InOrder(n.right) ==> it.key != key
    ensures Less(n.key, key) ==> forall it :: it in InOrder(n.left) ==> it.key != key
    ensures key == n.key ==> forall it :: it in InOrder(n.left) + InOrder(n.right) ==> it.key != key
    ensures key in Keys(n) && Less(key, n.key) ==> key in Keys(n.left)
    ensures key in Keys(n) && Less(n.key, key) ==> key in Keys(n.right)
  {
    SubtreeKeys(n);
    InOrderKeys(n.left);
    InOrderKeys(n.right);
    LessIrreflexive(key);
    if Less(key, n.key) {
      forall it | it in InOrder(n.right) ensures it.key != key {
        if it.key == key { LessAsymmetric(key, n.key); }
      }
      if key in Keys(n.right) { LessAsymmetric(key, n.key); }
    }
    if Less(n.key, key) {
      forall it | it in InOrder(n.left) ensures it.key != key {
        if it.key == key { LessAsymmetric(key, n.key); }
      }
      if key in Keys(n.left) { LessAsymmetric(key, n.key); }
    }
  }

  /** Setting a key that is present replaces its value only: the shape, the
      keys and every marker stay as they were, so the node count is
      unchanged and a tombstoned key stays deleted. */
  lemma {:induction false} InsertExisting(n: Node, key: Key, value: Value)
    requires Ordered(n) && key in Keys(n)
    ensures InOrder(Insert(n, key, value)) == SetValue(InOrder(n), key, value)
    ensures Shape(Insert(n, key, value)) == Shape(n)
  {
    match n
    case Node(l, k, v, live, r) =>
      var x := Item(k, v, live);
      var a, b := InOrder(l), InOrder(r);
      KeySide(n, key);
      SetValueConcat(a + [x], b, key, value);
      SetValueConcat(a, [x], key, value);
      if key == k {
        SetValueAbsent(a, key, value);
        SetValueAbsent(b, key, value);
        assert SetValue([x], key, value) == [Item(k, value, live)];
      } else if Less(key, k) {
        InsertExisting(l, key, value);
        SetValueAbsent(b, key, value);
        SetValueAbsent([x], key, value);
      } else {
        LessTotal(key, k);
        InsertExisting(r, key, value);
        SetValueAbsent(a + [x], key, value);
        SetValueAbsent(a, key, value);
        SetValueAbsent([x], key, value);
      }
  }

  /** What `Get` sees after `Set`: the new value under `key`, unless `key`
      was a tombstone, which stays hidden; every other key is unaffected. */
  lemma {:induction false} SearchAfterInsert(n: Node, key: Key, value: Value, other: Key)
    requires Ordered(n)
    ensures Search(Insert(n, key, value), key) ==
              if key in Keys(n) && Search(n, key).None? then None else Some(value)
    ensures other != key ==> Search(Insert(n, key, value), other) == Search(n, other)
  {
    match n
    case Nil =>
    case Node(l, k, v, live, r) =>
      if key == k {
        if key in Keys(l) { LessIrreflexive(key); }
        if key in Keys(r) { LessIrreflexive(key); }
      } else if Less(key, k) {
        SearchAfterInsert(l, key, value, other);
        if key in Keys(r) { LessAsymmetric(key, k); }
        if other != k && !Less(other, k) && other == key { }
      } else {
        LessTotal(key, k);
        SearchAfterInsert(r, key, value, other);
        if key in Keys(l) { LessAsymmetric(key, k); }
      }
  }

  // ---------------------------------------------------------------- Del

  /** `Node.Del`: descend by comparison; at the key, a live node has its
      marker flipped to false in place, a tombstone is an error; falling off
      the tree (an absent key) is an error too. Nothing is unlinked. */
  function Delete(n: Node, key: Key): Result<Node>
  {
    match n
    case Nil => Err("we can not delete a nil node")
    case Node(l, k, v, live, r) =>
      if Less(key, k) then
        match Delete(l, key)
        case Ok(l') => Ok(Node(l', k, v, live, r))
        case Err(m) => Err(m)
      else if Less(k, key) then
        match Delete(r, key)
        case Ok(r') => Ok(Node(l, k, v, live, r'))
        case Err(m) => Err(m)
      else if !live then Err("the key is already deleted")
      else Ok(Node(l, k, v, false, r))
  }

  /** `Del` succeeds exactly on a live key. It fails with "already deleted"
      on a tombstone and with "nil node" on an absent key. */
  lemma {:induction false} DeleteOutcome(n: Node, key: Key)
    requires Ordered(n)
    ensures Delete(n, key).Ok? <==> Search(n, key).Some?
    ensures Delete(n, key).Err? ==>
              Delete(n, key).msg ==
                if key in Keys(n) then "the key is already deleted" else "we can not delete a nil node"
  {
    match n
    case Nil =>
    case Node(l, k, v, live, r) =>
      LessIrreflexive(key);
      KeySide(n, key);
      InOrderKeys(l);
      InOrderKeys(r);
      if Less(key, k) {
        DeleteOutcome(l, key);
        assert key !in Keys(r) by { if key in Keys(r) { LessAsymmetric(key, k); } }
      } else if Less(k, key) {
        DeleteOutcome(r, key);
        LessAsymmetric(k, key);
        assert key !in Keys(l) by { if key in Keys(l) { LessAsymmetric(key, k); } }
      } else {
        LessTotal(key, k);
      }
  }

  /** A successful `Del` keeps the shape, hence the keys and the search-tree
      invariant. */
  lemma {:induction false} DeleteKeepsShape(n: Node, key: Key)
    requires Delete(n, key).Ok?
    ensures Shape(Delete(n, key).value) == Shape(n)
    ensures Keys(Delete(n, key).value) == Keys(n)
    ensures Ordered(n) ==> Ordered(Delete(n, key).value)
  {
    match n
    case Node(l, k, v, live, r) =>
      if Less(key, k) {
        DeleteKeepsShape(l, key);
      } else if Less(k, key) {
        DeleteKeepsShape(r, key);
      }
  }

  /** A successful `Del` on an ordered tree flips exactly the marker of the
      node holding the key: the in-order walk is the old one with that item
      tombstoned. */
  lemma {:induction false} DeleteMarks(n: Node, key: Key)
    requires Ordered(n) && Delete(n, key).Ok?
    ensures InOrder(Delete(n, key).value) == MarkDeleted(InOrder(n), key)
  {
    match n
    case Node(l, k, v, live, r) =>
      var x := Item(k, v, live);
      var a, b := InOrder(l), InOrder(r);
      KeySide(n, key);
      MarkDeletedConcat(a + [x], b, key);
      MarkDeletedConcat(a, [x], key);
      LessIrreflexive(key);
      if Less(key, k) {
        DeleteMarks(l, key);
        MarkDeletedAbsent(b, key);
        MarkDeletedAbsent([x], key);
      } else if Less(k, key) {
        LessAsymmetric(k, key);
        DeleteMarks(r, key);
        MarkDeletedAbsent(a, key);
        MarkDeletedAbsent([x], key);
      } else {
        LessTotal(key, k);
        MarkDeletedAbsent(a, key);
        MarkDeletedAbsent(b, key);
        assert MarkDeleted([x], key) == [Item(k, v, false)];
      }
  }

  /** After a successful `Del` the key reads as absent and every other key
      reads as before. */
  lemma {:induction false} SearchAfterDelete(n: Node, key: Key, other: Key)
    requires Ordered(n) && Delete(n, key).Ok?
    ensures Search(Delete(n, key).value, key).None?
    ensures other != key ==> Search(Delete(n, key).value, other) == Search(n, other)
  {
    match n
    case Node(l, k, v, live, r) =>
      LessIrreflexive(key);
      if Less(key, k) {
        SearchAfterDelete(l, key, other);
      } else if Less(k, key) {
        LessAsymmetric(k, key);
        SearchAfterDelete(r, key, other);
      } else {
        LessTotal(key, k);
      }
  }

  // ------------------------------------------------------ Len, Min, Max

  /** `Node.len`: the number of nodes, tombstones included. */
  function Size(n: Node): (c: nat)
    ensures c == |InOrder(n)|
  {
    match n
    case Nil => 0
    case Node(l, _, _, _, r) => 1 + Size(l) + Size(r)
  }

  /** `Node.min`: the key of the leftmost node, the first in order. */
  function MinKey(n: Node): (k: Key)
    requires n.Node?
    ensures InOrder(n) != [] && k == InOrder(n)[0].key
  {
    if n.left.Nil? then n.key else MinKey(n.left)
  }

  /** `Node.max`: the key of the rightmost node, the last in order. */
  function MaxKey(n: Node): (k: Key)
    requires n.Node?
    ensures InOrder(n) != [] && k == InOrder(n)[|InOrder(n)| - 1].key
  {
    if n.right.Nil? then n.key else MaxKey(n.right)
  }

  /** On an ordered tree the leftmost key is the least key and the rightmost
      key the greatest, tombstones included. */
  lemma MinMaxBound(n: Node)
    requires n.Node? && Ordered(n)
    ensures MinKey(n) in Keys(n) && MaxKey(n) in Keys(n)
    ensures forall k :: k in Keys(n) && k != MinKey(n) ==> Less(MinKey(n), k)
    ensures forall k :: k in Keys(n) && k != MaxKey(n) ==> Less(k, MaxKey(n))
  {
    var s := InOrder(n);
    InOrderKeys(n);
    OrderedAscending(n);
    assert s[0] in s && s[|s| - 1] in s;
    forall k | k in Keys(n) && k != MinKey(n)
      ensures Less(MinKey(n), k)
    {
      KeysInOrder(n, k);
      var i :| 0 <= i < |s| && s[i].key == k;
      assert i != 0;
    }
    forall k | k in Keys(n) && k != MaxKey(n)
      ensures Less(k, MaxKey(n))
    {
      KeysInOrder(n, k);
      var i :| 0 <= i < |s| && s[i].key == k;
      assert i != |s| - 1;
    }
  }

  // ------------------------------------------------------------- Ascend

  /** Reference walk of a visitor over a list of items: each (key, value) is
      offered in turn and the walk stops right after the first one the
      visitor refuses. Returns the pairs offered and whether the walk ran to
      the end. */
  function VisitPrefix(s: seq<Item>, visit: (Key, Value) -> bool): (seq<(Key, Value)>, bool)
  {
    if s == [] then ([], true)
    else if !visit(s[0].key, s[0].value) then ([(s[0].key, s[0].value)], false)
    else
      var rest := VisitPrefix(s[1..], visit);
      ([(s[0].key, s[0].value)] + rest.0, rest.1)
  }

  /** The walk offers a prefix of `s`; every pair but the last offered was
      accepted; it reports completion exactly when every item was offered
      and accepted, and otherwise the last pair offered is the refused one. */
  lemma {:induction false} VisitPrefixSpec(s: seq<Item>, visit: (Key, Value) -> bool)
    ensures var r := VisitPrefix(s, visit);
      && |r.0| <= |s|
      && (forall i :: 0 <= i < |r.0| ==> r.0[i] == (s[i].key, s[i].value))
      && (forall i :: 0 <= i < |r.0| - 1 ==> visit(s[i].key, s[i].value))
      && (r.1 <==> |r.0| == |s| && forall i :: 0 <= i < |s| ==> visit(s[i].key, s[i].value))
      && (!r.1 ==> |r.0| > 0 && !visit(s[|r.0| - 1].key, s[|r.0| - 1].value))
  {
    if s != [] && visit(s[0].key, s[0].value) {
      var t := s[1..];
      VisitPrefixSpec(t, visit);
      var rest := VisitPrefix(t, visit);
      var r := VisitPrefix(s, visit);
      assert r.0 == [(s[0].key, s[0].value)] + rest.0;
      forall i | 0 <= i < |r.0| ensures r.0[i] == (s[i].key, s[i].value) {
        if i > 0 { assert r.0[i] == rest.0[i - 1] && s[i] == t[i - 1]; }
      }
      forall i | 0 <= i < |r.0| - 1 ensures visit(s[i].key, s[i].value) {
        if i > 0 { assert s[i] == t[i - 1]; }
      }
      if forall i :: 0 <= i < |s| ==> visit(s[i].key, s[i].value) {
        forall i | 0 <= i < |t| ensures visit(t[i].key, t[i].value) { assert t[i] == s[i + 1]; }
      }
      if forall i :: 0 <= i < |t| ==> visit(t[i].key, t[i].value) {
        forall i | 0 <= i < |s| ensures visit(s[i].key, s[i].value) {
          if i > 0 { assert s[i] == t[i - 1]; }
        }
      }
      if !r.1 { assert s[|r.0| - 1] == t[|rest.0| - 1]; }
    }
  }

  lemma {:induction false} VisitPrefixConcat(a: seq<Item>, b: seq<Item>, visit: (Key, Value) -> bool)
    ensures VisitPrefix(a + b, visit) ==
              if VisitPrefix(a, visit).1
              then (VisitPrefix(a, visit).0 + VisitPrefix(b, visit).0, VisitPrefix(b, visit).1)
              else VisitPrefix(a, visit)
  {
    if a == [] {
      assert a + b == b;
      assert [] + VisitPrefix(b, visit).0 == VisitPrefix(b, visit).0;
    } else {
      assert (a + b)[0] == a[0] && (a + b)[1..] == a[1..] + b;
      VisitPrefixConcat(a[1..], b, visit);
      if visit(a[0].key, a[0].value) {
        var p := (a[0].key, a[0].value);
        var ra, rb := VisitPrefix(a[1..], visit), VisitPrefix(b, visit);
        if ra.1 {
          assert [p] + (ra.0 + rb.0) == ([p] + ra.0) + rb.0;
        }
      }
    }
  }

  /** `ascendInOrder`: in-order recursion that offers each node's key and
      value to `visit` and abandons the traversal as soon as `visit` returns
      false. Returns the pairs offered, in order, and the function's result. */
  function AscendInOrder(n: Node, visit: (Key, Value) -> bool): (seq<(Key, Value)>, bool)
  {
    match n
    case Nil => ([], true)
    case Node(l, k, v, _, r) =>
      var left := AscendInOrder(l, visit);
      if !left.1 then left
      else if !visit(k, v) then (left.0 + [(k, v)], false)
      else
        var right := AscendInOrder(r, visit);
        (left.0 + [(k, v)] + right.0, right.1)
  }

  /** The recursion offers the visitor exactly the in-order walk, tombstones
      included, up to and including the first refusal. */
  lemma {:induction false} AscendWalk(n: Node, visit: (Key, Value) -> bool)
    ensures AscendInOrder(n, visit) == VisitPrefix(InOrder(n), visit)
  {
    match n
    case Nil =>
    case Node(l, k, v, live, r) =>
      AscendWalk(l, visit);
      AscendWalk(r, visit);
      var x := Item(k, v, live);
      var rest := [x] + InOrder(r);
      VisitPrefixConcat(InOrder(l), rest, visit);
      assert InOrder(n) == InOrder(l) + rest;
      assert rest[0] == x && rest[1..] == InOrder(r);
      var vl, vr := VisitPrefix(InOrder(l), visit), VisitPrefix(InOrder(r), visit);
      if vl.1 && visit(k, v) {
        assert VisitPrefix(rest, visit) == ([(k, v)] + vr.0, vr.1);
        assert vl.0 + ([(k, v)] + vr.0) == vl.0 + [(k, v)] + vr.0;
      }
  }

  // --------------------------------------------------------------- Tree

  /** `Tree`: the handle on the root; the zero value is the empty tree. */
  class Tree {
    var root: Node

    ghost predicate Valid()
      reads this
    {
      Ordered(root)
    }

    /** The nodes in ascending key order. */
    ghost function Items(): seq<Item>
      reads this
    {
      InOrder(root)
    }

    /** `Tree{}`. */
    constructor ()
      ensures Valid() && root == Nil && Items() == []
    {
      root := Nil;
    }

    /** `Tree.Set`: on an empty tree the root becomes a live node; otherwise
        `Node.Set`. Never fails. */
    method Set(key: Key, value: Value)
      requires Valid()
      modifies this
      ensures Valid()
      ensures root == Insert(old(root), key, value)
      ensures old(root).Nil? ==> root == Node(Nil, key, value, true, Nil)
      ensures key !in Keys(old(root)) ==>
                Items() == InsertSorted(old(Items()), Item(key, value, true))
      ensures key in Keys(old(root)) ==>
                Items() == SetValue(old(Items()), key, value) && Shape(root) == Shape(old(root))
    {
      if key in Keys(root) {
        InsertExisting(root, key, value);
      } else {
        InsertNew(root, key, value);
      }
      root := Insert(root, key, value);
    }

    /** `Tree.Get`: the value of a live node with this key, or nothing for an
        empty tree, a missing key or a tombstone. */
    function Get(key: Key): (r: Option<Value>)
      reads this
      requires Valid()
      ensures r.Some? ==> Item(key, r.value, true) in Items()
      ensures forall v :: Item(key, v, true) in Items() ==> r == Some(v)
    {
      var r := Search(root, key);
      assert forall v :: Item(key, v, true) in Items() ==> r == Some(v) by {
        forall v | Item(key, v, true) in Items() ensures r == Some(v) { SearchSpec(root, key, v); }
      }
      if r.Some? then SearchSpec(root, key, r.value); r else r
    }

    /** `Tree.Del`: an empty tree is an error; otherwise `Node.Del`, which
        tombstones a live key and leaves the tree untouched on failure. */
    method Del(key: Key) returns (err: Outcome)
      requires Valid()
      modifies this
      ensures Valid()
      ensures old(root).Nil? ==> err == Fail("the tree is already empty")
      ensures err.Pass? <==> Search(old(root), key).Some?
      ensures err.Fail? ==> root == old(root)
      ensures err.Fail? && old(root).Node? ==>
                err.msg == if key in Keys(old(root)) then "the key is already deleted"
                           else "we can not delete a nil node"
      ensures err.Pass? ==>
                && Delete(old(root), key) == Ok(root)
                && Items() == MarkDeleted(old(Items()), key)
                && Shape(root) == Shape(old(root))
                && Search(root, key).None?
    {
      if root.Nil? {
        return Fail("the tree is already empty");
      }
      DeleteOutcome(root, key);
      match Delete(root, key)
      case Err(m) =>
        err := Fail(m);
      case Ok(n) =>
        DeleteKeepsShape(root, key);
        DeleteMarks(root, key);
        SearchAfterDelete(root, key, key);
        root := n;
        err := Pass;
    }

    /** `Tree.Len`: every node counts, tombstones included. */
    function Len(): (c: nat)
      reads this
      ensures c == |Items()|
    {
      Size(root)
    }

    /** `Tree.Min`: the least key (possibly a tombstone's), nil when empty. */
    function Min(): (r: Option<Key>)
      reads this
      requires Valid()
      ensures r.None? <==> root.Nil?
      ensures r.Some? ==> r.value in Keys(root) && r.value == Items()[0].key
      ensures r.Some? ==> forall k :: k in Keys(root) && k != r.value ==> Less(r.value, k)
    {
      if root.Nil? then None else MinMaxBound(root); Some(MinKey(root))
    }

    /** `Tree.Max`: the greatest key (possibly a tombstone's), nil when empty. */
    function Max(): (r: Option<Key>)
      reads this
      requires Valid()
      ensures r.None? <==> root.Nil?
      ensures r.Some? ==> r.value in Keys(root) && r.value == Items()[|Items()| - 1].key
      ensures r.Some? ==> forall k :: k in Keys(root) && k != r.value ==> Less(k, r.value)
    {
      if root.Nil? then None else MinMaxBound(root); Some(MaxKey(root))
    }

    /** `Tree.Ascend`: the (key, value) pairs offered to `visit`, in strictly
        ascending key order, stopping after the first refusal. */
    function Ascend(visit: (Key, Value) -> bool): (visited: seq<(Key, Value)>)
      reads this
      requires Valid()
      ensures visited == VisitPrefix(Items(), visit).0
      ensures forall i, j :: 0 <= i < j < |visited| ==> Less(visited[i].0, visited[j].0)
    {
      AscendWalk(root, visit);
      OrderedAscending(root);
      VisitPrefixSpec(Items(), visit);
      AscendInOrder(root, visit).0
    }
  }
}
