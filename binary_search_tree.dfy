/**
 * The unbalanced binary search tree. Nodes are owned strictly tree-wise, so
 * the pointer rewrites through `node_T*&` are modelled as functional rebuilds
 * of a `Tree` value. The node payload `V` is generic so that the treap can
 * reuse the same nodes, rotations and find with a payload that carries its
 * priority, as the source does by instantiating the tree with its own node type.
 */
module BinarySearchTree {
  import opened SortedItems

  datatype Tree<V> = Leaf | Node(left: Tree<V>, key: int, value: V, right: Tree<V>)

  /** The in-order (key, value) sequence, the order `traverse(1)` prints keys in. */
  function InOrder<V>(t: Tree<V>): seq<(int, V)> {
    match t
    case Leaf => []
    case Node(l, k, v, r) => InOrder(l) + [(k, v)] + InOrder(r)
  }

  /** BST ordering: the in-order keys strictly ascend. */
  predicate Ordered<V>(t: Tree<V>) {
    Sorted(InOrder(t))
  }

  /** The map the tree stands for. */
  function Contents<V>(t: Tree<V>): map<int, V> {
    MapOf(InOrder(t))
  }

  function Size<V>(t: Tree<V>): nat {
    match t
    case Leaf => 0
    case Node(l, _, _, r) => Size(l) + 1 + Size(r)
  }

  /** Same nodes with the same keys in the same places; values may differ. */
  predicate SameKeys<V>(t: Tree<V>, u: Tree<V>) {
    match t
    case Leaf => u.Leaf?
    case Node(l, k, _, r) => u.Node? && u.key == k && SameKeys(l, u.left) && SameKeys(r, u.right)
  }

  /** BST::insert(node, key, value): overwrite on an equal key, else descend and add a leaf. */
  function Insert<V>(t: Tree<V>, k: int, v: V): (u: Tree<V>)
    ensures Find(u, k) == Some(v)
    ensures Size(t) <= Size(u) <= Size(t) + 1
  {
    match t
    case Leaf => Node(Leaf, k, v, Leaf)
    case Node(l, key, value, r) =>
      if key == k then Node(l, key, v, r)
      else if k < key then Node(Insert(l, k, v), key, value, r)
      else Node(l, key, value, Insert(r, k, v))
  }

  /** BST::find(node, key, value): the stored payload, or None. */
  function Find<V>(t: Tree<V>, k: int): (r: Option<V>)
    ensures r.Some? ==> (k, r.value) in InOrder(t)
  {
    match t
    case Leaf => None
    case Node(l, key, value, r) =>
      if key == k then Some(value)
      else if k < key then Find(l, k)
      else Find(r, k)
  }

  /** The entry of the leftmost node: the first entry in order. */
  function Leftmost<V>(t: Tree<V>): (e: (int, V))
    requires t.Node?
    ensures InOrder(t) != [] && e == InOrder(t)[0]
  {
    if t.left.Leaf? then (t.key, t.value) else Leftmost(t.left)
  }

  /** BST::erase(node, key): remove `k`; a node with two children takes over its
      successor's key and value, and the successor is erased from the right subtree. */
  function Erase<V>(t: Tree<V>, k: int): (u: Tree<V>)
    ensures Size(t) - 1 <= Size(u) <= Size(t)
  {
    match t
    case Leaf => Leaf
    case Node(l, key, value, r) =>
      if k > key then Node(l, key, value, Erase(r, k))
      else if k < key then Node(Erase(l, k), key, value, r)
      else if l.Leaf? && r.Leaf? then Leaf
      else if l.Leaf? || r.Leaf? then (if l.Leaf? then r else l)
      else
        var succ := Leftmost(r);
        Node(l, succ.0, succ.1, Erase(r, succ.0))
  }

  /** BST::rotate_left: the right child becomes the root; the in-order sequence is kept. */
  function RotateLeft<V>(t: Tree<V>): (u: Tree<V>)
    requires t.Node? && t.right.Node?
    ensures u.Node? && u.left.Node? && InOrder(u) == InOrder(t)
    ensures u.key == t.right.key && u.left.key == t.key
  {
    Node(Node(t.left, t.key, t.value, t.right.left), t.right.key, t.right.value, t.right.right)
  }

  /** BST::rotate_right: the left child becomes the root; the in-order sequence is kept. */
  function RotateRight<V>(t: Tree<V>): (u: Tree<V>)
    requires t.Node? && t.left.Node?
    ensures u.Node? && u.right.Node? && InOrder(u) == InOrder(t)
    ensures u.key == t.left.key && u.right.key == t.key
  {
    Node(t.left.left, t.left.key, t.left.value, Node(t.left.right, t.key, t.value, t.right))
  }

  /** BST::successor: walk left from the right child as far as possible. */
  method Successor<V>(t: Tree<V>) returns (s: Tree<V>)
    requires t.Node? && t.right.Node?
    ensures s.Node? && s.left.Leaf?
    ensures (s.key, s.value) == Leftmost(t.right)
    ensures Ordered(t) ==> s.key > t.key
  {
    var curr := t.right;
    while curr.left.Node?
      invariant curr.Node?
      invariant Leftmost(curr) == Leftmost(t.right)
      decreases curr
    {
      curr := curr.left;
    }
    s := curr;
    if Ordered(t) {
      OrderedNode(t);
    }
  }

  // ---------------------------------------------------------------------
  // Lemmas

  /** Ordering of a node splits into ordering of its subtrees around its key. */
  lemma OrderedNode<V>(t: Tree<V>)
    requires t.Node?
    ensures Ordered(t) <==>
      Ordered(t.left) && Ordered(t.right) && Below(InOrder(t.left), t.key) && Above(InOrder(t.right), t.key)
  {
    SortedSplit(InOrder(t.left), (t.key, t.value), InOrder(t.right));
  }

  /** Insertion follows the sorted-list insertion of the in-order sequence. */
  lemma {:induction false} InsertInOrder<V>(t: Tree<V>, k: int, v: V)
    requires Ordered(t)
    ensures InOrder(Insert(t, k, v)) == InsertSorted(InOrder(t), k, v)
  {
    match t
    case Leaf =>
    case Node(l, key, value, r) =>
      OrderedNode(t);
      if key == k {
        InsertNodeHere(InOrder(l), (key, value), InOrder(r), k, v);
      } else if k < key {
        InsertInOrder(l, k, v);
        InsertNodeLeft(InOrder(l), (key, value), InOrder(r), k, v);
      } else {
        InsertInOrder(r, k, v);
        InsertNodeRight(InOrder(l), (key, value), InOrder(r), k, v);
      }
  }

  /** On an ordered tree, insert keeps the ordering and makes the contents `old[k := v]`. */
  lemma InsertView<V>(t: Tree<V>, k: int, v: V)
    requires Ordered(t)
    ensures Ordered(Insert(t, k, v))
    ensures Contents(Insert(t, k, v)) == Contents(t)[k := v]
  {
    InsertInOrder(t, k, v);
    InsertSortedView(InOrder(t), k, v);
  }

  /** Inserting a key that is found only overwrites that node's value: the shape and
      keys are kept, and every other key finds what it found before. */
  lemma {:induction false} InsertExisting<V>(t: Tree<V>, k: int, v: V)
    requires Find(t, k).Some?
    ensures SameKeys(Insert(t, k, v), t)
    ensures Size(Insert(t, k, v)) == Size(t)
    ensures forall j :: j != k ==> Find(Insert(t, k, v), j) == Find(t, j)
  {
    InsertOthers(t, k, v);
    match t
    case Node(l, key, value, r) =>
      SameKeysRefl(l);
      SameKeysRefl(r);
      if key != k {
        if k < key {
          InsertExisting(l, k, v);
        } else {
          InsertExisting(r, k, v);
        }
      }
  }

  /** On any tree, insert changes what no other key finds. */
  lemma {:induction false} InsertOthers<V>(t: Tree<V>, k: int, v: V)
    ensures forall j :: j != k ==> Find(Insert(t, k, v), j) == Find(t, j)
  {
    match t
    case Leaf =>
    case Node(l, key, _, r) =>
      if k < key {
        InsertOthers(l, k, v);
      } else if k > key {
        InsertOthers(r, k, v);
      }
  }

  lemma {:induction false} SameKeysRefl<V>(t: Tree<V>)
    ensures SameKeys(t, t)
  {
    match t
    case Leaf =>
    case Node(l, _, _, r) =>
      SameKeysRefl(l);
      SameKeysRefl(r);
  }

  /** Find follows the sorted-list lookup of the in-order sequence. */
  lemma {:induction false} FindInOrder<V>(t: Tree<V>, k: int)
    requires Ordered(t)
    ensures Find(t, k) == Lookup(InOrder(t), k)
  {
    match t
    case Leaf =>
    case Node(l, key, value, r) =>
      OrderedNode(t);
      if key == k {
        LookupNodeHere(InOrder(l), (key, value), InOrder(r), k);
      } else if k < key {
        FindInOrder(l, k);
        LookupNodeLeft(InOrder(l), (key, value), InOrder(r), k);
      } else {
        FindInOrder(r, k);
        LookupNodeRight(InOrder(l), (key, value), InOrder(r), k);
      }
  }

  /** On an ordered tree, find reports presence and the stored value. */
  lemma FindView<V>(t: Tree<V>, k: int)
    requires Ordered(t)
    ensures Find(t, k) == if k in Contents(t) then Some(Contents(t)[k]) else None
  {
    FindInOrder(t, k);
    LookupView(InOrder(t), k);
  }

  /** Erasing the leftmost key of an ordered tree drops the first in-order entry. */
  lemma EraseLeftmost<V>(r: Tree<V>)
    requires Ordered(r) && r.Node?
    ensures InOrder(Erase(r, Leftmost(r).0)) == InOrder(r)[1..]
  {
    var s := InOrder(r);
    EraseInOrder(r, Leftmost(r).0);
    EraseAt(s, s[0].0);
  }

  /** Erase follows the sorted-list removal of the in-order sequence. */
  lemma {:induction false} EraseInOrder<V>(t: Tree<V>, k: int)
    requires Ordered(t)
    ensures InOrder(Erase(t, k)) == EraseSorted(InOrder(t), k)
    decreases t
  {
    match t
    case Leaf =>
    case Node(l, key, value, r) =>
      OrderedNode(t);
      var L, R := InOrder(l), InOrder(r);
      if k > key {
        EraseInOrder(r, k);
        EraseNodeRight(L, (key, value), R, k);
      } else if k < key {
        EraseInOrder(l, k);
        EraseNodeLeft(L, (key, value), R, k);
      } else {
        EraseNodeHere(L, (key, value), R, k);
        if l.Node? && r.Node? {
          EraseSuccessorCase(t);
        } else if l.Leaf? {
          assert L == [];
        }
      }
  }

  /** The two-children case: the successor's entry replaces the root's. */
  lemma EraseSuccessorCase<V>(t: Tree<V>)
    requires Ordered(t) && t.Node? && t.left.Node? && t.right.Node?
    ensures InOrder(Erase(t, t.key)) == InOrder(t.left) + InOrder(t.right)
    decreases t, 0
  {
    OrderedNode(t);
    var r := t.right;
    var succ := Leftmost(r);
    EraseInOrder(r, succ.0);
    SuccessorJoin(InOrder(t.left), InOrder(r), succ, InOrder(Erase(r, succ.0)));
  }

  /** Once the successor `x` heads `R`, putting it between `L` and `R` without it gives `L + R`. */
  lemma SuccessorJoin<V>(L: seq<(int, V)>, R: seq<(int, V)>, x: (int, V), E: seq<(int, V)>)
    requires R != [] && x == R[0] && E == EraseSorted(R, x.0)
    ensures L + [x] + E == L + R
  {
    assert E == R[1..];
    assert [x] + R[1..] == R;
    assert L + [x] + R[1..] == L + ([x] + R[1..]);
  }

  /** On an ordered tree, erase keeps the ordering and removes exactly `k`. */
  lemma EraseView<V>(t: Tree<V>, k: int)
    requires Ordered(t)
    ensures Ordered(Erase(t, k))
    ensures Contents(Erase(t, k)) == Contents(t) - {k}
  {
    EraseInOrder(t, k);
    EraseSortedView(InOrder(t), k);
  }

  /** Erasing an absent key of an ordered tree changes nothing. */
  lemma {:induction false} EraseAbsent<V>(t: Tree<V>, k: int)
    requires Ordered(t) && k !in Contents(t)
    ensures Erase(t, k) == t
  {
    match t
    case Leaf =>
    case Node(l, key, value, r) =>
      OrderedNode(t);
      MapOfConcat(InOrder(l) + [(key, value)], InOrder(r));
      MapOfConcat(InOrder(l), [(key, value)]);
      if k > key {
        EraseAbsent(r, k);
      } else if k < key {
        EraseAbsent(l, k);
      }
  }

  /** Rotations preserve BST ordering and the contents. */
  lemma RotationsView<V>(t: Tree<V>)
    requires t.Node?
    ensures t.right.Node? ==> (Ordered(RotateLeft(t)) <==> Ordered(t)) && Contents(RotateLeft(t)) == Contents(t)
    ensures t.left.Node? ==> (Ordered(RotateRight(t)) <==> Ordered(t)) && Contents(RotateRight(t)) == Contents(t)
  {
  }
}
