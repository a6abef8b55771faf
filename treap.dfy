/**
 * The treap: a binary search tree whose nodes also carry a priority and are
 * kept in max-heap order on it, restored with the tree's rotations. The
 * priority drawn from `rand()` for a new node is a parameter here.
 * A treap node is a `Tree` node whose payload is an `Entry` (value, priority),
 * so find, the rotations, ordering and contents are those of the tree module.
 */
module Treaps {
  import opened SortedItems
  import opened BinarySearchTree

  datatype Entry<T> = Entry(value: T, priority: int)

  /** Max-heap order: no child has a higher priority than its parent. */
  predicate Heap<T>(t: Tree<Entry<T>>) {
    match t
    case Leaf => true
    case Node(l, _, e, r) =>
      Heap(l) && Heap(r)
      && (l.Node? ==> l.value.priority <= e.priority)
      && (r.Node? ==> r.value.priority <= e.priority)
  }

  /** Every priority in the tree is at most `q`. */
  predicate AtMost<T>(t: Tree<Entry<T>>, q: int) {
    match t
    case Leaf => true
    case Node(l, _, e, r) => e.priority <= q && AtMost(l, q) && AtMost(r, q)
  }

  /** The priority an insert of `k` leaves on its node: the old one if `k` is present. */
  function PriorityFor<T>(t: Tree<Entry<T>>, k: int, p: int): int {
    match Find(t, k)
    case Some(e) => e.priority
    case None => p
  }

  /** The value-only view of a treap's contents. */
  function Values<T>(t: Tree<Entry<T>>): map<int, T> {
    map k | k in Contents(t) :: Contents(t)[k].value
  }

  /** Treap::insert(node, key, value): a new key becomes a leaf with priority `p`
      that is rotated up while its priority exceeds its parent's; an existing key
      only has its value overwritten. */
  function TInsert<T>(t: Tree<Entry<T>>, k: int, v: T, p: int): (u: Tree<Entry<T>>)
    ensures u.Node?
    ensures Size(t) <= Size(u) <= Size(t) + 1
  {
    match t
    case Leaf => Node(Leaf, k, Entry(v, p), Leaf)
    case Node(l, key, e, r) =>
      if key == k then Node(l, key, Entry(v, e.priority), r)
      else if k < key then
        var l' := TInsert(l, k, v, p);
        if l'.value.priority > e.priority then RotateRight(Node(l', key, e, r)) else Node(l', key, e, r)
      else
        var r' := TInsert(r, k, v, p);
        if r'.value.priority > e.priority then RotateLeft(Node(l, key, e, r')) else Node(l, key, e, r')
  }

  /** Treap::erase(node, key): a node with two children rotates its higher-priority
      child up and follows the key down into the side it moved to. */
  function TErase<T>(t: Tree<Entry<T>>, k: int): (u: Tree<Entry<T>>)
    ensures Size(t) - 1 <= Size(u) <= Size(t)
    decreases Size(t)
  {
    match t
    case Leaf => Leaf
    case Node(l, key, e, r) =>
      if k > key then Node(l, key, e, TErase(r, k))
      else if k < key then Node(TErase(l, k), key, e, r)
      else if l.Leaf? && r.Leaf? then Leaf
      else if l.Leaf? || r.Leaf? then (if l.Leaf? then r else l)
      else if l.value.priority < r.value.priority then
        var u := RotateLeft(t);
        assert u.left == Node(l, key, e, r.left);
        assert Size(r) == Size(r.left) + 1 + Size(r.right);
        Node(TErase(u.left, k), u.key, u.value, u.right)
      else
        var u := RotateRight(t);
        assert u.right == Node(l.right, key, e, r);
        assert Size(l) == Size(l.left) + 1 + Size(l.right);
        Node(u.left, u.key, u.value, TErase(u.right, k))
  }

  // ---------------------------------------------------------------------
  // Ordering and contents

  /** Insertion follows the sorted-list insertion of the in-order sequence; the
      inserted entry keeps the old priority of an existing key. */
  lemma {:induction false} TInsertInOrder<T>(t: Tree<Entry<T>>, k: int, v: T, p: int)
    requires Ordered(t)
    ensures InOrder(TInsert(t, k, v, p)) == InsertSorted(InOrder(t), k, Entry(v, PriorityFor(t, k, p)))
  {
    match t
    case Leaf =>
    case Node(l, key, e, r) =>
      OrderedNode(t);
      var x := Entry(v, PriorityFor(t, k, p));
      if key == k {
        InsertNodeHere(InOrder(l), (key, e), InOrder(r), k, x);
      } else if k < key {
        TInsertInOrder(l, k, v, p);
        InsertNodeLeft(InOrder(l), (key, e), InOrder(r), k, x);
      } else {
        TInsertInOrder(r, k, v, p);
        InsertNodeRight(InOrder(l), (key, e), InOrder(r), k, x);
      }
  }

  /** Insert keeps BST ordering and makes the contents `old[k := value]`, keeping
      the priority of an existing key and giving a new key the priority `p`. */
  lemma TInsertView<T>(t: Tree<Entry<T>>, k: int, v: T, p: int)
    requires Ordered(t)
    ensures Ordered(TInsert(t, k, v, p))
    ensures Contents(TInsert(t, k, v, p)) ==
      Contents(t)[k := Entry(v, if k in Contents(t) then Contents(t)[k].priority else p)]
    ensures Values(TInsert(t, k, v, p)) == Values(t)[k := v]
  {
    TInsertInOrder(t, k, v, p);
    var x := Entry(v, PriorityFor(t, k, p));
    InsertSortedView(InOrder(t), k, x);
    FindView(t, k);
  }

  /** On a heap, inserting a present key only overwrites its value: no rotation happens. */
  lemma {:induction false} TInsertExisting<T>(t: Tree<Entry<T>>, k: int, v: T, p: int)
    requires Heap(t) && Find(t, k).Some?
    ensures TInsert(t, k, v, p) == Insert(t, k, Entry(v, Find(t, k).value.priority))
  {
    match t
    case Node(l, key, e, r) =>
      if key != k {
        var x := Entry(v, Find(t, k).value.priority);
        if k < key {
          TInsertExisting(l, k, v, p);
          InsertKeepsRoot(l, k, x);
        } else {
          TInsertExisting(r, k, v, p);
          InsertKeepsRoot(r, k, x);
        }
      }
  }

  /** Overwriting a present key with its own priority leaves the root priority as it was. */
  lemma InsertKeepsRoot<T>(t: Tree<Entry<T>>, k: int, x: Entry<T>)
    requires Find(t, k).Some? && x.priority == Find(t, k).value.priority
    ensures Insert(t, k, x).value.priority == t.value.priority
  {
  }

  lemma {:induction false} TEraseInOrder<T>(t: Tree<Entry<T>>, k: int)
    requires Ordered(t)
    ensures InOrder(TErase(t, k)) == EraseSorted(InOrder(t), k)
    decreases Size(t)
  {
    match t
    case Leaf =>
    case Node(l, key, e, r) =>
      OrderedNode(t);
      var L, R := InOrder(l), InOrder(r);
      if k > key {
        TEraseInOrder(r, k);
        EraseNodeRight(L, (key, e), R, k);
      } else if k < key {
        TEraseInOrder(l, k);
        EraseNodeLeft(L, (key, e), R, k);
      } else {
        EraseNodeHere(L, (key, e), R, k);
        if l.Node? && r.Node? {
          if l.value.priority < r.value.priority {
            TEraseLeftCase(t);
          } else {
            TEraseRightCase(t);
          }
        } else if l.Leaf? {
          assert L == [];
        }
      }
  }

  /** Two children, right priority higher: after the left rotation the key sits at
      the root of the new left subtree, which is where the erase continues. */
  lemma TEraseLeftShape<T>(t: Tree<Entry<T>>)
    requires t.Node? && t.left.Node? && t.right.Node?
    requires t.left.value.priority < t.right.value.priority
    ensures var r := t.right; var x := Node(t.left, t.key, t.value, r.left);
      RotateLeft(t) == Node(x, r.key, r.value, r.right)
      && TErase(t, t.key) == Node(TErase(x, t.key), r.key, r.value, r.right)
      && Size(x) < Size(t)
  {
  }

  /** Two children, left priority not lower: after the right rotation the key sits at
      the root of the new right subtree, which is where the erase continues. */
  lemma TEraseRightShape<T>(t: Tree<Entry<T>>)
    requires t.Node? && t.left.Node? && t.right.Node?
    requires !(t.left.value.priority < t.right.value.priority)
    ensures var l := t.left; var x := Node(l.right, t.key, t.value, t.right);
      RotateRight(t) == Node(l.left, l.key, l.value, x)
      && TErase(t, t.key) == Node(l.left, l.key, l.value, TErase(x, t.key))
      && Size(x) < Size(t)
  {
  }

  lemma TEraseLeftCase<T>(t: Tree<Entry<T>>)
    requires Ordered(t) && t.Node? && t.left.Node? && t.right.Node?
    requires t.left.value.priority < t.right.value.priority
    ensures InOrder(TErase(t, t.key)) == InOrder(t.left) + InOrder(t.right)
    decreases Size(t), 0
  {
    var r := t.right;
    var x := Node(t.left, t.key, t.value, r.left);
    TEraseLeftShape(t);
    var u := RotateLeft(t);
    OrderedNode(u);
    TEraseInOrder(x, t.key);
    OrderedNode(x);
    var L, RL, RR := InOrder(t.left), InOrder(r.left), InOrder(r.right);
    EraseNodeHere(L, (t.key, t.value), RL, t.key);
    Reassociate(L, RL, (r.key, r.value), RR);
  }

  lemma TEraseRightCase<T>(t: Tree<Entry<T>>)
    requires Ordered(t) && t.Node? && t.left.Node? && t.right.Node?
    requires !(t.left.value.priority < t.right.value.priority)
    ensures InOrder(TErase(t, t.key)) == InOrder(t.left) + InOrder(t.right)
    decreases Size(t), 0
  {
    var l := t.left;
    var x := Node(l.right, t.key, t.value, t.right);
    TEraseRightShape(t);
    var u := RotateRight(t);
    OrderedNode(u);
    TEraseInOrder(x, t.key);
    OrderedNode(x);
    var LL, LR, R := InOrder(l.left), InOrder(l.right), InOrder(t.right);
    EraseNodeHere(LR, (t.key, t.value), R, t.key);
    Reassociate'(LL, (l.key, l.value), LR, R);
  }

  lemma Reassociate<V>(a: seq<(int, V)>, b: seq<(int, V)>, x: (int, V), c: seq<(int, V)>)
    ensures (a + b) + [x] + c == a + (b + [x] + c)
  {
  }

  lemma Reassociate'<V>(a: seq<(int, V)>, x: (int, V), b: seq<(int, V)>, c: seq<(int, V)>)
    ensures a + [x] + (b + c) == (a + [x] + b) + c
  {
  }

  /** Erase keeps BST ordering and removes exactly `k`. */
  lemma TEraseView<T>(t: Tree<Entry<T>>, k: int)
    requires Ordered(t)
    ensures Ordered(TErase(t, k))
    ensures Contents(TErase(t, k)) == Contents(t) - {k}
    ensures Values(TErase(t, k)) == Values(t) - {k}
  {
    TEraseInOrder(t, k);
    EraseSortedView(InOrder(t), k);
  }

  /** Erasing an absent key from an ordered treap changes nothing. */
  lemma {:induction false} TEraseAbsent<T>(t: Tree<Entry<T>>, k: int)
    requires Ordered(t) && k !in Contents(t)
    ensures TErase(t, k) == t
  {
    match t
    case Leaf =>
    case Node(l, key, e, r) =>
      OrderedNode(t);
      MapOfConcat(InOrder(l) + [(key, e)], InOrder(r));
      MapOfConcat(InOrder(l), [(key, e)]);
      if k > key {
        TEraseAbsent(r, k);
      } else if k < key {
        TEraseAbsent(l, k);
      }
  }

  // ---------------------------------------------------------------------
  // Heap order

  lemma {:induction false} HeapAtMost<T>(t: Tree<Entry<T>>)
    requires Heap(t) && t.Node?
    ensures AtMost(t, t.value.priority)
  {
    if t.left.Node? {
      HeapAtMost(t.left);
      AtMostWeaken(t.left, t.left.value.priority, t.value.priority);
    }
    if t.right.Node? {
      HeapAtMost(t.right);
      AtMostWeaken(t.right, t.right.value.priority, t.value.priority);
    }
  }

  lemma {:induction false} AtMostWeaken<T>(t: Tree<Entry<T>>, q: int, q': int)
    requires AtMost(t, q) && q <= q'
    ensures AtMost(t, q')
  {
    if t.Node? {
      AtMostWeaken(t.left, q, q');
      AtMostWeaken(t.right, q, q');
    }
  }

  /** Insert keeps the max-heap order. Its result holds no priority above `q` or `p`,
      and when its root rose above `q` (the new node came up) both subtrees stay within `q`. */
  lemma {:induction false} TInsertHeap<T>(t: Tree<Entry<T>>, k: int, v: T, p: int, q: int)
    requires Heap(t) && AtMost(t, q)
    ensures var u := TInsert(t, k, v, p);
      Heap(u) && AtMost(u, if p > q then p else q)
      && (u.value.priority > q ==> AtMost(u.left, q) && AtMost(u.right, q))
    decreases t, 1
  {
    match t
    case Leaf =>
    case Node(l, key, e, r) =>
      if key == k {
        AtMostWeaken(l, q, if p > q then p else q);
        AtMostWeaken(r, q, if p > q then p else q);
      } else if k < key {
        TInsertHeapLeft(t, k, v, p, q);
      } else {
        TInsertHeapRight(t, k, v, p, q);
      }
  }

  lemma {:induction false} TInsertHeapLeft<T>(t: Tree<Entry<T>>, k: int, v: T, p: int, q: int)
    requires Heap(t) && AtMost(t, q) && t.Node? && k < t.key
    ensures var u := TInsert(t, k, v, p);
      Heap(u) && AtMost(u, if p > q then p else q)
      && (u.value.priority > q ==> AtMost(u.left, q) && AtMost(u.right, q))
    decreases t, 0
  {
    HeapBelow(t);
    TInsertHeap(t.left, k, v, p, t.value.priority);
    RiseLeftHeap(TInsert(t.left, k, v, p), t.key, t.value, t.right, p, q);
  }

  lemma {:induction false} TInsertHeapRight<T>(t: Tree<Entry<T>>, k: int, v: T, p: int, q: int)
    requires Heap(t) && AtMost(t, q) && t.Node? && k > t.key
    ensures var u := TInsert(t, k, v, p);
      Heap(u) && AtMost(u, if p > q then p else q)
      && (u.value.priority > q ==> AtMost(u.left, q) && AtMost(u.right, q))
    decreases t, 0
  {
    HeapBelow(t);
    TInsertHeap(t.right, k, v, p, t.value.priority);
    RiseRightHeap(t.left, t.key, t.value, TInsert(t.right, k, v, p), p, q);
  }

  /** Both subtrees of a heap stay within its root's priority. */
  lemma HeapBelow<T>(t: Tree<Entry<T>>)
    requires Heap(t) && t.Node?
    ensures Heap(t.left) && Heap(t.right)
    ensures AtMost(t.left, t.value.priority) && AtMost(t.right, t.value.priority)
  {
    if t.left.Node? { HeapAtMost(t.left); AtMostWeaken(t.left, t.left.value.priority, t.value.priority); }
    if t.right.Node? { HeapAtMost(t.right); AtMostWeaken(t.right, t.right.value.priority, t.value.priority); }
  }

  /** The left step of an insert: the grown left subtree `l'`, rotated up when its
      root outranks `e`, keeps the heap order and the bounds of `TInsertHeap`. */
  lemma RiseLeftHeap<T>(l': Tree<Entry<T>>, key: int, e: Entry<T>, r: Tree<Entry<T>>, p: int, q: int)
    requires l'.Node? && e.priority <= q && Heap(r) && AtMost(r, e.priority)
    requires Heap(l') && AtMost(l', if p > e.priority then p else e.priority)
    requires l'.value.priority > e.priority ==> AtMost(l'.left, e.priority) && AtMost(l'.right, e.priority)
    ensures var u := if l'.value.priority > e.priority then RotateRight(Node(l', key, e, r)) else Node(l', key, e, r);
      Heap(u) && AtMost(u, if p > q then p else q)
      && (u.value.priority > q ==> AtMost(u.left, q) && AtMost(u.right, q))
  {
    var m := if p > q then p else q;
    var ep := e.priority;
    AtMostWeaken(r, ep, m);
    AtMostWeaken(l', if p > ep then p else ep, m);
    if l'.value.priority > ep {
      AtMostWeaken(l'.left, ep, q);
      AtMostWeaken(l'.right, ep, q);
      AtMostWeaken(l'.left, ep, m);
      AtMostWeaken(r, ep, q);
      HeapRootBound(l'.right, ep);
    }
  }

  /** The mirror image of `RiseLeftHeap`. */
  lemma RiseRightHeap<T>(l: Tree<Entry<T>>, key: int, e: Entry<T>, r': Tree<Entry<T>>, p: int, q: int)
    requires r'.Node? && e.priority <= q && Heap(l) && AtMost(l, e.priority)
    requires Heap(r') && AtMost(r', if p > e.priority then p else e.priority)
    requires r'.value.priority > e.priority ==> AtMost(r'.left, e.priority) && AtMost(r'.right, e.priority)
    ensures var u := if r'.value.priority > e.priority then RotateLeft(Node(l, key, e, r')) else Node(l, key, e, r');
      Heap(u) && AtMost(u, if p > q then p else q)
      && (u.value.priority > q ==> AtMost(u.left, q) && AtMost(u.right, q))
  {
    var m := if p > q then p else q;
    var ep := e.priority;
    AtMostWeaken(l, ep, m);
    AtMostWeaken(r', if p > ep then p else ep, m);
    if r'.value.priority > ep {
      AtMostWeaken(r'.left, ep, q);
      AtMostWeaken(r'.right, ep, q);
      AtMostWeaken(r'.right, ep, m);
      AtMostWeaken(l, ep, q);
      HeapRootBound(r'.left, ep);
    }
  }

  lemma HeapRootBound<T>(t: Tree<Entry<T>>, q: int)
    requires AtMost(t, q)
    ensures t.Node? ==> t.value.priority <= q
  {
  }

  /** Erase keeps the max-heap order and never raises a priority bound; when the
      root itself holds `k`, a bound on both subtrees bounds the result. */
  lemma {:induction false} TEraseHeap<T>(t: Tree<Entry<T>>, k: int, q: int)
    requires Heap(t)
    ensures Heap(TErase(t, k))
    ensures AtMost(t, q) ==> AtMost(TErase(t, k), q)
    ensures t.Node? && t.key == k && AtMost(t.left, q) && AtMost(t.right, q) ==> AtMost(TErase(t, k), q)
    decreases Size(t)
  {
    match t
    case Leaf =>
    case Node(l, key, e, r) =>
      if k > key {
        TEraseHeap(r, k, q);
        TEraseHeap(r, k, e.priority);
        if r.Node? { HeapAtMost(r); AtMostWeaken(r, r.value.priority, e.priority); }
        HeapRootBound(TErase(r, k), e.priority);
      } else if k < key {
        TEraseHeap(l, k, q);
        TEraseHeap(l, k, e.priority);
        if l.Node? { HeapAtMost(l); AtMostWeaken(l, l.value.priority, e.priority); }
        HeapRootBound(TErase(l, k), e.priority);
      } else if l.Node? && r.Node? {
        if l.value.priority < r.value.priority {
          TEraseHeapLeftCase(t, q);
        } else {
          TEraseHeapRightCase(t, q);
        }
      }
  }

  lemma TEraseHeapLeftCase<T>(t: Tree<Entry<T>>, q: int)
    requires Heap(t) && t.Node? && t.left.Node? && t.right.Node?
    requires t.left.value.priority < t.right.value.priority
    ensures Heap(TErase(t, t.key))
    ensures AtMost(t, q) ==> AtMost(TErase(t, t.key), q)
    ensures AtMost(t.left, q) && AtMost(t.right, q) ==> AtMost(TErase(t, t.key), q)
    decreases Size(t), 0
  {
    var l, r := t.left, t.right;
    var rp := r.value.priority;
    var x := Node(l, t.key, t.value, r.left);
    assert Size(x) < Size(t);
    HeapAtMost(l);
    HeapAtMost(r);
    AtMostWeaken(l, l.value.priority, rp);
    TEraseHeap(x, t.key, rp);
    HeapRootBound(TErase(x, t.key), rp);
    if AtMost(l, q) && AtMost(r, q) {
      AtMostWeaken(TErase(x, t.key), rp, q);
    }
  }

  lemma TEraseHeapRightCase<T>(t: Tree<Entry<T>>, q: int)
    requires Heap(t) && t.Node? && t.left.Node? && t.right.Node?
    requires !(t.left.value.priority < t.right.value.priority)
    ensures Heap(TErase(t, t.key))
    ensures AtMost(t, q) ==> AtMost(TErase(t, t.key), q)
    ensures AtMost(t.left, q) && AtMost(t.right, q) ==> AtMost(TErase(t, t.key), q)
    decreases Size(t), 0
  {
    var l, r := t.left, t.right;
    var lp := l.value.priority;
    var x := Node(l.right, t.key, t.value, r);
    assert Size(x) < Size(t);
    HeapAtMost(l);
    HeapAtMost(r);
    AtMostWeaken(r, r.value.priority, lp);
    TEraseHeap(x, t.key, lp);
    HeapRootBound(TErase(x, t.key), lp);
    if AtMost(l, q) && AtMost(r, q) {
      AtMostWeaken(TErase(x, t.key), lp, q);
    }
  }
}
