/**
 * The sorted singly linked list. Nodes live in an arena owned by the list:
 * node `n` has key `keys[n]`, value `vals[n]` and successor `next[n]`, with
 * `Null` standing for `nullptr`. An erased node stays in the arena but is no
 * longer reachable, which is all that `delete` changes for the list.
 *
 * The ghost `list` is the chain of nodes reachable from `head`, and the ghost
 * `items` the (key, value) pairs along it, which is also the order in which the
 * list's iterator yields them.
 */
module LinkedLists {
  import opened SortedItems

  const Null := -1

  class LinkedList<T> {
    var keys: seq<int>
    var vals: seq<T>
    var next: seq<int>
    var head: int
    var sz: int

    ghost var list: seq<int>
    ghost var items: seq<(int, T)>

    /** The chain from `head` visits `list` and ends in `Null`; its keys ascend. */
    ghost predicate Valid()
      reads this
    {
      Inv(keys, vals, next, head, sz, list, items)
    }

    /** The map the list stands for. */
    ghost function Contents(): map<int, T>
      reads this
    {
      MapOf(items)
    }

    /** LinkedList(): the empty list. */
    constructor ()
      ensures Valid() && items == [] && sz == 0
    {
      keys, vals, next := [], [], [];
      head, sz := Null, 0;
      list, items := [], [];
    }

    /** LinkedList(const LinkedList&): insert the other list's pairs in iteration order. */
    constructor Copy(other: LinkedList<T>)
      requires other.Valid()
      ensures Valid() && items == other.items && sz == other.sz
    {
      keys, vals, next := [], [], [];
      head, sz := Null, 0;
      list, items := [], [];
      new;
      var es := other.Elements();
      var i := 0;
      while i < |es|
        invariant 0 <= i <= |es|
        invariant Valid() && items == es[..i]
      {
        assert es[..i + 1] == es[..i] + [es[i]];
        InsertLast(es[..i], es[i].0, es[i].1);
        Insert(es[i].0, es[i].1);
        i := i + 1;
      }
      assert es[..i] == es;
    }

    /** LinkedList(LinkedList&&): take over the other list's nodes; the other is left empty. */
    constructor Move(other: LinkedList<T>)
      requires other.Valid()
      modifies other
      ensures Valid() && items == old(other.items) && sz == old(other.sz)
      ensures other.Valid() && other.items == [] && other.sz == 0
    {
      keys, vals, next := other.keys, other.vals, other.next;
      head, sz := other.head, other.sz;
      list, items := other.list, other.items;
      new;
      other.head, other.sz := Null, 0;
      other.list, other.items := [], [];
    }

    function Size(): (n: int)
      reads this
      requires Valid()
      ensures n == |Contents()|
    {
      MapOfSize(items);
      sz
    }

    /** find(key, value): on a hit the stored value, otherwise `value` comes back untouched. */
    method Find(key: int, value: T) returns (found: bool, result: T)
      requires Valid()
      ensures found <==> key in Contents()
      ensures result == if found then Contents()[key] else value
    {
      var x := head;
      ghost var q := 0;
      result := value;
      while x != Null
        invariant 0 <= q <= |list|
        invariant x == if q < |list| then list[q] else Null
        invariant forall p :: 0 <= p < q ==> items[p].0 < key
        decreases |list| - q
      {
        if keys[x] == key {
          result := vals[x];
          HasAtRankAt(key, q);
          MapOfAt(items, q);
          return true, result;
        }
        if keys[x] > key {
          HasAtRankAt(key, q);
          return false, result;
        }
        x := next[x];
        q := q + 1;
      }
      HasAtRankAt(key, q);
      return false, result;
    }

    /** The walk stopped at position `q`: `key` is present iff the node there has it. */
    lemma HasAtRankAt(key: int, q: nat)
      requires Valid() && q <= |list|
      requires forall p :: 0 <= p < q ==> items[p].0 < key
      requires q < |list| ==> items[q].0 >= key
      ensures Rank(items, key) == q
      ensures key in Contents() <==> q < |list| && items[q].0 == key
    {
      RankIs(items, key, q);
      HasAtRank(items, key);
    }

    /** insert(key, value): overwrite an equal key, or splice a new node before the first greater key. */
    method Insert(key: int, value: T)
      requires Valid()
      modifies this
      ensures Valid()
      ensures items == InsertSorted(old(items), key, value)
      ensures Contents() == old(Contents())[key := value]
      ensures sz == if key in old(Contents()) then old(sz) else old(sz) + 1
    {
      var x, prev, q, hit := Walk(key);
      if hit {
        OverwriteStep(keys, vals, next, head, sz, list, items, q, value);
        vals := vals[x := value];
        items := items[q := (key, value)];
        return;
      }
      Link(key, value, prev, q);
    }

    /** The new-node branch of insert: a node for `key` goes in after `prev`, or becomes
        the head when `prev` is null. */
    method Link(key: int, value: T, prev: int, ghost q: int)
      requires Valid() && 0 <= q <= |list|
      requires prev == if q == 0 then Null else list[q - 1]
      requires forall p :: 0 <= p < q ==> items[p].0 < key
      requires q < |list| ==> items[q].0 > key
      modifies this`keys, this`vals, this`next, this`head, this`list, this`items, this`sz
      ensures Valid() && key !in old(Contents()) && sz == old(sz) + 1
      ensures items == InsertSorted(old(items), key, value) && Contents() == old(Contents())[key := value]
    {
      ghost var K, V, N, H, S, L, I := keys, vals, next, head, sz, list, items;
      var node := |keys|;
      SpliceStep(K, V, N, H, S, L, I, q, prev, key, value);
      Attach(key, value, prev);
      list := L[..q] + [node] + L[q..];
      items := I[..q] + [(key, value)] + I[q..];
      sz := sz + 1;
    }

    /** A new node holding `key` and `value` goes after `prev`, or in front when `prev`
        is null. */
    method Attach(key: int, value: T, prev: int)
      requires prev != Null ==> 0 <= prev < |next|
      modifies this`keys, this`vals, this`next, this`head
      ensures keys == old(keys) + [key] && vals == old(vals) + [value]
      ensures next == if prev != Null then (old(next) + [old(next)[prev]])[prev := |old(keys)|] else old(next) + [old(head)]
      ensures head == if prev != Null then old(head) else |old(keys)|
    {
      var node := |keys|;
      keys, vals := keys + [key], vals + [value];
      if prev != Null {
        next := (next + [next[prev]])[prev := node];
      } else {
        next := next + [head];
        head := node;
      }
    }

    /** The walk of insert and erase: past every key below `key`, stopping at the first
        node whose key is not below it; `prev` trails one node behind. */
    method Walk(key: int) returns (x: int, prev: int, ghost q: int, hit: bool)
      requires Valid()
      ensures 0 <= q <= |list|
      ensures x == if q < |list| then list[q] else Null
      ensures prev == if q == 0 then Null else list[q - 1]
      ensures hit <==> q < |list| && items[q].0 == key
      ensures forall p :: 0 <= p < q ==> items[p].0 < key
      ensures !hit && q < |list| ==> items[q].0 > key
    {
      x, prev, q, hit := head, Null, 0, false;
      while x != Null
        invariant 0 <= q <= |list|
        invariant x == if q < |list| then list[q] else Null
        invariant prev == if q == 0 then Null else list[q - 1]
        invariant forall p :: 0 <= p < q ==> items[p].0 < key
        invariant !hit
        decreases |list| - q
      {
        if keys[x] == key {
          hit := true;
          break;
        }
        if keys[x] > key {
          break;
        }
        prev := x;
        x := next[x];
        q := q + 1;
      }
    }

    /** erase(key): unlink the node with that key; the walk gives up at a greater key. */
    method Erase(key: int)
      requires Valid()
      modifies this
      ensures Valid()
      ensures items == EraseSorted(old(items), key)
      ensures Contents() == old(Contents()) - {key}
      ensures sz == if key in old(Contents()) then old(sz) - 1 else old(sz)
      ensures key !in old(Contents()) ==> unchanged(this)
    {
      var x, prev, q, hit := Walk(key);
      if !hit {
        MissStep(items, key, q);
        return;
      }
      ghost var I := items;
      Unlink(key, x, prev, q);
      UnlinkItems(I, q);
    }

    /** The found branch of erase: the node `x` holding `key` is bypassed by `prev`, or by
        the head when `prev` is null. */
    method Unlink(key: int, x: int, prev: int, ghost q: int)
      requires Valid() && 0 <= q < |list| && x == list[q] && items[q].0 == key
      requires prev == if q == 0 then Null else list[q - 1]
      modifies this`next, this`head, this`list, this`items, this`sz
      ensures Valid() && sz == old(sz) - 1
      ensures list == old(list)[..q] + old(list)[q + 1..] && items == old(items)[..q] + old(items)[q + 1..]
    {
      ghost var K, V, N, H, S, L, I := keys, vals, next, head, sz, list, items;
      UnlinkStep(K, V, N, H, S, L, I, q, prev, key);
      var after := next[x];
      if prev != Null {
        next := next[prev := after];
      } else {
        head := after;
      }
      list := L[..q] + L[q + 1..];
      items := I[..q] + I[q + 1..];
      sz := sz - 1;
    }

    /** Iteration from begin() to end(): the pairs along the chain, in ascending key order. */
    method Elements() returns (es: seq<(int, T)>)
      requires Valid()
      ensures es == items
      ensures Sorted(es) && MapOf(es) == Contents()
    {
      var x := head;
      ghost var q := 0;
      es := [];
      while x != Null
        invariant 0 <= q <= |list|
        invariant x == if q < |list| then list[q] else Null
        invariant es == items[..q]
        decreases |list| - q
      {
        assert items[..q + 1] == items[..q] + [items[q]];
        es := es + [(keys[x], vals[x])];
        x := next[x];
        q := q + 1;
      }
      assert items[..q] == items;
    }

    /** operator+: the sorted union, built by a merge walk; the left value wins on a shared key. */
    method Union(rhs: LinkedList<T>) returns (result: LinkedList<T>)
      requires Valid() && rhs.Valid()
      ensures fresh(result) && result.Valid()
      ensures result.items == Merge(items, rhs.items)
      ensures result.Contents() == rhs.Contents() + Contents()
    {
      result := new LinkedList();
      assert items[0..] == items && rhs.items[0..] == rhs.items;
      var lhsPtr, rhsPtr, i, j := MergeHeads(rhs, result);
      i := MergeLeftRest(rhs, result, lhsPtr, i, j);
      MergeRightRest(rhs, result, rhsPtr, j);
      MergeDone(result.items, items, rhs.items);
    }

    /** The first loop of operator+: while both walks have entries, the smaller key is
        appended, the left one on a tie (skipping the right one). */
    method MergeHeads(rhs: LinkedList<T>, result: LinkedList<T>)
      returns (lhsPtr: int, rhsPtr: int, ghost i: int, ghost j: int)
      requires Valid() && rhs.Valid() && result.Valid() && result != this && result != rhs
      requires result.items + Merge(items[0..], rhs.items[0..]) == Merge(items, rhs.items)
      modifies result
      ensures result.Valid()
      ensures 0 <= i <= |items| && 0 <= j <= |rhs.items| && (i < |items| ==> j == |rhs.items|)
      ensures lhsPtr == if i < |items| then list[i] else Null
      ensures rhsPtr == if j < |rhs.items| then rhs.list[j] else Null
      ensures result.items + Merge(items[i..], rhs.items[j..]) == Merge(items, rhs.items)
    {
      ghost var a, b := items, rhs.items;
      lhsPtr, rhsPtr := head, rhs.head;
      i, j := 0, 0;
      while lhsPtr != Null && rhsPtr != Null
        invariant 0 <= i <= |a| && 0 <= j <= |b|
        invariant lhsPtr == if i < |a| then list[i] else Null
        invariant rhsPtr == if j < |b| then rhs.list[j] else Null
        invariant result.Valid()
        invariant result.items + Merge(a[i..], b[j..]) == Merge(a, b)
        decreases |a| - i + |b| - j
      {
        if keys[lhsPtr] < rhs.keys[rhsPtr] {
          MergeTakeLeft(result.items, a, b, i, j);
          result.Insert(keys[lhsPtr], vals[lhsPtr]);
          lhsPtr := next[lhsPtr];
          i := i + 1;
        } else if rhs.keys[rhsPtr] < keys[lhsPtr] {
          MergeTakeRight(result.items, a, b, i, j);
          result.Insert(rhs.keys[rhsPtr], rhs.vals[rhsPtr]);
          rhsPtr := rhs.next[rhsPtr];
          j := j + 1;
        } else {
          MergeTakeBoth(result.items, a, b, i, j);
          result.Insert(keys[lhsPtr], vals[lhsPtr]);
          lhsPtr := next[lhsPtr];
          rhsPtr := rhs.next[rhsPtr];
          i, j := i + 1, j + 1;
        }
      }
    }

    /** The second loop of operator+: the rest of the left walk is appended. */
    method MergeLeftRest(rhs: LinkedList<T>, result: LinkedList<T>, lhsPtr: int, ghost i: int, ghost j: int)
      returns (ghost i': int)
      requires Valid() && rhs.Valid() && result.Valid() && result != this && result != rhs
      requires 0 <= i <= |items| && 0 <= j <= |rhs.items| && (i < |items| ==> j == |rhs.items|)
      requires lhsPtr == if i < |items| then list[i] else Null
      requires result.items + Merge(items[i..], rhs.items[j..]) == Merge(items, rhs.items)
      modifies result
      ensures result.Valid() && i' == |items|
      ensures result.items + Merge(items[i'..], rhs.items[j..]) == Merge(items, rhs.items)
    {
      ghost var a, b := items, rhs.items;
      var ptr := lhsPtr;
      i' := i;
      while ptr != Null
        invariant 0 <= i' <= |a|
        invariant ptr == if i' < |a| then list[i'] else Null
        invariant i' < |a| ==> j == |b|
        invariant result.Valid()
        invariant result.items + Merge(a[i'..], b[j..]) == Merge(a, b)
        decreases |a| - i'
      {
        MergeTakeLeft(result.items, a, b, i', j);
        result.Insert(keys[ptr], vals[ptr]);
        ptr := next[ptr];
        i' := i' + 1;
      }
    }

    /** The third loop of operator+: the rest of the right walk is appended. */
    method MergeRightRest(rhs: LinkedList<T>, result: LinkedList<T>, rhsPtr: int, ghost j: int)
      requires Valid() && rhs.Valid() && result.Valid() && result != this && result != rhs
      requires 0 <= j <= |rhs.items|
      requires rhsPtr == if j < |rhs.items| then rhs.list[j] else Null
      requires result.items + Merge(items[|items|..], rhs.items[j..]) == Merge(items, rhs.items)
      modifies result
      ensures result.Valid()
      ensures result.items + Merge(items[|items|..], rhs.items[|rhs.items|..]) == Merge(items, rhs.items)
    {
      ghost var a, b := items, rhs.items;
      var ptr := rhsPtr;
      ghost var j' := j;
      while ptr != Null
        invariant 0 <= j' <= |b|
        invariant ptr == if j' < |b| then rhs.list[j'] else Null
        invariant result.Valid()
        invariant result.items + Merge(a[|a|..], b[j'..]) == Merge(a, b)
        decreases |b| - j'
      {
        MergeTakeRight(result.items, a, b, |a|, j');
        result.Insert(rhs.keys[ptr], rhs.vals[ptr]);
        ptr := rhs.next[ptr];
        j' := j' + 1;
      }
    }

    /** operator-: a copy of this list with every key of `rhs` erased, in `rhs` order. */
    method Difference(rhs: LinkedList<T>) returns (result: LinkedList<T>)
      requires Valid() && rhs.Valid()
      ensures fresh(result) && result.Valid()
      ensures result.items == EraseAll(items, rhs.items)
      ensures result.Contents() == Contents() - rhs.Contents().Keys
    {
      EraseAllView(items, rhs.items);
      result := new LinkedList.Copy(this);
      var es := rhs.Elements();
      var i := 0;
      while i < |es|
        invariant 0 <= i <= |es|
        invariant fresh(result) && result.Valid()
        invariant EraseAll(result.items, es[i..]) == EraseAll(items, es)
      {
        assert es[i..][0] == es[i] && es[i..][1..] == es[i + 1..];
        result.Erase(es[i].0);
        i := i + 1;
      }
    }
  }

  /** The representation invariant of a list, over the values of its fields. */
  ghost predicate Inv<T>(keys: seq<int>, vals: seq<T>, next: seq<int>, head: int, sz: int,
                         list: seq<int>, items: seq<(int, T)>) {
    |keys| == |vals| == |next|
    && Chain(next, list, head)
    && Entries(keys, vals, list, items)
    && Sorted(items)
    && sz == |list|
  }

  /** Overwriting the value of the node at position `q`, which holds the key. */
  lemma OverwriteStep<T>(keys: seq<int>, vals: seq<T>, next: seq<int>, head: int, sz: int,
                         list: seq<int>, items: seq<(int, T)>, q: nat, value: T)
    requires Inv(keys, vals, next, head, sz, list, items) && q < |list|
    ensures var key := items[q].0; var items' := items[q := (key, value)];
      Inv(keys, vals[list[q] := value], next, head, sz, list, items')
      && key in MapOf(items)
      && items' == InsertSorted(items, key, value)
      && MapOf(items') == MapOf(items)[key := value]
  {
    var key := items[q].0;
    EntriesOverwrite(keys, vals, list, items, q, value);
    OverwriteItems(items, q, value);
  }

  lemma OverwriteItems<T>(items: seq<(int, T)>, q: nat, value: T)
    requires Sorted(items) && q < |items|
    ensures var key := items[q].0; var items' := items[q := (key, value)];
      Sorted(items')
      && key in MapOf(items)
      && items' == InsertSorted(items, key, value)
      && MapOf(items') == MapOf(items)[key := value]
  {
    var key := items[q].0;
    RankIs(items, key, q);
    HasAtRank(items, key);
    InsertAtHit(items, key, value);
    InsertSortedView(items, key, value);
  }

  /** Splicing a fresh node for `(key, value)` in at position `q`, before the first greater key. */
  lemma SpliceStep<T>(keys: seq<int>, vals: seq<T>, next: seq<int>, head: int, sz: int,
                      list: seq<int>, items: seq<(int, T)>, q: nat, prev: int, key: int, value: T)
    requires Inv(keys, vals, next, head, sz, list, items) && q <= |list|
    requires prev == if q == 0 then Null else list[q - 1]
    requires forall p :: 0 <= p < q ==> items[p].0 < key
    requires q < |list| ==> items[q].0 > key
    ensures Inv(keys + [key], vals + [value],
                if prev != Null then (next + [next[prev]])[prev := |keys|] else next + [head],
                if prev != Null then head else |keys|,
                sz + 1, list[..q] + [|keys|] + list[q..], items[..q] + [(key, value)] + items[q..])
    ensures key !in MapOf(items)
    ensures items[..q] + [(key, value)] + items[q..] == InsertSorted(items, key, value)
    ensures MapOf(items[..q] + [(key, value)] + items[q..]) == MapOf(items)[key := value]
  {
    var node := |keys|;
    EntriesDistinct(keys, vals, list, items);
    if q > 0 {
      ChainInsertAfter(next, list, head, q);
    } else {
      ChainInsertFront(next, list, head);
      assert list[..q] + [node] + list[q..] == [node] + list;
    }
    EntriesInsert(keys, vals, list, items, q, key, value);
    SpliceItems(items, q, key, value);
  }

  lemma SpliceItems<T>(items: seq<(int, T)>, q: nat, key: int, value: T)
    requires Sorted(items) && q <= |items|
    requires forall p :: 0 <= p < q ==> items[p].0 < key
    requires q < |items| ==> items[q].0 > key
    ensures var items' := items[..q] + [(key, value)] + items[q..];
      Sorted(items')
      && key !in MapOf(items)
      && items' == InsertSorted(items, key, value)
      && MapOf(items') == MapOf(items)[key := value]
  {
    RankIs(items, key, q);
    HasAtRank(items, key);
    InsertAtMiss(items, key, value);
    InsertSortedView(items, key, value);
  }

  /** Unlinking the node at position `q`, which holds the key. */
  lemma UnlinkStep<T>(keys: seq<int>, vals: seq<T>, next: seq<int>, head: int, sz: int,
                      list: seq<int>, items: seq<(int, T)>, q: nat, prev: int, key: int)
    requires Inv(keys, vals, next, head, sz, list, items) && q < |list| && items[q].0 == key
    requires prev == if q == 0 then Null else list[q - 1]
    ensures Inv(keys, vals, if prev != Null then next[prev := next[list[q]]] else next,
                if prev != Null then head else next[list[q]], sz - 1,
                list[..q] + list[q + 1..], items[..q] + items[q + 1..])
    ensures key in MapOf(items)
    ensures items[..q] + items[q + 1..] == EraseSorted(items, key)
    ensures MapOf(items[..q] + items[q + 1..]) == MapOf(items) - {key}
  {
    EntriesDistinct(keys, vals, list, items);
    if q > 0 {
      ChainEraseAfter(next, list, head, q);
    } else {
      ChainEraseFront(next, list, head);
      assert list[..q] + list[q + 1..] == list[1..];
    }
    EntriesErase(keys, vals, list, items, q);
    UnlinkItems(items, q);
  }

  lemma UnlinkItems<T>(items: seq<(int, T)>, q: nat)
    requires Sorted(items) && q < |items|
    ensures var key := items[q].0; var items' := items[..q] + items[q + 1..];
      Sorted(items')
      && key in MapOf(items)
      && items' == EraseSorted(items, key)
      && MapOf(items') == MapOf(items) - {key}
  {
    var key := items[q].0;
    RankIs(items, key, q);
    HasAtRank(items, key);
    EraseAt(items, key);
    EraseSortedView(items, key);
  }

  /** The walk stopped at position `q` without meeting the key: it is absent and erase keeps everything. */
  lemma MissStep<T>(items: seq<(int, T)>, key: int, q: nat)
    requires Sorted(items) && q <= |items|
    requires forall p :: 0 <= p < q ==> items[p].0 < key
    requires q < |items| ==> items[q].0 > key
    ensures key !in MapOf(items)
    ensures EraseSorted(items, key) == items
  {
    RankIs(items, key, q);
    HasAtRank(items, key);
    EraseAt(items, key);
  }

  /** `head` and `next` link the nodes of `list` in order, ending in `Null`. */
  ghost predicate Chain(next: seq<int>, list: seq<int>, head: int) {
    (forall q :: 0 <= q < |list| ==> 0 <= list[q] < |next|)
    && head == (if list == [] then Null else list[0])
    && (forall q {:trigger next[list[q]]} :: 0 <= q < |list| ==>
          next[list[q]] == if q + 1 < |list| then list[q + 1] else Null)
  }

  /** `items` are the key/value pairs stored at the nodes of `list`. */
  ghost predicate Entries<T>(keys: seq<int>, vals: seq<T>, list: seq<int>, items: seq<(int, T)>) {
    |items| == |list|
    && (forall q :: 0 <= q < |list| ==>
          0 <= list[q] < |keys| && list[q] < |vals| && items[q] == (keys[list[q]], vals[list[q]]))
  }

  /** A chain with ascending keys visits each node once. */
  lemma EntriesDistinct<T>(keys: seq<int>, vals: seq<T>, list: seq<int>, items: seq<(int, T)>)
    requires Entries(keys, vals, list, items) && Sorted(items)
    ensures forall p, r :: 0 <= p < r < |list| ==> list[p] != list[r]
  {
    forall p, r | 0 <= p < r < |list| ensures list[p] != list[r] {
      assert items[p].0 < items[r].0;
    }
  }

  /** The linking condition of `Chain` at position `p` of `list`. */
  ghost predicate LinkAt(next: seq<int>, list: seq<int>, p: nat)
    requires p < |list| && 0 <= list[p] < |next|
  {
    next[list[p]] == if p + 1 < |list| then list[p + 1] else Null
  }

  lemma ChainFromLinks(next: seq<int>, list: seq<int>, head: int)
    requires forall p :: 0 <= p < |list| ==> 0 <= list[p] < |next|
    requires head == (if list == [] then Null else list[0])
    requires forall p :: 0 <= p < |list| ==> LinkAt(next, list, p)
    ensures Chain(next, list, head)
  {
    forall p | 0 <= p < |list|
      ensures next[list[p]] == if p + 1 < |list| then list[p + 1] else Null
    {
      assert LinkAt(next, list, p);
    }
  }

  /** Splicing a fresh node in after position `q - 1` of the chain. */
  lemma ChainInsertAfter(next: seq<int>, list: seq<int>, head: int, q: nat)
    requires Chain(next, list, head) && 0 < q <= |list|
    requires forall p, r :: 0 <= p < r < |list| ==> list[p] != list[r]
    ensures var node, prev := |next|, list[q - 1];
      Chain((next + [next[prev]])[prev := node], list[..q] + [node] + list[q..], head)
  {
    var node, prev := |next|, list[q - 1];
    var list' := list[..q] + [node] + list[q..];
    var next' := (next + [next[prev]])[prev := node];
    forall p | 0 <= p < |list'| ensures 0 <= list'[p] < |next'| && LinkAt(next', list', p) {
      if p < q - 1 {
        assert list'[p] == list[p] && list'[p + 1] == list[p + 1];
        assert list[p] != prev;
      } else if p == q - 1 {
        assert list'[p] == prev && list'[p + 1] == node;
      } else if p == q {
        assert list'[p] == node;
        if p + 1 < |list'| {
          assert list'[p + 1] == list[q];
        }
      } else {
        assert list'[p] == list[p - 1] && list[p - 1] != prev;
        if p + 1 < |list'| {
          assert list'[p + 1] == list[p];
        }
      }
    }
    ChainFromLinks(next', list', head);
  }

  /** Splicing a fresh node in at the head of the chain. */
  lemma ChainInsertFront(next: seq<int>, list: seq<int>, head: int)
    requires Chain(next, list, head)
    ensures Chain(next + [head], [|next|] + list, |next|)
  {
    var node := |next|;
    var list' := [node] + list;
    var next' := next + [head];
    forall p | 0 <= p < |list'| ensures 0 <= list'[p] < |next'| && LinkAt(next', list', p) {
      if p > 0 {
        assert list'[p] == list[p - 1];
        if p + 1 < |list'| {
          assert list'[p + 1] == list[p];
        }
      }
    }
    ChainFromLinks(next', list', node);
  }

  /** Unlinking the node at position `q > 0` of the chain. */
  lemma ChainEraseAfter(next: seq<int>, list: seq<int>, head: int, q: nat)
    requires Chain(next, list, head) && 0 < q < |list|
    requires forall p, r :: 0 <= p < r < |list| ==> list[p] != list[r]
    ensures Chain(next[list[q - 1] := next[list[q]]], list[..q] + list[q + 1..], head)
  {
    var prev := list[q - 1];
    var list' := list[..q] + list[q + 1..];
    var next' := next[prev := next[list[q]]];
    forall p | 0 <= p < |list'| ensures 0 <= list'[p] < |next'| && LinkAt(next', list', p) {
      if p < q - 1 {
        assert list'[p] == list[p] && list'[p + 1] == list[p + 1];
        assert list[p] != prev;
      } else if p == q - 1 {
        assert list'[p] == prev;
        if p + 1 < |list'| {
          assert list'[p + 1] == list[q + 1];
        }
      } else {
        assert list'[p] == list[p + 1] && list[p + 1] != prev;
        if p + 1 < |list'| {
          assert list'[p + 1] == list[p + 2];
        }
      }
    }
    ChainFromLinks(next', list', head);
  }

  /** Unlinking the first node of the chain. */
  lemma ChainEraseFront(next: seq<int>, list: seq<int>, head: int)
    requires Chain(next, list, head) && list != []
    ensures Chain(next, list[1..], next[list[0]])
  {
  }

  /** Overwriting the value of the node at position `q`. */
  lemma EntriesOverwrite<T>(keys: seq<int>, vals: seq<T>, list: seq<int>, items: seq<(int, T)>, q: nat, v: T)
    requires Entries(keys, vals, list, items) && Sorted(items) && q < |list|
    ensures Entries(keys, vals[list[q] := v], list, items[q := (keys[list[q]], v)])
  {
    EntriesDistinct(keys, vals, list, items);
  }

  /** A fresh node holding `(k, v)` placed at position `q`. */
  lemma EntriesInsert<T>(keys: seq<int>, vals: seq<T>, list: seq<int>, items: seq<(int, T)>, q: nat, k: int, v: T)
    requires Entries(keys, vals, list, items) && q <= |list| && |keys| == |vals|
    ensures Entries(keys + [k], vals + [v], list[..q] + [|keys|] + list[q..], items[..q] + [(k, v)] + items[q..])
  {
    var list' := list[..q] + [|keys|] + list[q..];
    var items' := items[..q] + [(k, v)] + items[q..];
    assert forall p :: 0 <= p < q ==> list'[p] == list[p] && items'[p] == items[p];
    assert list'[q] == |keys| && items'[q] == (k, v);
    assert forall p :: q < p < |list'| ==> list'[p] == list[p - 1] && items'[p] == items[p - 1];
  }

  /** Dropping the node at position `q`. */
  lemma EntriesErase<T>(keys: seq<int>, vals: seq<T>, list: seq<int>, items: seq<(int, T)>, q: nat)
    requires Entries(keys, vals, list, items) && q < |list|
    ensures Entries(keys, vals, list[..q] + list[q + 1..], items[..q] + items[q + 1..])
  {
    var list' := list[..q] + list[q + 1..];
    var items' := items[..q] + items[q + 1..];
    assert forall p :: 0 <= p < q ==> list'[p] == list[p] && items'[p] == items[p];
    assert forall p :: q <= p < |list'| ==> list'[p] == list[p + 1] && items'[p] == items[p + 1];
  }

  /** The merge walk takes the left entry, whose key is the smaller one. */
  lemma MergeTakeLeft<V>(done: seq<(int, V)>, a: seq<(int, V)>, b: seq<(int, V)>, i: nat, j: nat)
    requires Sorted(a) && Sorted(b) && i < |a| && j <= |b|
    requires j == |b| || a[i].0 < b[j].0
    requires done + Merge(a[i..], b[j..]) == Merge(a, b)
    ensures InsertSorted(done, a[i].0, a[i].1) + Merge(a[i + 1..], b[j..]) == Merge(a, b)
  {
    MergeSorted(a, b);
    MergeUnfold(a, b, i, j);
    AppendMerged(done, Merge(a[i..], b[j..]));
  }

  /** The merge walk takes the right entry, whose key is the smaller one. */
  lemma MergeTakeRight<V>(done: seq<(int, V)>, a: seq<(int, V)>, b: seq<(int, V)>, i: nat, j: nat)
    requires Sorted(a) && Sorted(b) && i <= |a| && j < |b|
    requires i == |a| || b[j].0 < a[i].0
    requires done + Merge(a[i..], b[j..]) == Merge(a, b)
    ensures InsertSorted(done, b[j].0, b[j].1) + Merge(a[i..], b[j + 1..]) == Merge(a, b)
  {
    MergeSorted(a, b);
    MergeUnfold(a, b, i, j);
    AppendMerged(done, Merge(a[i..], b[j..]));
  }

  /** On equal keys the merge walk takes the left entry and skips the right one. */
  lemma MergeTakeBoth<V>(done: seq<(int, V)>, a: seq<(int, V)>, b: seq<(int, V)>, i: nat, j: nat)
    requires Sorted(a) && Sorted(b) && i < |a| && j < |b|
    requires a[i].0 == b[j].0
    requires done + Merge(a[i..], b[j..]) == Merge(a, b)
    ensures InsertSorted(done, a[i].0, a[i].1) + Merge(a[i + 1..], b[j + 1..]) == Merge(a, b)
  {
    MergeSorted(a, b);
    MergeUnfold(a, b, i, j);
    AppendMerged(done, Merge(a[i..], b[j..]));
  }

  /** Both walks are exhausted: the result is the whole merge, and it stands for the union. */
  lemma MergeDone<V>(done: seq<(int, V)>, a: seq<(int, V)>, b: seq<(int, V)>)
    requires Sorted(a) && Sorted(b)
    requires done + Merge(a[|a|..], b[|b|..]) == Merge(a, b)
    ensures done == Merge(a, b)
    ensures MapOf(done) == MapOf(b) + MapOf(a)
  {
    assert a[|a|..] == [] && b[|b|..] == [];
    assert done + [] == done;
    MergeView(a, b);
  }

  /** One step of the merge walk over the suffixes `a[i..]` and `b[j..]`. */
  lemma MergeUnfold<V>(a: seq<(int, V)>, b: seq<(int, V)>, i: nat, j: nat)
    requires i <= |a| && j <= |b| && (i < |a| || j < |b|)
    ensures var m := Merge(a[i..], b[j..]);
      m != []
      && (i < |a| && (j == |b| || a[i].0 < b[j].0) ==> m[0] == a[i] && m[1..] == Merge(a[i + 1..], b[j..]))
      && (j < |b| && (i == |a| || b[j].0 < a[i].0) ==> m[0] == b[j] && m[1..] == Merge(a[i..], b[j + 1..]))
      && (i < |a| && j < |b| && a[i].0 == b[j].0 ==> m[0] == a[i] && m[1..] == Merge(a[i + 1..], b[j + 1..]))
  {
    if i < |a| {
      assert a[i..][0] == a[i] && a[i..][1..] == a[i + 1..];
    }
    if j < |b| {
      assert b[j..][0] == b[j] && b[j..][1..] == b[j + 1..];
    }
  }

  /** Appending the first entry of what is still to be merged keeps the result sorted by appending. */
  lemma AppendMerged<V>(done: seq<(int, V)>, rest: seq<(int, V)>)
    requires rest != [] && Sorted(done + rest)
    ensures Sorted(done)
    ensures InsertSorted(done, rest[0].0, rest[0].1) == done + [rest[0]]
    ensures (done + [rest[0]]) + rest[1..] == done + rest
  {
    var s := done + rest;
    assert forall p :: 0 <= p < |done| ==> s[p] == done[p];
    assert s[|done|] == rest[0];
    InsertLast(done, rest[0].0, rest[0].1);
  }
}
