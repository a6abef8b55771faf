/**
 * Sorted key/value sequences: the abstract view that all four ordered
 * containers (linked list, skip list, binary search tree, treap) refine.
 *
 * A container holding the entries `s` (in ascending key order) represents
 * the map `MapOf(s)`; the abstract contract shared by the containers is
 *   insert(k, v)  : MapOf(s) becomes MapOf(s)[k := v]
 *   erase(k)      : MapOf(s) becomes MapOf(s) - {k}
 *   find(k)       : reports k in MapOf(s) and MapOf(s)[k]
 * The functions below follow the walks of the sorted linked list (stop at
 * the first key that is not smaller), so each container can be tied to them.
 */
module SortedItems {

  datatype Option<T> = None | Some(value: T)

  /** Keys strictly ascend along the sequence. */
  predicate Sorted<V>(s: seq<(int, V)>) {
    forall i, j :: 0 <= i < j < |s| ==> s[i].0 < s[j].0
  }

  /** The map an entry sequence stands for (the first entry of a key wins). */
  function MapOf<V>(s: seq<(int, V)>): map<int, V> {
    if s == [] then map[] else MapOf(s[1..])[s[0].0 := s[0].1]
  }

  /** The number of leading entries whose key is smaller than `k`. */
  function Rank<V>(s: seq<(int, V)>, k: int): (j: nat)
    ensures j <= |s|
    ensures forall q :: 0 <= q < j ==> s[q].0 < k
    ensures j < |s| ==> s[j].0 >= k
  {
    if s == [] || s[0].0 >= k then 0 else 1 + Rank(s[1..], k)
  }

  /** Ordered insertion: overwrite an equal key, or splice before the first greater one. */
  function InsertSorted<V>(s: seq<(int, V)>, k: int, v: V): seq<(int, V)> {
    if s == [] then [(k, v)]
    else if s[0].0 == k then [(k, v)] + s[1..]
    else if s[0].0 > k then [(k, v)] + s
    else [s[0]] + InsertSorted(s[1..], k, v)
  }

  /** Ordered removal: drop an equal key, stop at the first greater one. */
  function EraseSorted<V>(s: seq<(int, V)>, k: int): seq<(int, V)> {
    if s == [] then []
    else if s[0].0 == k then s[1..]
    else if s[0].0 > k then s
    else [s[0]] + EraseSorted(s[1..], k)
  }

  /** Ordered lookup with the early exit at the first greater key. */
  function Lookup<V>(s: seq<(int, V)>, k: int): Option<V> {
    if s == [] then None
    else if s[0].0 == k then Some(s[0].1)
    else if s[0].0 > k then None
    else Lookup(s[1..], k)
  }

  /** Sorted union of two entry sequences; on equal keys the left entry is kept. */
  function Merge<V>(a: seq<(int, V)>, b: seq<(int, V)>): seq<(int, V)>
    decreases |a| + |b|
  {
    if a == [] then b
    else if b == [] then a
    else if a[0].0 < b[0].0 then [a[0]] + Merge(a[1..], b)
    else if b[0].0 < a[0].0 then [b[0]] + Merge(a, b[1..])
    else [a[0]] + Merge(a[1..], b[1..])
  }

  /** Erase the key of every entry of `t`, in the order of `t`. */
  function EraseAll<V>(s: seq<(int, V)>, t: seq<(int, V)>): seq<(int, V)>
    decreases |t|
  {
    if t == [] then s else EraseAll(EraseSorted(s, t[0].0), t[1..])
  }

  // ---------------------------------------------------------------------
  // Facts about MapOf

  lemma {:induction false} MapOfHas<V>(s: seq<(int, V)>, k: int)
    ensures k in MapOf(s) <==> exists i :: 0 <= i < |s| && s[i].0 == k
  {
    if s != [] {
      MapOfHas(s[1..], k);
      if k in MapOf(s) && k != s[0].0 {
        var i :| 0 <= i < |s[1..]| && s[1..][i].0 == k;
        assert s[i + 1].0 == k;
      }
      if exists i :: 0 <= i < |s| && s[i].0 == k {
        var i :| 0 <= i < |s| && s[i].0 == k;
        if i > 0 {
          assert s[1..][i - 1].0 == k;
        }
      }
    }
  }

  lemma SortedTail<V>(s: seq<(int, V)>)
    requires Sorted(s) && s != []
    ensures Sorted(s[1..])
    ensures forall i :: 0 <= i < |s[1..]| ==> s[1..][i].0 > s[0].0
  {
  }

  /** In a sorted sequence no key at or beyond a greater key is `k`. */
  lemma NotInAbove<V>(s: seq<(int, V)>, k: int)
    requires Sorted(s) && s != [] && s[0].0 > k
    ensures k !in MapOf(s)
  {
    MapOfHas(s, k);
  }

  lemma {:induction false} MapOfAt<V>(s: seq<(int, V)>, i: nat)
    requires Sorted(s) && i < |s|
    ensures s[i].0 in MapOf(s) && MapOf(s)[s[i].0] == s[i].1
  {
    if i > 0 {
      SortedTail(s);
      MapOfAt(s[1..], i - 1);
    }
  }

  /** A sorted sequence has one entry per key of its map. */
  lemma {:induction false} MapOfSize<V>(s: seq<(int, V)>)
    requires Sorted(s)
    ensures |MapOf(s)| == |s|
  {
    if s != [] {
      SortedTail(s);
      MapOfSize(s[1..]);
      if |s| > 1 {
        NotInAbove(s[1..], s[0].0);
      }
    }
  }

  /** With sorted keys, `k` is present exactly when the entry at its rank has it. */
  lemma HasAtRank<V>(s: seq<(int, V)>, k: int)
    requires Sorted(s)
    ensures var j := Rank(s, k);
      k in MapOf(s) <==> j < |s| && s[j].0 == k
  {
    var j := Rank(s, k);
    MapOfHas(s, k);
    if k in MapOf(s) {
      var i :| 0 <= i < |s| && s[i].0 == k;
      assert i == j;
    }
  }

  /** A cursor that passed exactly the keys below `k` stands at the rank of `k`. */
  lemma {:induction false} RankIs<V>(s: seq<(int, V)>, k: int, q: nat)
    requires q <= |s|
    requires forall p :: 0 <= p < q ==> s[p].0 < k
    requires q < |s| ==> s[q].0 >= k
    ensures Rank(s, k) == q
  {
    if q > 0 {
      RankIs(s[1..], k, q - 1);
    }
  }

  lemma SortedAppend<V>(s: seq<(int, V)>, k: int, v: V)
    requires Sorted(s) && (s == [] || s[|s| - 1].0 < k)
    ensures Sorted(s + [(k, v)])
  {
  }

  // ---------------------------------------------------------------------
  // The walks, located at the rank of the key (no ordering needed)

  lemma {:induction false} InsertAt<V>(s: seq<(int, V)>, k: int, v: V)
    ensures var j := Rank(s, k);
      InsertSorted(s, k, v) ==
        if j < |s| && s[j].0 == k then s[j := (k, v)] else s[..j] + [(k, v)] + s[j..]
  {
    var j := Rank(s, k);
    if j < |s| && s[j].0 == k {
      InsertAtHit(s, k, v);
    } else {
      InsertAtMiss(s, k, v);
    }
  }

  lemma {:induction false} InsertAtHit<V>(s: seq<(int, V)>, k: int, v: V)
    requires Rank(s, k) < |s| && s[Rank(s, k)].0 == k
    ensures InsertSorted(s, k, v) == s[Rank(s, k) := (k, v)]
  {
    if s[0].0 < k {
      var t := s[1..];
      InsertAtHit(t, k, v);
      var j := Rank(t, k);
      assert [s[0]] + t[j := (k, v)] == s[j + 1 := (k, v)];
    } else {
      assert [(k, v)] + s[1..] == s[0 := (k, v)];
    }
  }

  lemma {:induction false} InsertAtMiss<V>(s: seq<(int, V)>, k: int, v: V)
    requires !(Rank(s, k) < |s| && s[Rank(s, k)].0 == k)
    ensures var j := Rank(s, k); InsertSorted(s, k, v) == s[..j] + [(k, v)] + s[j..]
  {
    InsertSplice(s, k, v, Rank(s, k));
  }

  /** Insertion of a key that belongs between positions `j - 1` and `j`. */
  lemma {:induction false} InsertSplice<V>(s: seq<(int, V)>, k: int, v: V, j: nat)
    requires j <= |s| && (forall q :: 0 <= q < j ==> s[q].0 < k) && (j < |s| ==> s[j].0 > k)
    ensures InsertSorted(s, k, v) == s[..j] + [(k, v)] + s[j..]
  {
    if j == 0 {
      assert s[..0] == [] && s[0..] == s;
    } else {
      var t := s[1..];
      assert t[j - 1..] == s[j..];
      InsertSplice(t, k, v, j - 1);
      assert s[..j] == [s[0]] + t[..j - 1];
      SeqAssoc([s[0]], t[..j - 1], [(k, v)], t[j - 1..]);
    }
  }

  lemma SeqAssoc<V>(a: seq<V>, b: seq<V>, c: seq<V>, d: seq<V>)
    ensures a + (b + c + d) == (a + b) + c + d
  {
  }

  lemma {:induction false} EraseAt<V>(s: seq<(int, V)>, k: int)
    ensures var j := Rank(s, k);
      EraseSorted(s, k) == if j < |s| && s[j].0 == k then s[..j] + s[j + 1..] else s
  {
    var j := Rank(s, k);
    if j < |s| && s[j].0 == k {
      EraseAtHit(s, k);
    } else {
      EraseAtMiss(s, k);
    }
  }

  lemma {:induction false} EraseAtHit<V>(s: seq<(int, V)>, k: int)
    requires Rank(s, k) < |s| && s[Rank(s, k)].0 == k
    ensures var j := Rank(s, k); EraseSorted(s, k) == s[..j] + s[j + 1..]
  {
    EraseSplice(s, k, Rank(s, k));
  }

  /** Erasure of the key found at position `j`, all keys before it being smaller. */
  lemma {:induction false} EraseSplice<V>(s: seq<(int, V)>, k: int, j: nat)
    requires j < |s| && s[j].0 == k && (forall q :: 0 <= q < j ==> s[q].0 < k)
    ensures EraseSorted(s, k) == s[..j] + s[j + 1..]
  {
    if j == 0 {
      assert s[..0] + s[1..] == s[1..];
    } else {
      var t := s[1..];
      assert t[j..] == s[j + 1..];
      EraseSplice(t, k, j - 1);
      assert s[..j] == [s[0]] + t[..j - 1];
      assert [s[0]] + (t[..j - 1] + t[j..]) == ([s[0]] + t[..j - 1]) + t[j..];
    }
  }

  lemma {:induction false} EraseAtMiss<V>(s: seq<(int, V)>, k: int)
    requires !(Rank(s, k) < |s| && s[Rank(s, k)].0 == k)
    ensures EraseSorted(s, k) == s
  {
    if s != [] && s[0].0 < k {
      EraseAtMiss(s[1..], k);
      assert [s[0]] + s[1..] == s;
    }
  }

  lemma {:induction false} LookupAt<V>(s: seq<(int, V)>, k: int)
    ensures var j := Rank(s, k);
      Lookup(s, k) == if j < |s| && s[j].0 == k then Some(s[j].1) else None
  {
    if s != [] && s[0].0 < k {
      LookupAt(s[1..], k);
    }
  }

  // ---------------------------------------------------------------------
  // The abstract contract

  /** Insertion keeps the keys ascending and updates the map at `k`. */
  lemma {:induction false} InsertSortedView<V>(s: seq<(int, V)>, k: int, v: V)
    requires Sorted(s)
    ensures Sorted(InsertSorted(s, k, v))
    ensures MapOf(InsertSorted(s, k, v)) == MapOf(s)[k := v]
    ensures |InsertSorted(s, k, v)| == if k in MapOf(s) then |s| else |s| + 1
  {
    InsertAt(s, k, v);
    HasAtRank(s, k);
    InsertMap(s, k, v);
    var j := Rank(s, k);
    if j < |s| && s[j].0 == k {
      SortedReplace(s, j, (k, v));
    } else {
      SortedInsertAt(s, j, (k, v));
    }
  }

  lemma SortedReplace<V>(s: seq<(int, V)>, j: nat, x: (int, V))
    requires Sorted(s) && j < |s| && s[j].0 == x.0
    ensures Sorted(s[j := x])
  {
    var u := s[j := x];
    forall a, b | 0 <= a < b < |u| ensures u[a].0 < u[b].0 {
      assert u[a].0 == s[a].0 && u[b].0 == s[b].0;
    }
  }

  lemma SortedInsertAt<V>(s: seq<(int, V)>, j: nat, x: (int, V))
    requires Sorted(s) && j <= |s|
    requires forall q :: 0 <= q < j ==> s[q].0 < x.0
    requires j < |s| ==> s[j].0 > x.0
    ensures Sorted(s[..j] + [x] + s[j..])
  {
    var u := s[..j] + [x] + s[j..];
    assert forall p :: 0 <= p < j ==> u[p] == s[p];
    assert u[j] == x;
    assert forall p :: j < p < |u| ==> u[p] == s[p - 1];
    forall a, b | 0 <= a < b < |u| ensures u[a].0 < u[b].0 {
      if b < j {
      } else if a < j {
        assert s[a].0 < x.0;
        if b > j { assert s[b - 1].0 >= s[j].0; }
      } else if a == j {
        assert s[b - 1].0 >= s[j].0;
      } else {
      }
    }
  }

  lemma {:induction false} InsertMap<V>(s: seq<(int, V)>, k: int, v: V)
    ensures MapOf(InsertSorted(s, k, v)) == MapOf(s)[k := v]
  {
    if s != [] && s[0].0 < k {
      InsertMap(s[1..], k, v);
      assert ([s[0]] + InsertSorted(s[1..], k, v))[1..] == InsertSorted(s[1..], k, v);
    } else if s != [] && s[0].0 == k {
      assert ([(k, v)] + s[1..])[1..] == s[1..];
    } else if s != [] {
      assert ([(k, v)] + s)[1..] == s;
    }
  }

  lemma SortedDrop<V>(s: seq<(int, V)>, j: nat)
    requires Sorted(s) && j < |s|
    ensures Sorted(s[..j] + s[j + 1..])
  {
    var u := s[..j] + s[j + 1..];
    forall a, b | 0 <= a < b < |u| ensures u[a].0 < u[b].0 {
      if b < j {
        assert u[a] == s[a] && u[b] == s[b];
      } else if a < j {
        assert u[a] == s[a] && u[b] == s[b + 1];
      } else {
        assert u[a] == s[a + 1] && u[b] == s[b + 1];
      }
    }
  }

  /** Removal keeps the keys ascending and removes exactly `k` from the map. */
  lemma {:induction false} EraseSortedView<V>(s: seq<(int, V)>, k: int)
    requires Sorted(s)
    ensures Sorted(EraseSorted(s, k))
    ensures MapOf(EraseSorted(s, k)) == MapOf(s) - {k}
    ensures |EraseSorted(s, k)| == if k in MapOf(s) then |s| - 1 else |s|
  {
    EraseAt(s, k);
    HasAtRank(s, k);
    var j := Rank(s, k);
    if j < |s| && s[j].0 == k {
      SortedDrop(s, j);
    }
    EraseMap(s, k);
  }

  /** Removal by cases: a present key leaves its rank, an absent one changes nothing. */
  lemma EraseCases<V>(s: seq<(int, V)>, k: int)
    requires Sorted(s)
    ensures k in MapOf(s) ==> var j := Rank(s, k);
      j < |s| && EraseSorted(s, k) == s[..j] + s[j + 1..] && MapOf(s[..j] + s[j + 1..]) == MapOf(s) - {k}
    ensures k !in MapOf(s) ==> EraseSorted(s, k) == s
  {
    EraseAt(s, k);
    HasAtRank(s, k);
    EraseSortedView(s, k);
  }

  lemma {:induction false} EraseMap<V>(s: seq<(int, V)>, k: int)
    requires Sorted(s)
    ensures MapOf(EraseSorted(s, k)) == MapOf(s) - {k}
  {
    if s != [] {
      SortedTail(s);
      if s[0].0 < k {
        EraseMap(s[1..], k);
        assert ([s[0]] + EraseSorted(s[1..], k))[1..] == EraseSorted(s[1..], k);
      } else if s[0].0 == k {
        if |s| > 1 {
          NotInAbove(s[1..], k);
        }
      } else {
        NotInAbove(s, k);
      }
    }
  }

  /** Lookup reports presence and the stored value of the map. */
  lemma LookupView<V>(s: seq<(int, V)>, k: int)
    requires Sorted(s)
    ensures Lookup(s, k) == if k in MapOf(s) then Some(MapOf(s)[k]) else None
  {
    LookupAt(s, k);
    HasAtRank(s, k);
    var j := Rank(s, k);
    if j < |s| && s[j].0 == k {
      MapOfAt(s, j);
    }
  }

  /** Inserting a key above every present key appends it. */
  lemma InsertLast<V>(s: seq<(int, V)>, k: int, v: V)
    requires Sorted(s) && (s == [] || s[|s| - 1].0 < k)
    ensures InsertSorted(s, k, v) == s + [(k, v)]
  {
    InsertAt(s, k, v);
    assert Rank(s, k) == |s|;
    assert s[..|s|] + [(k, v)] + s[|s|..] == s + [(k, v)];
  }

  // ---------------------------------------------------------------------
  // Union and difference

  lemma SortedCons<V>(x: (int, V), t: seq<(int, V)>)
    requires Sorted(t) && (t == [] || x.0 < t[0].0)
    ensures Sorted([x] + t)
  {
    if t != [] {
      forall j | 0 < j < |[x] + t| ensures x.0 < ([x] + t)[j].0 {
        assert ([x] + t)[j] == t[j - 1];
        if j > 1 {
          assert t[0].0 < t[j - 1].0;
        }
      }
    }
  }

  /** A merge starts with the smaller of the two first keys. */
  lemma MergeHead<V>(a: seq<(int, V)>, b: seq<(int, V)>)
    requires a != [] && b != []
    ensures Merge(a, b) != []
    ensures Merge(a, b)[0].0 == if a[0].0 <= b[0].0 then a[0].0 else b[0].0
  {
  }

  /** The merge of two sorted sequences is sorted. */
  lemma {:induction false} MergeSorted<V>(a: seq<(int, V)>, b: seq<(int, V)>)
    requires Sorted(a) && Sorted(b)
    ensures Sorted(Merge(a, b))
    decreases |a| + |b|
  {
    if a != [] && b != [] {
      SortedTail(a);
      SortedTail(b);
      var a', b' := a[1..], b[1..];
      if a[0].0 < b[0].0 {
        MergeSorted(a', b);
        if a' != [] { MergeHead(a', b); }
        SortedCons(a[0], Merge(a', b));
      } else if b[0].0 < a[0].0 {
        MergeSorted(a, b');
        if b' != [] { MergeHead(a, b'); }
        SortedCons(b[0], Merge(a, b'));
      } else {
        MergeSorted(a', b');
        if a' != [] && b' != [] { MergeHead(a', b'); }
        SortedCons(a[0], Merge(a', b'));
      }
    }
  }

  /** The merge stands for the union of the two maps, the left map winning on shared keys. */
  lemma {:induction false} MergeMap<V>(a: seq<(int, V)>, b: seq<(int, V)>)
    requires Sorted(a) && Sorted(b)
    ensures MapOf(Merge(a, b)) == MapOf(b) + MapOf(a)
    decreases |a| + |b|
  {
    if a != [] && b != [] {
      SortedTail(a);
      SortedTail(b);
      var a', b' := a[1..], b[1..];
      if a[0].0 < b[0].0 {
        MergeMap(a', b);
        var m := Merge(a', b);
        assert ([a[0]] + m)[1..] == m;
        UnionLeftUpdate(MapOf(b), MapOf(a'), a[0].0, a[0].1);
      } else if b[0].0 < a[0].0 {
        MergeMap(a, b');
        var m := Merge(a, b');
        assert ([b[0]] + m)[1..] == m;
        NotInAbove(a, b[0].0);
        UnionRightUpdate(MapOf(b'), MapOf(a), b[0].0, b[0].1);
      } else {
        MergeMap(a', b');
        var m := Merge(a', b');
        assert ([a[0]] + m)[1..] == m;
        UnionBothUpdate(MapOf(b'), MapOf(a'), a[0].0, b[0].1, a[0].1);
      }
    }
  }

  lemma UnionLeftUpdate<V>(mb: map<int, V>, ma: map<int, V>, x: int, y: V)
    ensures (mb + ma)[x := y] == mb + ma[x := y]
  {
  }

  lemma UnionRightUpdate<V>(mb: map<int, V>, ma: map<int, V>, x: int, y: V)
    requires x !in ma
    ensures (mb + ma)[x := y] == mb[x := y] + ma
  {
  }

  lemma UnionBothUpdate<V>(mb: map<int, V>, ma: map<int, V>, x: int, yb: V, ya: V)
    ensures (mb + ma)[x := ya] == mb[x := yb] + ma[x := ya]
  {
  }

  /** Union: sorted, and the left operand's entries win on shared keys. */
  lemma MergeView<V>(a: seq<(int, V)>, b: seq<(int, V)>)
    requires Sorted(a) && Sorted(b)
    ensures Sorted(Merge(a, b))
    ensures MapOf(Merge(a, b)) == MapOf(b) + MapOf(a)
  {
    MergeSorted(a, b);
    MergeMap(a, b);
  }

  /** Difference: the keys of `t` are gone, everything else of `s` stays. */
  lemma {:induction false} EraseAllView<V>(s: seq<(int, V)>, t: seq<(int, V)>)
    requires Sorted(s)
    ensures Sorted(EraseAll(s, t))
    ensures MapOf(EraseAll(s, t)) == MapOf(s) - MapOf(t).Keys
    decreases |t|
  {
    if t != [] {
      EraseSortedView(s, t[0].0);
      EraseAllView(EraseSorted(s, t[0].0), t[1..]);
    }
  }

  // ---------------------------------------------------------------------
  // Concatenations (a tree's in-order sequence is left + [root] + right)

  /** The keys of `a` all lie below `k`. */
  predicate Below<V>(a: seq<(int, V)>, k: int) {
    forall i :: 0 <= i < |a| ==> a[i].0 < k
  }

  /** The keys of `b` all lie above `k`. */
  predicate Above<V>(b: seq<(int, V)>, k: int) {
    forall i :: 0 <= i < |b| ==> b[i].0 > k
  }

  lemma SortedSplit<V>(a: seq<(int, V)>, x: (int, V), b: seq<(int, V)>)
    ensures Sorted(a + [x] + b) <==> Sorted(a) && Sorted(b) && Below(a, x.0) && Above(b, x.0)
  {
    if Sorted(a) && Sorted(b) && Below(a, x.0) && Above(b, x.0) {
      SortedJoin(a, x, b);
    }
    if Sorted(a + [x] + b) {
      SortedParts(a, x, b);
    }
  }

  lemma SortedJoin<V>(a: seq<(int, V)>, x: (int, V), b: seq<(int, V)>)
    requires Sorted(a) && Sorted(b) && Below(a, x.0) && Above(b, x.0)
    ensures Sorted(a + [x] + b)
  {
    var s := a + [x] + b;
    forall i, j | 0 <= i < j < |s| ensures s[i].0 < s[j].0 {
      if j < |a| {
        assert s[i] == a[i] && s[j] == a[j];
      } else if j == |a| {
        assert s[i] == a[i] && s[j] == x;
      } else if i < |a| {
        assert s[i] == a[i] && s[j] == b[j - |a| - 1];
      } else if i == |a| {
        assert s[i] == x && s[j] == b[j - |a| - 1];
      } else {
        assert s[i] == b[i - |a| - 1] && s[j] == b[j - |a| - 1];
      }
    }
  }

  lemma SortedParts<V>(a: seq<(int, V)>, x: (int, V), b: seq<(int, V)>)
    requires Sorted(a + [x] + b)
    ensures Sorted(a) && Sorted(b) && Below(a, x.0) && Above(b, x.0)
  {
    var s := a + [x] + b;
    forall i, j | 0 <= i < j < |a| ensures a[i].0 < a[j].0 {
      assert s[i] == a[i] && s[j] == a[j];
    }
    forall i | 0 <= i < |a| ensures a[i].0 < x.0 {
      assert s[i] == a[i] && s[|a|] == x;
    }
    forall i, j | 0 <= i < j < |b| ensures b[i].0 < b[j].0 {
      assert s[|a| + 1 + i] == b[i] && s[|a| + 1 + j] == b[j];
    }
    forall i | 0 <= i < |b| ensures b[i].0 > x.0 {
      assert s[|a|] == x && s[|a| + 1 + i] == b[i];
    }
  }

  lemma {:induction false} MapOfConcat<V>(a: seq<(int, V)>, b: seq<(int, V)>)
    ensures MapOf(a + b) == MapOf(b) + MapOf(a)
  {
    if a != [] {
      MapOfConcat(a[1..], b);
      assert (a + b)[1..] == a[1..] + b;
    } else {
      assert a + b == b;
    }
  }

  lemma {:induction false} InsertLeft<V>(a: seq<(int, V)>, b: seq<(int, V)>, k: int, v: V)
    requires b == [] || b[0].0 > k
    ensures InsertSorted(a + b, k, v) == InsertSorted(a, k, v) + b
  {
    if a == [] {
      assert a + b == b;
    } else {
      assert (a + b)[0] == a[0] && (a + b)[1..] == a[1..] + b;
      if a[0].0 < k {
        InsertLeft(a[1..], b, k, v);
      }
    }
  }

  lemma {:induction false} InsertRight<V>(a: seq<(int, V)>, b: seq<(int, V)>, k: int, v: V)
    requires Below(a, k)
    ensures InsertSorted(a + b, k, v) == a + InsertSorted(b, k, v)
  {
    if a == [] {
      assert a + b == b;
    } else {
      assert (a + b)[0] == a[0] && (a + b)[1..] == a[1..] + b;
      InsertRight(a[1..], b, k, v);
    }
  }

  lemma {:induction false} EraseLeft<V>(a: seq<(int, V)>, b: seq<(int, V)>, k: int)
    requires b == [] || b[0].0 > k
    ensures EraseSorted(a + b, k) == EraseSorted(a, k) + b
  {
    if a == [] {
      assert a + b == b;
    } else {
      assert (a + b)[0] == a[0] && (a + b)[1..] == a[1..] + b;
      if a[0].0 < k {
        EraseLeft(a[1..], b, k);
      }
    }
  }

  lemma {:induction false} EraseRight<V>(a: seq<(int, V)>, b: seq<(int, V)>, k: int)
    requires Below(a, k)
    ensures EraseSorted(a + b, k) == a + EraseSorted(b, k)
  {
    if a == [] {
      assert a + b == b;
    } else {
      assert (a + b)[0] == a[0] && (a + b)[1..] == a[1..] + b;
      EraseRight(a[1..], b, k);
    }
  }

  lemma {:induction false} LookupLeft<V>(a: seq<(int, V)>, b: seq<(int, V)>, k: int)
    requires b == [] || b[0].0 > k
    ensures Lookup(a + b, k) == Lookup(a, k)
  {
    if a == [] {
      assert a + b == b;
    } else {
      assert (a + b)[0] == a[0] && (a + b)[1..] == a[1..] + b;
      if a[0].0 < k {
        LookupLeft(a[1..], b, k);
      }
    }
  }

  lemma {:induction false} LookupRight<V>(a: seq<(int, V)>, b: seq<(int, V)>, k: int)
    requires Below(a, k)
    ensures Lookup(a + b, k) == Lookup(b, k)
  {
    if a == [] {
      assert a + b == b;
    } else {
      assert (a + b)[0] == a[0] && (a + b)[1..] == a[1..] + b;
      LookupRight(a[1..], b, k);
    }
  }

  // The three positions of `k` relative to a root entry `x` between `a` and `b`

  lemma InsertNodeLeft<V>(a: seq<(int, V)>, x: (int, V), b: seq<(int, V)>, k: int, v: V)
    requires k < x.0
    ensures InsertSorted(a + [x] + b, k, v) == InsertSorted(a, k, v) + [x] + b
  {
    assert a + [x] + b == a + ([x] + b);
    InsertLeft(a, [x] + b, k, v);
  }

  lemma InsertNodeHere<V>(a: seq<(int, V)>, x: (int, V), b: seq<(int, V)>, k: int, v: V)
    requires Below(a, k) && x.0 == k
    ensures InsertSorted(a + [x] + b, k, v) == a + [(k, v)] + b
  {
    assert a + [x] + b == a + ([x] + b);
    InsertRight(a, [x] + b, k, v);
    assert ([x] + b)[1..] == b;
  }

  lemma InsertNodeRight<V>(a: seq<(int, V)>, x: (int, V), b: seq<(int, V)>, k: int, v: V)
    requires Below(a, x.0) && x.0 < k
    ensures InsertSorted(a + [x] + b, k, v) == a + [x] + InsertSorted(b, k, v)
  {
    assert Below(a + [x], k);
    InsertRight(a + [x], b, k, v);
  }

  lemma EraseNodeLeft<V>(a: seq<(int, V)>, x: (int, V), b: seq<(int, V)>, k: int)
    requires k < x.0
    ensures EraseSorted(a + [x] + b, k) == EraseSorted(a, k) + [x] + b
  {
    assert a + [x] + b == a + ([x] + b);
    EraseLeft(a, [x] + b, k);
  }

  lemma EraseNodeHere<V>(a: seq<(int, V)>, x: (int, V), b: seq<(int, V)>, k: int)
    requires Below(a, k) && x.0 == k
    ensures EraseSorted(a + [x] + b, k) == a + b
  {
    assert a + [x] + b == a + ([x] + b);
    EraseRight(a, [x] + b, k);
    assert ([x] + b)[1..] == b;
  }

  lemma EraseNodeRight<V>(a: seq<(int, V)>, x: (int, V), b: seq<(int, V)>, k: int)
    requires Below(a, x.0) && x.0 < k
    ensures EraseSorted(a + [x] + b, k) == a + [x] + EraseSorted(b, k)
  {
    assert Below(a + [x], k);
    EraseRight(a + [x], b, k);
  }

  lemma LookupNodeLeft<V>(a: seq<(int, V)>, x: (int, V), b: seq<(int, V)>, k: int)
    requires k < x.0
    ensures Lookup(a + [x] + b, k) == Lookup(a, k)
  {
    assert a + [x] + b == a + ([x] + b);
    LookupLeft(a, [x] + b, k);
  }

  lemma LookupNodeHere<V>(a: seq<(int, V)>, x: (int, V), b: seq<(int, V)>, k: int)
    requires Below(a, k) && x.0 == k
    ensures Lookup(a + [x] + b, k) == Some(x.1)
  {
    assert a + [x] + b == a + ([x] + b);
    LookupRight(a, [x] + b, k);
  }

  lemma LookupNodeRight<V>(a: seq<(int, V)>, x: (int, V), b: seq<(int, V)>, k: int)
    requires Below(a, x.0) && x.0 < k
    ensures Lookup(a + [x] + b, k) == Lookup(b, k)
  {
    assert Below(a + [x], k);
    LookupRight(a + [x], b, k);
  }
}
