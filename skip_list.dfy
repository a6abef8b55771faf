/**
 * The skip list as an arena of nodes. Node `n` has `key[n]` and the vector
 * `forward[n]` of its links, one per level; `HEAD` and `NIL` are the two
 * sentinels, keyed `INT_MIN` and `INT_MAX`, and `Null` is `nullptr`. Values
 * are kept for ordinary nodes only (`value[n]`): the sentinels' values are
 * never read.
 *
 * The ghost `list` is the level-0 order of the ordinary nodes, `height[q]`
 * the number of levels of `list[q]`, and `items` its (key, value) sequence,
 * whose map is the abstract content of the skip list.
 */
module SkipLists {
  import opened SortedItems
  import opened SkipLevels
  import opened SkipRebuild

  /** Everything but the links: sentinels, node entries, heights, sorted keys. */
  ghost predicate Shape<T>(key: seq<int>, value: map<int, T>, fwd: seq<seq<int>>, sz: int,
                           list: seq<int>, height: seq<int>, items: seq<(int, T)>) {
    |key| == |fwd| >= 2
    && key[HEAD] == INT_MIN && key[NIL] == INT_MAX
    && 1 <= |fwd[HEAD]| && fwd[HEAD][|fwd[HEAD]| - 1] == NIL
    && 1 <= |fwd[NIL]| && (forall j :: 0 <= j < |fwd[NIL]| ==> fwd[NIL][j] == Null)
    && |list| == |height| == |items| && sz == |list|
    && (forall q :: 0 <= q < |list| ==>
          2 <= list[q] < |key| && list[q] in value && items[q] == (key[list[q]], value[list[q]])
          && height[q] == |fwd[list[q]]| && 1 <= height[q] < |fwd[HEAD]|)
    && Sorted(items)
  }

  ghost predicate Inv<T>(key: seq<int>, value: map<int, T>, fwd: seq<seq<int>>, sz: int,
                         list: seq<int>, height: seq<int>, items: seq<(int, T)>) {
    Shape(key, value, fwd, sz, list, height, items) && Levels(fwd, list, height)
  }

  class SkipList<T> {
    var key: seq<int>
    var value: map<int, T>
    var forward: seq<seq<int>>
    var sz: int
    ghost var list: seq<int>
    ghost var height: seq<int>
    ghost var items: seq<(int, T)>

    ghost predicate Valid()
      reads this
    {
      Inv(key, value, forward, sz, list, height, items)
    }

    ghost function Contents(): map<int, T>
      reads this
    {
      MapOf(items)
    }

    /** The head starts with the single level `[NIL]`, NIL with `[nullptr]`. */
    constructor ()
      ensures Valid() && items == [] && sz == 0 && forward[HEAD] == [NIL]
    {
      key := [INT_MIN, INT_MAX];
      value := map[];
      forward := [[NIL], [Null]];
      sz := 0;
      list, height, items := [], [], [];
    }

    /** get_highest_level: the head's top level, linked to NIL, which no node reaches. */
    function HighestLevel(): (top: int)
      requires Valid()
      reads this
      ensures 0 <= top < |forward[HEAD]| && forward[HEAD][top] == NIL
      ensures forall q :: 0 <= q < |height| ==> height[q] <= top
    {
      |forward[HEAD]| - 1
    }

    function Size(): (n: int)
      requires Valid()
      reads this
      ensures n == |Contents()|
    {
      MapOfSize(items);
      sz
    }

    /** The private find(key, update): from the top level down, `update[i]` is the last node
        of level `i` whose key is below `k`; the result is the level-0 node with key `k`, if any. */
    method Search(k: int) returns (x: int, update: seq<int>, ghost upos: seq<int>)
      requires Valid() && k < INT_MAX
      ensures |update| == |upos| == |forward[HEAD]|
      ensures forall j :: 0 <= j < |update| ==> UpdOk(list, height, update, upos, Rank(items, k), j)
      ensures x != Null <==> k in Contents()
      ensures x != Null ==> Rank(items, k) < |list| && x == list[Rank(items, k)]
      ensures x != Null ==> 0 <= x < |key| && key[x] == k
      ensures forall j :: 0 <= j < |update| ==>
        0 <= update[j] < |key| && j < |forward[update[j]]| && (update[j] == HEAD || key[update[j]] < k)
        && (forward[update[j]][j] == Null
            || (0 <= forward[update[j]][j] < |key| && key[forward[update[j]][j]] >= k))
    {
      var y;
      y, update, upos := Descend(k);
      ghost var r := Rank(items, k);
      assert UpdOk(list, height, update, upos, r, 0);
      SearchLanded(key, value, forward, sz, list, height, items, k, upos[0]);
      forall j | 0 <= j < |update|
        ensures 0 <= update[j] < |key| && j < |forward[update[j]]| && (update[j] == HEAD || key[update[j]] < k)
        ensures forward[update[j]][j] == Null
          || (0 <= forward[update[j]][j] < |key| && key[forward[update[j]][j]] >= k)
      {
        UpdMeaning(key, value, forward, sz, list, height, items, k, update, upos, j);
      }
      x := forward[y][0];
      if key[x] != k {
        x := Null;
      }
    }

    /** The outer loop of find: from the top level down to level 0, recording at each
        level the last node whose key is below `k`. */
    method Descend(k: int) returns (y: int, update: seq<int>, ghost upos: seq<int>)
      requires Valid() && k < INT_MAX
      ensures |update| == |upos| == |forward[HEAD]|
      ensures forall j :: 0 <= j < |update| ==> UpdOk(list, height, update, upos, Rank(items, k), j)
      ensures UpdOk(list, height, update, upos, Rank(items, k), 0) && y == NodeAt(list, upos[0])
    {
      ghost var r := Rank(items, k);
      y := HEAD;
      ghost var p := -1;
      update := forward[HEAD];
      upos := seq(|update|, _ => -1);
      var i := |forward[HEAD]| - 1;
      while i >= 0
        invariant -1 <= i < |update| == |upos| == |forward[HEAD]|
        invariant -1 <= p < r && y == NodeAt(list, p)
        invariant p >= 0 ==> height[p] > i
        invariant i + 1 < |upos| ==> p == upos[i + 1]
        invariant forall j :: i < j < |update| ==> UpdOk(list, height, update, upos, r, j)
      {
        y, p := WalkLevel(k, i, y, p);
        UpdAssign(list, height, update, upos, r, i, y, p, update[i := y], upos[i := p]);
        update := update[i := y];
        upos := upos[i := p];
        i := i - 1;
      }
    }

    /** The inner loop of find: along level `i`, past every node whose key is below `k`. */
    method WalkLevel(k: int, i: int, y: int, ghost p: int) returns (y': int, ghost p': int)
      requires Valid() && k < INT_MAX && 0 <= i < |forward[HEAD]|
      requires -1 <= p < Rank(items, k) && y == NodeAt(list, p) && (p >= 0 ==> height[p] > i)
      ensures p <= p' < Rank(items, k) && y' == NodeAt(list, p') && (p' >= 0 ==> height[p'] > i)
      ensures NextPos(height, i, p' + 1) >= Rank(items, k)
    {
      y', p' := y, p;
      while true
        invariant p <= p' < Rank(items, k) && y' == NodeAt(list, p')
        invariant p' >= 0 ==> height[p'] > i
        decreases |list| - p'
      {
        SearchStep(key, value, forward, sz, list, height, items, k, p', i);
        if forward[y'][i] == Null || key[forward[y'][i]] >= k {
          break;
        }
        y' := forward[y'][i];
        p' := NextPos(height, i, p' + 1);
      }
    }

    /** The public find(key, value): the stored value when `k` is present, else `v` untouched. */
    method Find(k: int, v: T) returns (found: bool, result: T)
      requires Valid() && k < INT_MAX
      ensures found <==> k in Contents()
      ensures result == if found then Contents()[k] else v
    {
      var x, update, upos := Search(k);
      if x != Null {
        HasAtRank(items, k);
        MapOfAt(items, Rank(items, k));
        result := value[x];
        found := true;
      } else {
        result := v;
        found := false;
      }
    }

    /** insert(key, value) with `level` standing for random_level(): an existing key only
        has its value overwritten; a new key gets a node of `level` levels, spliced in after
        `update[i]` at each of its levels, the head growing to at least `level + 1` levels. */
    method Insert(k: int, v: T, level: int)
      requires Valid() && k < INT_MAX && level >= 1
      modifies this
      ensures Valid()
      ensures items == InsertSorted(old(items), k, v)
      ensures Contents() == old(Contents())[k := v]
      ensures sz == if k in old(Contents()) then old(sz) else old(sz) + 1
      ensures k in old(Contents()) ==> forward == old(forward) && list == old(list) && height == old(height)
      ensures k !in old(Contents()) ==>
        var r := Rank(old(items), k);
        list == old(list)[..r] + [|old(key)|] + old(list)[r..]
        && height == old(height)[..r] + [level] + old(height)[r..]
        && |forward[HEAD]| == if level < |old(forward[HEAD])| then |old(forward[HEAD])| else level + 1
    {
      ghost var K, V, F, S, L, H, I := key, value, forward, sz, list, height, items;
      InsertSortedView(I, k, v);
      var x, update, upos := Search(k);
      ghost var r := Rank(I, k);
      if x != Null {
        OverwriteStep(K, V, F, S, L, H, I, k, v);
        value := value[x := v];
        items := items[r := (k, v)];
        assert Inv(key, value, forward, sz, list, height, items);
        return;
      }
      HasAtRank(I, k);
      InsertAt(I, k, v);
      InsertNode(k, v, level, update, upos);
    }

    /** The new-node branch of insert: the update vector is extended with the head up to
        `level`, a node of `level` levels is allocated and spliced in after the update
        nodes. */
    method InsertNode(k: int, v: T, level: int, update: seq<int>, ghost upos: seq<int>)
      requires Valid() && k < INT_MAX && level >= 1 && k !in Contents()
      requires |update| == |upos| == |forward[HEAD]|
      requires forall j :: 0 <= j < |update| ==> UpdOk(list, height, update, upos, Rank(items, k), j)
      modifies this
      ensures Valid() && sz == old(sz) + 1
      ensures var r := Rank(old(items), k);
        items == old(items)[..r] + [(k, v)] + old(items)[r..]
        && list == old(list)[..r] + [|old(key)|] + old(list)[r..]
        && height == old(height)[..r] + [level] + old(height)[r..]
        && |forward[HEAD]| == if level < |old(forward[HEAD])| then |old(forward[HEAD])| else level + 1
    {
      ghost var K, V, F, S, L, H, I := key, value, forward, sz, list, height, items;
      ghost var r := Rank(I, k);
      var update', upos' := ExtendUpdate(k, level, update, upos);
      var n := |key|;
      SpliceBounds(F, L, H, update', upos', r, level);
      Attach(k, v, level, update');
      InsertStep(K, V, F, S, L, H, I, k, v, level, update', upos', forward);
      list := L[..r] + [n] + L[r..];
      height := H[..r] + [level] + H[r..];
      items := I[..r] + [(k, v)] + I[r..];
      sz := sz + 1;
      assert Inv(key, value, forward, sz, list, height, items);
    }

    /** The new node `|key|` gets `level` null links and is spliced in after the
        update nodes at levels `0 .. level - 1`. */
    method Attach(k: int, v: T, level: int, update: seq<int>)
      requires |key| == |forward| > HEAD && |forward[HEAD]| >= 1 && 0 <= level < |update|
      requires forall j :: 0 <= j < level ==>
        0 <= update[j] < |Grown(forward, level)| && update[j] != |forward| && j < |Grown(forward, level)[update[j]]|
      modifies this`key, this`value, this`forward
      ensures key == old(key) + [k] && value == old(value)[|old(key)| := v]
      ensures SplicedTo(Grown(old(forward), level), forward, update, |old(forward)|, level)
    {
      ghost var F := forward;
      var n := |key|;
      key := key + [k];
      value := value[n := v];
      forward := forward + [[]];
      Grow(F, n, level);
      Splice(n, update, level);
    }

    /** The update vector of insert, extended with the head for every level from the
        current top up to `level`. */
    method ExtendUpdate(k: int, level: int, update: seq<int>, ghost upos: seq<int>)
      returns (update': seq<int>, ghost upos': seq<int>)
      requires Valid() && |update| == |upos| == |forward[HEAD]|
      requires forall j :: 0 <= j < |update| ==> UpdOk(list, height, update, upos, Rank(items, k), j)
      ensures |update'| == |upos'| == if level < |update| then |update| else level + 1
      ensures update' == update + seq(|update'| - |update|, _ => HEAD)
      ensures forall j :: 0 <= j < |update'| ==> UpdOk(list, height, update', upos', Rank(items, k), j)
    {
      update', upos' := update, upos;
      var i := |update|;
      while i <= level
        invariant |update| <= i && (i <= level + 1 || i == |update|)
        invariant |update'| == |upos'| == i
        invariant update' == update + seq(i - |update|, _ => HEAD)
        invariant forall j :: 0 <= j < |update'| ==> UpdOk(list, height, update', upos', Rank(items, k), j)
      {
        UpdExtend(list, height, update', upos', Rank(items, k), |forward[HEAD]|);
        update' := update' + [HEAD];
        upos' := upos' + [-1];
        i := i + 1;
      }
    }

    /** erase(key): the node holding `k` is bypassed at every level whose predecessor links
        to it, then the head drops its top level while the one below it links to NIL. The
        guard `|forward[HEAD]| >= 2` is absent from the source; see ShrinkAsWritten. */
    method Erase(k: int)
      requires Valid() && k < INT_MAX
      modifies this
      ensures Valid()
      ensures items == EraseSorted(old(items), k)
      ensures Contents() == old(Contents()) - {k}
      ensures sz == if k in old(Contents()) then old(sz) - 1 else old(sz)
      ensures k !in old(Contents()) ==>
        key == old(key) && value == old(value) && forward == old(forward)
        && list == old(list) && height == old(height)
      ensures k in old(Contents()) ==>
        var r := Rank(old(items), k);
        r < |old(list)|
        && list == old(list)[..r] + old(list)[r + 1..] && height == old(height)[..r] + old(height)[r + 1..]
      ensures k in old(Contents()) ==> Shrunk(forward[HEAD]) == forward[HEAD]
    {
      ghost var I := items;
      EraseCases(I, k);
      var x, update, upos := Search(k);
      if x != Null && key[x] == k {
        EraseNode(k, x, update, upos);
      }
    }

    /** The found branch of erase: `x`, at the rank of `k`, is bypassed at every level
        it has, its value is released and the head's empty top levels are dropped. */
    method EraseNode(k: int, x: int, update: seq<int>, ghost upos: seq<int>)
      requires Valid() && k in Contents()
      requires |update| == |upos| == |forward[HEAD]|
      requires Rank(items, k) < |list| && x == list[Rank(items, k)]
      requires forall j :: 0 <= j < |update| ==> UpdOk(list, height, update, upos, Rank(items, k), j)
      modifies this
      ensures Valid()
      ensures var r := Rank(old(items), k);
        key == old(key) && sz == old(sz) - 1
        && list == old(list)[..r] + old(list)[r + 1..] && height == old(height)[..r] + old(height)[r + 1..]
        && items == old(items)[..r] + old(items)[r + 1..]
      ensures Shrunk(forward[HEAD]) == forward[HEAD]
    {
      Unlink(k, x, update, upos);
      TrimHead(sz - 1);
      sz := sz - 1;
    }

    /** The unsplice loop of erase and the release of the node's value: the
        structure is well formed again once `sz` drops by one. */
    method Unlink(k: int, x: int, update: seq<int>, ghost upos: seq<int>)
      requires Valid() && k in Contents()
      requires |update| == |upos| == |forward[HEAD]|
      requires Rank(items, k) < |list| && x == list[Rank(items, k)]
      requires forall j :: 0 <= j < |update| ==> UpdOk(list, height, update, upos, Rank(items, k), j)
      modifies this`forward, this`value, this`list, this`height, this`items
      ensures Inv(key, value, forward, sz - 1, list, height, items)
      ensures var r := Rank(old(items), k);
        list == old(list)[..r] + old(list)[r + 1..] && height == old(height)[..r] + old(height)[r + 1..]
        && items == old(items)[..r] + old(items)[r + 1..]
    {
      ghost var K, V, F, S, L, H, I := key, value, forward, sz, list, height, items;
      ghost var r := Rank(I, k);
      EraseReady(K, V, F, S, L, H, I, k, update, upos);
      Unsplice(x, update, L, H, upos, r);
      value := value - {x};
      EraseStep(K, V, F, S, L, H, I, k, update, upos, forward);
      assert value == V - {L[r]};
      list := L[..r] + L[r + 1..];
      height := H[..r] + H[r + 1..];
      items := I[..r] + I[r + 1..];
    }

    /** reconfigure(): every node is cut back to level 0, then round `k` (stride
        `step` = 2^k, while `step < sz`) promotes every `step`-th position from the head,
        each linked to the next one of its round or to nullptr past NIL, and finally the
        head gets one more level, linked to NIL. Nothing stored changes. */
    method Reconfigure()
      requires Valid()
      modifies this
      ensures Valid()
      ensures key == old(key) && value == old(value) && sz == old(sz)
      ensures list == old(list) && items == old(items)
      ensures height == RebuiltHeights(|list|, Rounds(sz))
      ensures |forward[HEAD]| == Rounds(sz) + 2
    {
      ghost var K, V, F, S, L, H, I := key, value, forward, sz, list, height, items;
      Trim();
      RebuildLevels();
      ReconfigureDone(K, V, F, S, L, H, I, Rounds(S), forward);
      forward := forward[HEAD := forward[HEAD] + [NIL]];
      height := RebuiltHeights(|L|, Rounds(S));
    }

    /** The rounds of reconfigure, `for (step = 2; step < sz; step *= 2)`. */
    method RebuildLevels()
      requires BuiltUpTo(forward, list, 0)
      modifies this`forward
      ensures BuiltUpTo(forward, list, Rounds(sz)) && |forward| == old(|forward|)
    {
      ghost var n := |forward|;
      var step := 2;
      ghost var k: nat := 1;
      while step < sz
        invariant k >= 1 && step == Pow2(k) && RoundsFrom(sz, k) == Rounds(sz)
        invariant BuiltUpTo(forward, list, k - 1) && |forward| == n
        decreases sz - step
      {
        Rebuild(k, step);
        step := step * 2;
        k := k + 1;
      }
    }

    /** The first loop of reconfigure: walking level 0 from the head, every node but NIL is
        cut back to its level-0 link. */
    method Trim()
      requires Valid()
      modifies this`forward
      ensures BuiltUpTo(forward, list, 0) && |forward| == old(|forward|)
    {
      ghost var F := forward;
      ShapeDistinct(key, value, forward, sz, list, height, items);
      ChainOf(list, |forward|);
      LevelZeroOf(forward, list, height);
      var x := HEAD;
      ghost var p := 0;
      assert Trimmed(F, forward, list, 0);
      TrimCond(F, forward, list, 0);
      while forward[x][0] != Null
        invariant 0 <= p <= |list| + 1 && x == Node1(list, p)
        invariant Trimmed(F, forward, list, p)
        invariant 0 <= x < |forward| && |forward[x]| >= 1
        invariant forward[x][0] == Null <==> p == |list| + 1
        decreases |list| + 1 - p
      {
        TrimStep(F, forward, list, p);
        forward := forward[x := forward[x][..1]];
        x := forward[x][0];
        p := p + 1;
        TrimCond(F, forward, list, p);
      }
      TrimDone(F, forward, list);
    }

    /** One round of reconfigure: `x` walks `step` nodes along level 0 at a time, and
        `prev` links to it at the new level, until `x` runs out at NIL. */
    method Rebuild(ghost k: nat, step: int)
      requires k >= 1 && step == Pow2(k) && BuiltUpTo(forward, list, k - 1)
      modifies this`forward
      ensures BuiltUpTo(forward, list, k) && |forward| == old(|forward|)
    {
      var x := HEAD;
      var prev := HEAD;
      var done := false;
      ghost var pp: nat := 0;
      Divides2Zero(k);
      RoundOpen(forward, list, k);
      while !done
        invariant RoundLoop(forward, list, k, pp, prev, x, done) && |forward| == old(|forward|)
        decreases if done then 0 else 1, |list| + 1 - pp
      {
        x, done := Advance(x, step, k, pp);
        if !done {
          RoundLoopStep(forward, list, k, pp, prev, x);
          forward := forward[prev := forward[prev] + [x]];
          prev := x;
          pp := pp + step;
        }
      }
      RoundClose(forward, list, k, pp);
      forward := forward[prev := forward[prev] + [Null]];
    }

    /** The inner loop of a reconfigure round: `x` moves `step` nodes along level 0, and
        `done` is set once it has no further node to move to (it then stays at NIL). */
    method Advance(x: int, step: int, ghost k: nat, ghost pp: int) returns (x': int, done: bool)
      requires RoundAt(forward, list, k, pp) && 0 <= pp <= |list| + 1 && x == Node1(list, pp) && step >= 0
      ensures done <==> pp + step > |list| + 1
      ensures x' == Node1(list, if done then |list| + 1 else pp + step)
    {
      x' := x;
      done := false;
      var i := 0;
      ghost var px := pp;
      while i < step
        invariant 0 <= i <= step
        invariant px == (if pp + i <= |list| + 1 then pp + i else |list| + 1) && x' == Node1(list, px)
        invariant done <==> pp + i > |list| + 1
      {
        RoundWalk(forward, list, k, pp, px);
        if forward[x'][0] != Null {
          x' := forward[x'][0];
          px := px + 1;
        } else {
          done := true;
        }
        i := i + 1;
      }
    }

    /** The unsplice loop of erase: `update[i]` takes over the link of `x` for as long as
        it links to `x`, which is exactly at the levels of `x`. */
    method Unsplice(x: int, update: seq<int>, ghost list0: seq<int>, ghost h: seq<int>,
                    ghost upos: seq<int>, ghost r: int)
      requires UnspliceReady(forward, list0, h, update, upos, r) && x == list0[r]
      modifies this`forward
      ensures UnsplicedTo(old(forward), forward, update, x, h[r])
    {
      ghost var f0 := forward;
      var i := 0;
      assert UnsplicedTo(f0, forward, update, x, 0);
      UnspliceCond(f0, forward, list0, h, update, upos, r, 0);
      while i < |update| && forward[update[i]][i] == x
        invariant 0 <= i <= h[r] < |update|
        invariant UnsplicedTo(f0, forward, update, x, i)
        invariant 0 <= update[i] < |forward| && i < |forward[update[i]]| && update[i] != x
        invariant forward[update[i]][i] == x <==> i < h[r]
        decreases h[r] - i
      {
        UnspliceRound(f0, forward, update, x, i);
        forward := forward[update[i] := forward[update[i]][i := forward[x][i]]];
        i := i + 1;
        UnspliceCond(f0, forward, list0, h, update, upos, r, i);
      }
    }

    /** The shrink loop of erase, guarded against a head of one level: the head drops its
        top level while the level below it links to NIL. */
    method TrimHead(ghost n: int)
      requires Inv(key, value, forward, n, list, height, items)
      modifies this`forward
      ensures Inv(key, value, forward, n, list, height, items)
      ensures forward == old(forward)[HEAD := Shrunk(old(forward[HEAD]))]
    {
      ghost var f0 := forward;
      while |forward[HEAD]| >= 2 && forward[HEAD][|forward[HEAD]| - 2] == NIL
        invariant Inv(key, value, forward, n, list, height, items)
        invariant forward == f0[HEAD := forward[HEAD]] && Shrunk(forward[HEAD]) == Shrunk(f0[HEAD])
        decreases |forward[HEAD]|
      {
        ShrinkStep(key, value, forward, n, list, height, items);
        forward := forward[HEAD := forward[HEAD][..|forward[HEAD]| - 1]];
      }
    }

    /** The growth loop of insert: the new node `n`, appended to `fwd0` without links, gets
        `l` null links, and the head grows whenever it is no higher than the node. */
    method Grow(ghost fwd0: seq<seq<int>>, n: int, l: int)
      requires |fwd0| > HEAD && |fwd0[HEAD]| >= 1 && n == |fwd0| && l >= 0
      requires forward == fwd0 + [[]]
      modifies this`forward
      ensures forward == Grown(fwd0, l)
    {
      GrowStart(fwd0);
      var i := 0;
      while i < l
        invariant 0 <= i <= l && forward == Grown(fwd0, i)
      {
        GrowRound(fwd0, i);
        forward := forward[n := forward[n] + [Null]];
        if |forward[HEAD]| <= |forward[n]| {
          forward := forward[HEAD := forward[HEAD] + [NIL]];
        }
        i := i + 1;
      }
    }

    /** The splice loop of insert: at each level `i < l`, node `n` takes over the link of
        `update[i]`, which then points at `n`. */
    method Splice(n: int, update: seq<int>, l: int)
      requires 0 <= n < |forward| && 0 <= l <= |forward[n]| && l <= |update|
      requires forall j :: 0 <= j < l ==> 0 <= update[j] < |forward| && update[j] != n && j < |forward[update[j]]|
      modifies this`forward
      ensures SplicedTo(old(forward), forward, update, n, l)
    {
      ghost var f0 := forward;
      var i := 0;
      assert SplicedTo(f0, forward, update, n, 0);
      while i < l
        invariant 0 <= i <= l && SplicedTo(f0, forward, update, n, i)
      {
        SpliceRound(f0, forward, update, n, i);
        forward := forward[n := forward[n][i := forward[update[i]][i]]];
        forward := forward[update[i] := forward[update[i]][i := n]];
        i := i + 1;
      }
    }
  }

  // ---------------------------------------------------------------------
  // Lemmas over the arena values

  /** Sorted keys make the level-0 nodes distinct. */
  lemma ShapeDistinct<T>(key: seq<int>, value: map<int, T>, fwd: seq<seq<int>>, sz: int,
                         list: seq<int>, height: seq<int>, items: seq<(int, T)>)
    requires Shape(key, value, fwd, sz, list, height, items)
    ensures Distinct(list)
  {
    forall p, q | 0 <= p < q < |list| ensures list[p] != list[q] {
      assert items[p].0 < items[q].0;
    }
  }

  /** One step of the search at level `i` from position `p`: it moves right exactly onto
      keys below `k`, and stops no later than the rank of `k`. */
  lemma SearchStep<T>(key: seq<int>, value: map<int, T>, fwd: seq<seq<int>>, sz: int,
                      list: seq<int>, height: seq<int>, items: seq<(int, T)>, k: int, p: int, i: int)
    requires Inv(key, value, fwd, sz, list, height, items) && k < INT_MAX
    requires -1 <= p < |list| && 0 <= i
    requires p < 0 ==> i < |fwd[HEAD]|
    requires p >= 0 ==> i < height[p]
    ensures var y := NodeAt(list, p);
      0 <= y < |fwd| && i < |fwd[y]|
      && (fwd[y][i] != Null ==> 0 <= fwd[y][i] < |key|)
      && (var t := NextPos(height, i, p + 1);
          if fwd[y][i] != Null && key[fwd[y][i]] < k then t < Rank(items, k) && fwd[y][i] == list[t]
          else t >= Rank(items, k))
  {
    LinkFrom(fwd, list, height, p, i);
    var t := NextPos(height, i, p + 1);
    if t < |list| {
      assert items[t].0 == key[list[t]];
    }
  }

  /** What the ghost positions of the update vector say about the keys: `update[j]` is the
      head or a node keyed below `k`, and its level-`j` link is null or keyed `k` or above. */
  lemma UpdMeaning<T>(key: seq<int>, value: map<int, T>, fwd: seq<seq<int>>, sz: int,
                      list: seq<int>, height: seq<int>, items: seq<(int, T)>, k: int,
                      update: seq<int>, upos: seq<int>, j: int)
    requires Inv(key, value, fwd, sz, list, height, items) && k < INT_MAX
    requires |update| == |fwd[HEAD]| && UpdOk(list, height, update, upos, Rank(items, k), j)
    ensures var u := update[j];
      0 <= u < |key| && j < |fwd[u]| && (u == HEAD || key[u] < k)
      && (fwd[u][j] == Null || (0 <= fwd[u][j] < |key| && key[fwd[u][j]] >= k))
  {
    var r := Rank(items, k);
    LinkFrom(fwd, list, height, upos[j], j);
    if upos[j] >= 0 {
      assert items[upos[j]].0 == key[list[upos[j]]];
    }
    var t := NextPos(height, j, upos[j] + 1);
    if t < |list| {
      assert items[t].0 == key[list[t]];
      assert items[r].0 >= k;
      if t > r {
        assert items[r].0 < items[t].0;
      }
    }
  }

  /** At level 0 the search ends just before the rank of `k`, and the next node holds `k`
      exactly when `k` is present. */
  lemma SearchLanded<T>(key: seq<int>, value: map<int, T>, fwd: seq<seq<int>>, sz: int,
                        list: seq<int>, height: seq<int>, items: seq<(int, T)>, k: int, p: int)
    requires Inv(key, value, fwd, sz, list, height, items) && k < INT_MAX
    requires -1 <= p < Rank(items, k) && NextPos(height, 0, p + 1) >= Rank(items, k)
    ensures var y := NodeAt(list, p);
      0 <= y < |fwd| && 0 < |fwd[y]| && 0 <= fwd[y][0] < |key|
      && (key[fwd[y][0]] == k <==> k in MapOf(items))
      && (key[fwd[y][0]] == k ==> Rank(items, k) < |list| && fwd[y][0] == list[Rank(items, k)])
  {
    var r := Rank(items, k);
    if p + 1 < |height| {
      assert height[p + 1] >= 1;
    }
    assert p == r - 1;
    LinkFrom(fwd, list, height, p, 0);
    HasAtRank(items, k);
    if r < |list| {
      assert items[r].0 == key[list[r]];
    }

  }

  // ---------------------------------------------------------------------
  // Insert

  /** Overwriting the value of the node holding `k`. */
  lemma OverwriteStep<T>(key: seq<int>, value: map<int, T>, fwd: seq<seq<int>>, sz: int,
                         list: seq<int>, height: seq<int>, items: seq<(int, T)>, k: int, v: T)
    requires Inv(key, value, fwd, sz, list, height, items) && k in MapOf(items)
    ensures var r := Rank(items, k);
      r < |list|
      && Inv(key, value[list[r] := v], fwd, sz, list, height, items[r := (k, v)])
      && items[r := (k, v)] == InsertSorted(items, k, v)
  {
    var r := Rank(items, k);
    HasAtRank(items, k);
    InsertAt(items, k, v);
    ShapeDistinct(key, value, fwd, sz, list, height, items);
    InsertSortedView(items, k, v);
    var value' := value[list[r] := v];
    var items' := items[r := (k, v)];
    forall q | 0 <= q < |list|
      ensures list[q] in value' && items'[q] == (key[list[q]], value'[list[q]])
    {
      if q != r {
        assert list[q] != list[r];
      }
    }
  }

  /** The arena after `i` rounds of the growth loop for a node appended to `fwd`: the node
      has `i` null links and the head at least `i + 1` levels, the new ones linked to NIL. */
  ghost function Grown(fwd: seq<seq<int>>, i: nat): seq<seq<int>>
    requires |fwd| > HEAD
  {
    var g := if |fwd[HEAD]| < i + 1 then i + 1 - |fwd[HEAD]| else 0;
    fwd[HEAD := fwd[HEAD] + seq(g, _ => NIL)] + [seq(i, _ => Null)]
  }

  lemma GrowStart(fwd: seq<seq<int>>)
    requires |fwd| > HEAD && |fwd[HEAD]| >= 1
    ensures Grown(fwd, 0) == fwd + [[]]
  {
    assert seq(0, _ => NIL) == [];
    assert fwd[HEAD][..] + [] == fwd[HEAD];
    assert fwd[HEAD := fwd[HEAD] + seq(0, _ => NIL)] == fwd;
    assert seq(0, _ => Null) == [];
  }

  /** One round: `x->forward.emplace_back(nullptr)`, then the head grows when it is no
      higher than the new node. */
  lemma GrowRound(fwd: seq<seq<int>>, i: nat)
    requires |fwd| > HEAD && |fwd[HEAD]| >= 1
    ensures var n := |fwd|; var g := Grown(fwd, i);
      var g1 := g[n := g[n] + [Null]];
      (if |g1[HEAD]| <= |g1[n]| then g1[HEAD := g1[HEAD] + [NIL]] else g1) == Grown(fwd, i + 1)
  {
    var H := |fwd[HEAD]|;
    var gi := if H < i + 1 then i + 1 - H else 0;
    assert seq(i, _ => Null) + [Null] == seq(i + 1, _ => Null);
    assert fwd[HEAD] + seq(gi, _ => NIL) + [NIL] == fwd[HEAD] + seq(gi + 1, _ => NIL);
  }

  /** The nodes the splice writes to exist and have the levels written. */
  lemma SpliceBounds(fwd: seq<seq<int>>, list: seq<int>, height: seq<int>,
                     update: seq<int>, upos: seq<int>, r: int, l: int)
    requires |fwd| > HEAD && l < |update|
    requires |height| == |list|
    requires forall q :: 0 <= q < |list| ==> 2 <= list[q] < |fwd| && height[q] == |fwd[list[q]]|
    requires forall j :: 0 <= j < |update| ==> UpdOk(list, height, update, upos, r, j)
    ensures forall j :: 0 <= j < l ==>
      0 <= update[j] < |Grown(fwd, l)| && update[j] != |fwd| && j < |Grown(fwd, l)[update[j]]|
  {
    forall j | 0 <= j < l
      ensures 0 <= update[j] < |Grown(fwd, l)| && update[j] != |fwd| && j < |Grown(fwd, l)[update[j]]|
    {
      assert UpdOk(list, height, update, upos, r, j);
    }
  }

  /** Splicing a new node for `k` of `l` levels in at the rank of `k`. */
  lemma InsertStep<T>(key: seq<int>, value: map<int, T>, fwd: seq<seq<int>>, sz: int,
                      list: seq<int>, height: seq<int>, items: seq<(int, T)>,
                      k: int, v: T, l: int, update: seq<int>, upos: seq<int>, fwd': seq<seq<int>>)
    requires Inv(key, value, fwd, sz, list, height, items)
    requires l >= 1 && k !in MapOf(items) && l < |update| == |upos|
    requires forall j :: 0 <= j < |update| ==> UpdOk(list, height, update, upos, Rank(items, k), j)
    requires SplicedTo(Grown(fwd, l), fwd', update, |fwd|, l)
    ensures var r := Rank(items, k); var n := |fwd|;
      Inv(key + [k], value[n := v], fwd', sz + 1, list[..r] + [n] + list[r..],
          height[..r] + [l] + height[r..], items[..r] + [(k, v)] + items[r..])
      && |fwd'[HEAD]| == if l < |fwd[HEAD]| then |fwd[HEAD]| else l + 1
  {
    var r := Rank(items, k);
    var n := |fwd|;
    var G := Grown(fwd, l);
    var g := if |fwd[HEAD]| < l + 1 then l + 1 - |fwd[HEAD]| else 0;
    ShapeDistinct(key, value, fwd, sz, list, height, items);
    GrowHead(fwd, list, height, g);
    LevelsAppend(fwd[HEAD := fwd[HEAD] + seq(g, _ => NIL)], list, height, seq(l, _ => Null));
    assert SpliceReady(G, fwd', list, height, update, upos, r, n, l);
    SpliceLevels(G, fwd', list, height, update, upos, r, n, l);
    InsertShape(key, value, fwd, sz, list, height, items, k, v, l, update, upos, fwd');
  }

  lemma InsertShape<T>(key: seq<int>, value: map<int, T>, fwd: seq<seq<int>>, sz: int,
                       list: seq<int>, height: seq<int>, items: seq<(int, T)>,
                       k: int, v: T, l: int, update: seq<int>, upos: seq<int>, fwd': seq<seq<int>>)
    requires Inv(key, value, fwd, sz, list, height, items)
    requires l >= 1 && k !in MapOf(items) && l < |update| == |upos|
    requires forall j :: 0 <= j < |update| ==> UpdOk(list, height, update, upos, Rank(items, k), j)
    requires SplicedTo(Grown(fwd, l), fwd', update, |fwd|, l)
    ensures var r := Rank(items, k); var n := |fwd|;
      Shape(key + [k], value[n := v], fwd', sz + 1, list[..r] + [n] + list[r..],
            height[..r] + [l] + height[r..], items[..r] + [(k, v)] + items[r..])
      && |fwd'[HEAD]| == if l < |fwd[HEAD]| then |fwd[HEAD]| else l + 1
  {
    var r := Rank(items, k);
    InsertAt(items, k, v);
    HasAtRank(items, k);
    InsertSortedView(items, k, v);
    InsertLinks(key, value, fwd, sz, list, height, items, r, l, update, upos, fwd');
    InsertEntries(key, value, fwd, sz, list, height, items, k, v, r, l, fwd');
  }

  /** The splice leaves the head's top level on NIL and NIL's links null, and changes the
      number of levels of no node but the head. */
  lemma InsertLinks<T>(key: seq<int>, value: map<int, T>, fwd: seq<seq<int>>, sz: int,
                       list: seq<int>, height: seq<int>, items: seq<(int, T)>,
                       r: int, l: int, update: seq<int>, upos: seq<int>, fwd': seq<seq<int>>)
    requires Shape(key, value, fwd, sz, list, height, items)
    requires l >= 1 && l < |update|
    requires forall j :: 0 <= j < |update| ==> UpdOk(list, height, update, upos, r, j)
    requires SplicedTo(Grown(fwd, l), fwd', update, |fwd|, l)
    ensures |fwd'| == |fwd| + 1 && |fwd'[|fwd|]| == l
    ensures forall m :: 0 <= m < |fwd| && m != HEAD ==> |fwd'[m]| == |fwd[m]|
    ensures |fwd'[HEAD]| == if l < |fwd[HEAD]| then |fwd[HEAD]| else l + 1
    ensures fwd'[HEAD][|fwd'[HEAD]| - 1] == NIL
    ensures forall j :: 0 <= j < |fwd'[NIL]| ==> fwd'[NIL][j] == Null
  {
    var n := |fwd|;
    var G := Grown(fwd, l);
    var M := |G[HEAD]|;
    assert fwd'[HEAD][M - 1] == SpliceAt(G, update, n, l, HEAD, M - 1);
    forall j | 0 <= j < |fwd'[NIL]| ensures fwd'[NIL][j] == Null {
      assert fwd'[NIL][j] == SpliceAt(G, update, n, l, NIL, j);
      if j < l {
        assert UpdOk(list, height, update, upos, r, j);
      }
    }
  }

  /** The entries of the old nodes are untouched and the new node `|fwd|` holds `(k, v)`. */
  lemma InsertEntries<T>(key: seq<int>, value: map<int, T>, fwd: seq<seq<int>>, sz: int,
                         list: seq<int>, height: seq<int>, items: seq<(int, T)>,
                         k: int, v: T, r: int, l: int, fwd': seq<seq<int>>)
    requires Shape(key, value, fwd, sz, list, height, items) && 0 <= r <= |list| && l >= 1
    requires |fwd'| == |fwd| + 1 && |fwd'[|fwd|]| == l
    requires forall m :: 0 <= m < |fwd| && m != HEAD ==> |fwd'[m]| == |fwd[m]|
    requires |fwd[HEAD]| <= |fwd'[HEAD]| && l < |fwd'[HEAD]| && fwd'[HEAD][|fwd'[HEAD]| - 1] == NIL
    requires 1 <= |fwd'[NIL]| && forall j :: 0 <= j < |fwd'[NIL]| ==> fwd'[NIL][j] == Null
    requires Sorted(items[..r] + [(k, v)] + items[r..])
    ensures var n := |fwd|;
      Shape(key + [k], value[n := v], fwd', sz + 1, list[..r] + [n] + list[r..],
            height[..r] + [l] + height[r..], items[..r] + [(k, v)] + items[r..])
  {
    var n := |fwd|;
    var key', value' := key + [k], value[n := v];
    var list', height', items' := list[..r] + [n] + list[r..], height[..r] + [l] + height[r..], items[..r] + [(k, v)] + items[r..];
    forall q | 0 <= q < |list'|
      ensures 2 <= list'[q] < |key'| && list'[q] in value' && items'[q] == (key'[list'[q]], value'[list'[q]])
        && height'[q] == |fwd'[list'[q]]| && 1 <= height'[q] < |fwd'[HEAD]|
    {
      if q != r {
        var q0 := if q < r then q else q - 1;
        assert list'[q] == list[q0] && height'[q] == height[q0] && items'[q] == items[q0];
      }
    }
  }

  // ---------------------------------------------------------------------
  // Erase

  /** The search for a present `k` sets up the unsplice of its node. */
  lemma EraseReady<T>(key: seq<int>, value: map<int, T>, fwd: seq<seq<int>>, sz: int,
                      list: seq<int>, height: seq<int>, items: seq<(int, T)>,
                      k: int, update: seq<int>, upos: seq<int>)
    requires Inv(key, value, fwd, sz, list, height, items)
    requires Rank(items, k) < |list| && |update| == |upos| == |fwd[HEAD]|
    requires forall j :: 0 <= j < |update| ==> UpdOk(list, height, update, upos, Rank(items, k), j)
    ensures UnspliceReady(fwd, list, height, update, upos, Rank(items, k))
  {
    ShapeDistinct(key, value, fwd, sz, list, height, items);
  }

  /** Bypassing the node at the rank of `k` at all its levels removes `k`. */
  lemma EraseStep<T>(key: seq<int>, value: map<int, T>, fwd: seq<seq<int>>, sz: int,
                     list: seq<int>, height: seq<int>, items: seq<(int, T)>,
                     k: int, update: seq<int>, upos: seq<int>, fwd': seq<seq<int>>)
    requires Inv(key, value, fwd, sz, list, height, items)
    requires k in MapOf(items)
    requires UnspliceReady(fwd, list, height, update, upos, Rank(items, k))
    requires UnsplicedTo(fwd, fwd', update, list[Rank(items, k)], height[Rank(items, k)])
    ensures var r := Rank(items, k);
      Inv(key, value - {list[r]}, fwd', sz - 1, list[..r] + list[r + 1..],
          height[..r] + height[r + 1..], items[..r] + items[r + 1..])
  {
    var r := Rank(items, k);
    var x := list[r];
    UnspliceLevels(fwd, fwd', list, height, update, upos, r);
    EraseShape(key, value, fwd, sz, list, height, items, k, update, upos, fwd');
  }

  lemma EraseShape<T>(key: seq<int>, value: map<int, T>, fwd: seq<seq<int>>, sz: int,
                      list: seq<int>, height: seq<int>, items: seq<(int, T)>,
                      k: int, update: seq<int>, upos: seq<int>, fwd': seq<seq<int>>)
    requires Inv(key, value, fwd, sz, list, height, items)
    requires k in MapOf(items)
    requires UnspliceReady(fwd, list, height, update, upos, Rank(items, k))
    requires UnsplicedTo(fwd, fwd', update, list[Rank(items, k)], height[Rank(items, k)])
    ensures var r := Rank(items, k);
      Shape(key, value - {list[r]}, fwd', sz - 1, list[..r] + list[r + 1..],
            height[..r] + height[r + 1..], items[..r] + items[r + 1..])
  {
    var r := Rank(items, k);
    EraseLinks(key, value, fwd, sz, list, height, items, r, update, upos, fwd');
    HasAtRank(items, k);
    EraseAt(items, k);
    EraseSortedView(items, k);
    EraseEntries(key, value, fwd, sz, list, height, items, r, fwd');
  }

  /** The unsplice leaves the head's top level on NIL and NIL's links null. */
  lemma EraseLinks<T>(key: seq<int>, value: map<int, T>, fwd: seq<seq<int>>, sz: int,
                      list: seq<int>, height: seq<int>, items: seq<(int, T)>,
                      r: int, update: seq<int>, upos: seq<int>, fwd': seq<seq<int>>)
    requires Shape(key, value, fwd, sz, list, height, items)
    requires UnspliceReady(fwd, list, height, update, upos, r)
    requires UnsplicedTo(fwd, fwd', update, list[r], height[r])
    ensures fwd'[HEAD][|fwd'[HEAD]| - 1] == NIL
    ensures forall j :: 0 <= j < |fwd'[NIL]| ==> fwd'[NIL][j] == Null
  {
    var x := list[r];
    var M := |fwd[HEAD]|;
    assert fwd'[HEAD][M - 1] == UnspliceAt(fwd, update, x, height[r], HEAD, M - 1);
    forall j | 0 <= j < |fwd'[NIL]| ensures fwd'[NIL][j] == Null {
      assert fwd'[NIL][j] == UnspliceAt(fwd, update, x, height[r], NIL, j);
      if j < height[r] {
        assert UpdOk(list, height, update, upos, r, j);
      }
    }
  }

  /** The entries of the nodes other than the one at position `r` are untouched. */
  lemma EraseEntries<T>(key: seq<int>, value: map<int, T>, fwd: seq<seq<int>>, sz: int,
                        list: seq<int>, height: seq<int>, items: seq<(int, T)>, r: int, fwd': seq<seq<int>>)
    requires Shape(key, value, fwd, sz, list, height, items) && Distinct(list) && 0 <= r < |list|
    requires |fwd'| == |fwd| && forall m :: 0 <= m < |fwd| ==> |fwd'[m]| == |fwd[m]|
    requires fwd'[HEAD][|fwd'[HEAD]| - 1] == NIL
    requires forall j :: 0 <= j < |fwd'[NIL]| ==> fwd'[NIL][j] == Null
    requires Sorted(items[..r] + items[r + 1..])
    ensures Shape(key, value - {list[r]}, fwd', sz - 1, list[..r] + list[r + 1..],
                  height[..r] + height[r + 1..], items[..r] + items[r + 1..])
  {
    var value' := value - {list[r]};
    var list', height', items' := list[..r] + list[r + 1..], height[..r] + height[r + 1..], items[..r] + items[r + 1..];
    forall q | 0 <= q < |list'|
      ensures 2 <= list'[q] < |key| && list'[q] in value' && items'[q] == (key[list'[q]], value'[list'[q]])
        && height'[q] == |fwd'[list'[q]]| && 1 <= height'[q] < |fwd'[HEAD]|
    {
      var q0 := if q < r then q else q + 1;
      assert list'[q] == list[q0] && height'[q] == height[q0] && items'[q] == items[q0];
      assert list[q0] != list[r];
    }
  }

  /** One pop of the head's top level, when the level below it links to NIL. */
  lemma ShrinkStep<T>(key: seq<int>, value: map<int, T>, fwd: seq<seq<int>>, sz: int,
                      list: seq<int>, height: seq<int>, items: seq<(int, T)>)
    requires Inv(key, value, fwd, sz, list, height, items)
    requires |fwd[HEAD]| >= 2 && fwd[HEAD][|fwd[HEAD]| - 2] == NIL
    ensures Inv(key, value, fwd[HEAD := fwd[HEAD][..|fwd[HEAD]| - 1]], sz, list, height, items)
  {
    ShrinkHead(fwd, list, height);
  }

  // ---------------------------------------------------------------------
  // The shrink loop of erase as written

  datatype Shrink = Popped(head: seq<int>) | ReadsBeforeStart

  /** `while (head->forward[head->forward.size()-2] == NIL) head->forward.pop_back();`
      with no guard on the size: a head of fewer than two levels makes it read index -1. */
  function ShrinkAsWritten(head: seq<int>): (r: Shrink)
    ensures r.Popped? ==> |r.head| >= 2 && r.head[|r.head| - 2] != NIL && r.head <= head
  {
    if |head| < 2 then ReadsBeforeStart
    else if head[|head| - 2] == NIL then ShrinkAsWritten(head[..|head| - 1])
    else Popped(head)
  }

  /** The loop with the guard `|head| >= 2` that Erase runs. */
  function Shrunk(head: seq<int>): (r: seq<int>)
    ensures r <= head && (|head| >= 1 ==> |r| >= 1)
    ensures |r| >= 2 ==> r[|r| - 2] != NIL
  {
    if |head| >= 2 && head[|head| - 2] == NIL then Shrunk(head[..|head| - 1]) else head
  }

  /** The two agree whenever some node still reaches level 0. */
  lemma {:induction false} ShrinkAgrees(head: seq<int>)
    requires |head| >= 2 && head[0] != NIL
    ensures ShrinkAsWritten(head) == Popped(Shrunk(head))
  {
    if head[|head| - 2] == NIL {
      assert |head| > 2;
      assert head[..|head| - 1][0] == head[0];
      ShrinkAgrees(head[..|head| - 1]);
    }
  }

  /** Erasing the last key leaves every head link on NIL, and the loop as written then
      runs past the first level. */
  lemma {:induction false} ShrinkEmpty(head: seq<int>)
    requires forall j :: 0 <= j < |head| ==> head[j] == NIL
    ensures ShrinkAsWritten(head) == ReadsBeforeStart
  {
    if |head| >= 2 {
      ShrinkEmpty(head[..|head| - 1]);
    }
  }

  /** The head of a one-key list after erasing that key. */
  lemma ShrinkEmptyExample()
    ensures ShrinkAsWritten([NIL, NIL]) == ReadsBeforeStart
    ensures Shrunk([NIL, NIL]) == [NIL]
  {
    assert [NIL, NIL][..1] == [NIL];
  }

  // ---------------------------------------------------------------------
  // Reconfigure

  /** After `k` rounds and the extra head level, the rebuilt arena satisfies the invariant
      with the heights of `RebuiltHeights`, and the head has `k + 2` levels. */
  lemma ReconfigureDone<T>(key: seq<int>, value: map<int, T>, fwd0: seq<seq<int>>, sz: int,
                           list: seq<int>, height: seq<int>, items: seq<(int, T)>, k: nat, fwd: seq<seq<int>>)
    requires Shape(key, value, fwd0, sz, list, height, items)
    requires |fwd| == |fwd0| && BuiltUpTo(fwd, list, k)
    ensures Inv(key, value, fwd[HEAD := fwd[HEAD] + [NIL]], sz, list, RebuiltHeights(|list|, k), items)
    ensures |fwd[HEAD]| == k + 1
  {
    var b := fwd;
    var fwd := b[HEAD := b[HEAD] + [NIL]];
    assert b[Node1(list, 0)] == Built(list, 0, k);
    assert fwd[HEAD] == Built(list, 0, k) + [NIL];
    Divides2Zero(k);
    PromotedSpec(0, k, k);
    forall q | 0 <= q < |list| ensures fwd[list[q]] == Built(list, q + 1, k) && list[q] != HEAD {
      assert b[Node1(list, q + 1)] == Built(list, q + 1, k);
      assert list[q] != HEAD by {
        assert Node1(list, q + 1) != Node1(list, 0);
      }
    }
    RebuiltLevels(fwd, list, k);
    assert fwd[NIL] == b[Node1(list, |list| + 1)];
  }
}
