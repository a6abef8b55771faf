/**
 * The level structure of the skip list, over plain values.
 *
 * Nodes are arena indices: `HEAD` and `NIL` are the two sentinels and every
 * other index is an ordinary node; `Null` stands for `nullptr`. The ordinary
 * nodes, in level-0 order, are `list`; node `list[q]` stands at position `q`
 * and has `h[q]` levels (its `forward` vector has `h[q]` entries). The head
 * counts as position -1.
 *
 * A skip list is well linked when, at every level `i`, every node that reaches
 * level `i` links to the next position whose node reaches level `i`; a level
 * ends in `NIL`, or, above level 0, possibly in `Null` (the rebuilt levels
 * end that way).
 */
module SkipLevels {

  const HEAD := 0
  const NIL := 1
  const Null := -1

  /** The sentinel keys, std::numeric_limits<int>::min() and max(). */
  const INT_MIN := -0x8000_0000
  const INT_MAX := 0x7fff_ffff

  /** The first position at or after `s` whose node reaches above level `i`, or `|h|`. */
  function NextPos(h: seq<int>, i: int, s: nat): (t: nat)
    ensures t <= |h| && (s <= |h| ==> s <= t)
    ensures forall p :: s <= p < t ==> h[p] <= i
    ensures t < |h| ==> h[t] > i
    decreases |h| - s
  {
    if s >= |h| then |h| else if h[s] > i then s else NextPos(h, i, s + 1)
  }

  /** The next position is unique. */
  lemma NextPosIs(h: seq<int>, i: int, s: nat, t: nat)
    requires s <= t <= |h|
    requires forall p :: s <= p < t ==> h[p] <= i
    requires t < |h| ==> h[t] > i
    ensures NextPos(h, i, s) == t
  {
  }

  /** The node at position `p` (the head at -1). */
  function NodeAt(list: seq<int>, p: int): int
    requires -1 <= p < |list|
  {
    if p < 0 then HEAD else list[p]
  }

  /** A link that should reach position `t` at level `i`. */
  ghost predicate LinkOk(list: seq<int>, link: int, t: nat, i: int) {
    if t < |list| then link == list[t] else link == NIL || (i > 0 && link == Null)
  }

  ghost predicate HeadLinkOk(fwd: seq<seq<int>>, list: seq<int>, h: seq<int>, i: int) {
    HEAD < |fwd| && 0 <= i < |fwd[HEAD]| && LinkOk(list, fwd[HEAD][i], NextPos(h, i, 0), i)
  }

  ghost predicate NodeLinkOk(fwd: seq<seq<int>>, list: seq<int>, h: seq<int>, q: int, i: int) {
    0 <= q < |list| && 0 <= list[q] < |fwd| && 0 <= i < |fwd[list[q]]|
    && LinkOk(list, fwd[list[q]][i], NextPos(h, i, q + 1), i)
  }

  /** Every level of the head and of every node links to the next node reaching that level. */
  ghost predicate Levels(fwd: seq<seq<int>>, list: seq<int>, h: seq<int>) {
    HEAD < |fwd| && |h| == |list|
    && (forall i :: 0 <= i < |fwd[HEAD]| ==> HeadLinkOk(fwd, list, h, i))
    && (forall q, i :: 0 <= q < |list| && 0 <= i < h[q] ==> NodeLinkOk(fwd, list, h, q, i))
  }

  /** The link at level `i` of the node at position `p`. */
  lemma LinkFrom(fwd: seq<seq<int>>, list: seq<int>, h: seq<int>, p: int, i: int)
    requires Levels(fwd, list, h) && -1 <= p < |list| && 0 <= i
    requires p < 0 ==> i < |fwd[HEAD]|
    requires p >= 0 ==> i < h[p]
    ensures 0 <= NodeAt(list, p) < |fwd| && i < |fwd[NodeAt(list, p)]|
    ensures LinkOk(list, fwd[NodeAt(list, p)][i], NextPos(h, i, p + 1), i)
  {
    if p < 0 {
      assert HeadLinkOk(fwd, list, h, i);
    } else {
      assert NodeLinkOk(fwd, list, h, p, i);
    }
  }

  // ---------------------------------------------------------------------
  // The update vector of a search

  /** `update[j]` is the last node before position `r` that reaches level `j`. */
  ghost predicate UpdOk(list: seq<int>, h: seq<int>, update: seq<int>, upos: seq<int>, r: int, j: int) {
    0 <= j < |update| && j < |upos| && |h| == |list|
    && -1 <= upos[j] < r <= |list|
    && update[j] == NodeAt(list, upos[j])
    && (upos[j] >= 0 ==> h[upos[j]] > j)
    && NextPos(h, j, upos[j] + 1) >= r
  }

  /** No node of level `j` lies strictly between `update[j]` and position `r`. */
  lemma UpdNextIs(list: seq<int>, h: seq<int>, update: seq<int>, upos: seq<int>, r: int, j: int)
    requires UpdOk(list, h, update, upos, r, j)
    ensures NextPos(h, j, upos[j] + 1) == NextPos(h, j, r)
  {
    var t := NextPos(h, j, upos[j] + 1);
    NextPosIs(h, j, r, t);
  }

  /** A node of level `j` before position `r` other than `update[j]` lies before it. */
  lemma UpdDominates(list: seq<int>, h: seq<int>, update: seq<int>, upos: seq<int>, r: int, j: int, q: int)
    requires UpdOk(list, h, update, upos, r, j)
    requires 0 <= q < r && h[q] > j && q != upos[j]
    ensures 0 <= q < upos[j]
    ensures NextPos(h, j, q + 1) <= upos[j]
  {
  }

  // ---------------------------------------------------------------------
  // Splicing a node of height `l` in at position `r`

  /** `h'` is `h` with `l` inserted at position `r`. */
  ghost predicate Inserted(h: seq<int>, h': seq<int>, r: nat, l: int) {
    r <= |h| && |h'| == |h| + 1 && h'[r] == l
    && (forall p :: 0 <= p < r ==> h'[p] == h[p])
    && (forall p :: r < p < |h'| ==> h'[p] == h[p - 1])
  }

  lemma InsertedIs(h: seq<int>, r: nat, l: int)
    requires r <= |h|
    ensures Inserted(h, h[..r] + [l] + h[r..], r, l)
  {
  }

  /** Positions from `s` onwards in `h'`, where `h' = h[..r] + [l] + h[r..]`. */
  lemma NextPosInsert(h: seq<int>, r: nat, l: int, i: int, s: nat)
    requires r <= |h| && s <= |h| + 1
    ensures var h' := h[..r] + [l] + h[r..];
      var t := NextPos(h, i, if s <= r then s else s - 1);
      NextPos(h', i, s) ==
        if s > r then t + 1
        else if t < r then t
        else if l > i then r
        else NextPos(h, i, r) + 1
  {
    InsertedIs(h, r, l);
    NextPosInserted(h, h[..r] + [l] + h[r..], r, l, i, s);
  }

  lemma NextPosInserted(h: seq<int>, h': seq<int>, r: nat, l: int, i: int, s: nat)
    requires Inserted(h, h', r, l) && s <= |h| + 1
    ensures var t := NextPos(h, i, if s <= r then s else s - 1);
      NextPos(h', i, s) ==
        if s > r then t + 1
        else if t < r then t
        else if l > i then r
        else NextPos(h, i, r) + 1
  {
    var t := NextPos(h, i, if s <= r then s else s - 1);
    if s > r {
      NextPosIs(h', i, s, t + 1);
    } else if t < r {
      NextPosIs(h', i, s, t);
    } else if l > i {
      NextPosIs(h', i, s, r);
    } else {
      var u := NextPos(h, i, r);
      NextPosIs(h', i, s, u + 1);
    }
  }

  /** A link valid before the splice stays valid, its target shifted past `r`. */
  lemma LinkInsert(list: seq<int>, n: int, r: nat, link: int, t: nat, i: int)
    requires r <= |list| && t <= |list| && LinkOk(list, link, t, i)
    ensures var list' := list[..r] + [n] + list[r..];
      LinkOk(list', link, if t < r then t else t + 1, i)
  {
    var list' := list[..r] + [n] + list[r..];
    if t < r {
      assert list'[t] == list[t];
    } else if t < |list| {
      assert list'[t + 1] == list[t];
    }
  }

  /** The head grows new levels linked to `NIL`, above every node. */
  lemma GrowHead(fwd: seq<seq<int>>, list: seq<int>, h: seq<int>, k: nat)
    requires Levels(fwd, list, h)
    requires forall q :: 0 <= q < |h| ==> h[q] < |fwd[HEAD]|
    ensures Levels(fwd[HEAD := fwd[HEAD] + seq(k, _ => NIL)], list, h)
  {
    var fwd' := fwd[HEAD := fwd[HEAD] + seq(k, _ => NIL)];
    forall i | 0 <= i < |fwd'[HEAD]| ensures HeadLinkOk(fwd', list, h, i) {
      if i < |fwd[HEAD]| {
        assert HeadLinkOk(fwd, list, h, i);
      } else {
        NextPosIs(h, i, 0, |h|);
      }
    }
    forall q, i | 0 <= q < |list| && 0 <= i < h[q] ensures NodeLinkOk(fwd', list, h, q, i) {
      assert NodeLinkOk(fwd, list, h, q, i);
      if list[q] == HEAD {
        assert fwd'[HEAD][i] == fwd[HEAD][i];
      }
    }
  }

  /** No node occurs twice in level-0 order. */
  ghost predicate Distinct(list: seq<int>) {
    forall p, q :: 0 <= p < q < |list| ==> list[p] != list[q]
  }

  /** The link at level `j` of node `m` after the splice loop has run its first `i` rounds:
      `x->forward[j] = update[j]->forward[j]; update[j]->forward[j] = x` for `j < i`. */
  ghost function SpliceAt(fwd: seq<seq<int>>, update: seq<int>, n: int, i: int, m: int, j: int): int
    requires 0 <= m < |fwd| && 0 <= j < |fwd[m]|
  {
    if j >= i || j >= |update| || !(0 <= update[j] < |fwd| && j < |fwd[update[j]]|) then fwd[m][j]
    else if m == n then fwd[update[j]][j]
    else if m == update[j] then n
    else fwd[m][j]
  }

  /** `fwd'` is `fwd` after the first `i` rounds of splicing node `n`. */
  ghost predicate SplicedTo(fwd: seq<seq<int>>, fwd': seq<seq<int>>, update: seq<int>, n: int, i: int) {
    |fwd'| == |fwd|
    && (forall m :: 0 <= m < |fwd| ==> |fwd'[m]| == |fwd[m]|)
    && (forall m, j :: 0 <= m < |fwd| && 0 <= j < |fwd[m]| ==> fwd'[m][j] == SpliceAt(fwd, update, n, i, m, j))
  }

  /** One round of the splice loop. */
  lemma SpliceRound(fwd: seq<seq<int>>, cur: seq<seq<int>>, update: seq<int>, n: int, i: int)
    requires SplicedTo(fwd, cur, update, n, i)
    requires 0 <= n < |fwd| && 0 <= i < |fwd[n]| && i < |update|
    requires 0 <= update[i] < |fwd| && i < |fwd[update[i]]| && update[i] != n
    ensures var c1 := cur[n := cur[n][i := cur[update[i]][i]]];
      SplicedTo(fwd, c1[update[i] := c1[update[i]][i := n]], update, n, i + 1)
  {
    var c1 := cur[n := cur[n][i := cur[update[i]][i]]];
    var c2 := c1[update[i] := c1[update[i]][i := n]];
    assert cur[update[i]][i] == fwd[update[i]][i] by {
      assert cur[update[i]][i] == SpliceAt(fwd, update, n, i, update[i], i);
    }
    forall m, j | 0 <= m < |fwd| && 0 <= j < |fwd[m]|
      ensures c2[m][j] == SpliceAt(fwd, update, n, i + 1, m, j)
    {
      assert cur[m][j] == SpliceAt(fwd, update, n, i, m, j);
    }
  }

  /** Everything the splice of a new node `n` of height `l` at position `r` relies on. */
  ghost predicate SpliceReady(fwd: seq<seq<int>>, fwd': seq<seq<int>>, list: seq<int>, h: seq<int>,
                              update: seq<int>, upos: seq<int>, r: int, n: int, l: int) {
    Levels(fwd, list, h) && Distinct(list)
    && 0 <= r <= |list| && 1 <= l && 2 <= n < |fwd| && |fwd[n]| == l && l < |fwd[HEAD]|
    && (forall q :: 0 <= q < |list| ==> 2 <= list[q] < |fwd| && list[q] != n && h[q] == |fwd[list[q]]|)
    && (forall j :: 0 <= j < l ==> UpdOk(list, h, update, upos, r, j))
    && SplicedTo(fwd, fwd', update, n, l)
  }

  /** The splice leaves every level well linked, with the new node at position `r`. */
  lemma SpliceLevels(fwd: seq<seq<int>>, fwd': seq<seq<int>>, list: seq<int>, h: seq<int>,
                     update: seq<int>, upos: seq<int>, r: int, n: int, l: int)
    requires SpliceReady(fwd, fwd', list, h, update, upos, r, n, l)
    ensures Levels(fwd', list[..r] + [n] + list[r..], h[..r] + [l] + h[r..])
  {
    var list', h' := list[..r] + [n] + list[r..], h[..r] + [l] + h[r..];
    forall i | 0 <= i < |fwd'[HEAD]| ensures HeadLinkOk(fwd', list', h', i) {
      SpliceHead(fwd, fwd', list, h, update, upos, r, n, l, i);
    }
    forall q, i | 0 <= q < |list'| && 0 <= i < h'[q] ensures NodeLinkOk(fwd', list', h', q, i) {
      if q < r {
        assert h'[q] == h[q];
        SpliceBefore(fwd, fwd', list, h, update, upos, r, n, l, q, i);
      } else if q == r {
        SpliceNew(fwd, fwd', list, h, update, upos, r, n, l, i);
      } else {
        assert h'[q] == h[q - 1];
        SpliceAfter(fwd, fwd', list, h, update, upos, r, n, l, q - 1, i);
      }
    }
  }

  /** A link that the splice leaves alone and that does not pass position `r` below the
      new node's height keeps its target. */
  lemma KeptLink(list: seq<int>, h: seq<int>, n: int, r: nat, l: int, link: int, s: nat, i: int)
    requires r <= |list| == |h| && s <= r
    requires LinkOk(list, link, NextPos(h, i, s), i)
    requires NextPos(h, i, s) < r || l <= i
    ensures LinkOk(list[..r] + [n] + list[r..], link, NextPos(h[..r] + [l] + h[r..], i, s), i)
  {
    var t := NextPos(h, i, s);
    NextPosInsert(h, r, l, i, s);
    if t >= r { NextPosIs(h, i, r, t); }
    LinkInsert(list, n, r, link, t, i);
  }

  /** A link redirected to the new node reaches it at position `r`. */
  lemma RedirectLink(list: seq<int>, h: seq<int>, n: int, r: nat, l: int, s: nat, i: int)
    requires r <= |list| == |h| && s <= r && NextPos(h, i, s) >= r && l > i
    ensures LinkOk(list[..r] + [n] + list[r..], n, NextPos(h[..r] + [l] + h[r..], i, s), i)
  {
    NextPosInsert(h, r, l, i, s);
    assert (list[..r] + [n] + list[r..])[r] == n;
  }

  /** A link from position `s - 1 >= r - 1` keeps its target, shifted by one. */
  lemma ShiftedLink(list: seq<int>, h: seq<int>, n: int, r: nat, l: int, link: int, s: nat, i: int)
    requires r <= s <= |list| == |h|
    requires LinkOk(list, link, NextPos(h, i, s), i)
    ensures LinkOk(list[..r] + [n] + list[r..], link, NextPos(h[..r] + [l] + h[r..], i, s + 1), i)
  {
    NextPosInsert(h, r, l, i, s + 1);
    LinkInsert(list, n, r, link, NextPos(h, i, s), i);
  }

  /** A link at level `i` from a node at position `q < r`, after the splice. */
  lemma SpliceBefore(fwd: seq<seq<int>>, fwd': seq<seq<int>>, list: seq<int>, h: seq<int>,
                     update: seq<int>, upos: seq<int>, r: int, n: int, l: int, q: int, i: int)
    requires SpliceReady(fwd, fwd', list, h, update, upos, r, n, l)
    requires 0 <= q < r && 0 <= i < h[q]
    ensures NodeLinkOk(fwd', list[..r] + [n] + list[r..], h[..r] + [l] + h[r..], q, i)
  {
    var m := list[q];
    assert (list[..r] + [n] + list[r..])[q] == m;
    assert NodeLinkOk(fwd, list, h, q, i);
    assert fwd'[m][i] == SpliceAt(fwd, update, n, l, m, i);
    if i < l { assert UpdOk(list, h, update, upos, r, i); }
    if i < l && upos[i] == q {
      RedirectLink(list, h, n, r, l, q + 1, i);
    } else {
      if i < l {
        assert m != update[i];
        UpdDominates(list, h, update, upos, r, i, q);
      }
      KeptLink(list, h, n, r, l, fwd[m][i], q + 1, i);
    }
  }

  lemma SpliceHead(fwd: seq<seq<int>>, fwd': seq<seq<int>>, list: seq<int>, h: seq<int>,
                   update: seq<int>, upos: seq<int>, r: int, n: int, l: int, i: int)
    requires SpliceReady(fwd, fwd', list, h, update, upos, r, n, l)
    requires 0 <= i < |fwd'[HEAD]|
    ensures HeadLinkOk(fwd', list[..r] + [n] + list[r..], h[..r] + [l] + h[r..], i)
  {
    assert HeadLinkOk(fwd, list, h, i);
    assert fwd'[HEAD][i] == SpliceAt(fwd, update, n, l, HEAD, i);
    if i < l { assert UpdOk(list, h, update, upos, r, i); }
    if i < l && upos[i] == -1 {
      RedirectLink(list, h, n, r, l, 0, i);
    } else {
      if i < l {
        assert HEAD != update[i];
        assert NextPos(h, i, 0) <= upos[i];
      }
      KeptLink(list, h, n, r, l, fwd[HEAD][i], 0, i);
    }
  }

  /** The new node's links: what its `update` node linked to before. */
  lemma SpliceNew(fwd: seq<seq<int>>, fwd': seq<seq<int>>, list: seq<int>, h: seq<int>,
                  update: seq<int>, upos: seq<int>, r: int, n: int, l: int, i: int)
    requires SpliceReady(fwd, fwd', list, h, update, upos, r, n, l)
    requires 0 <= i < l
    ensures NodeLinkOk(fwd', list[..r] + [n] + list[r..], h[..r] + [l] + h[r..], r, i)
  {
    assert (list[..r] + [n] + list[r..])[r] == n;
    assert UpdOk(list, h, update, upos, r, i);
    LinkFrom(fwd, list, h, upos[i], i);
    UpdNextIs(list, h, update, upos, r, i);
    assert fwd'[n][i] == SpliceAt(fwd, update, n, l, n, i);
    ShiftedLink(list, h, n, r, l, fwd[update[i]][i], r, i);
  }

  /** Links of the nodes after the new one are unchanged; their targets shift by one. */
  lemma SpliceAfter(fwd: seq<seq<int>>, fwd': seq<seq<int>>, list: seq<int>, h: seq<int>,
                    update: seq<int>, upos: seq<int>, r: int, n: int, l: int, q: int, i: int)
    requires SpliceReady(fwd, fwd', list, h, update, upos, r, n, l)
    requires r <= q < |list| && 0 <= i < h[q]
    ensures NodeLinkOk(fwd', list[..r] + [n] + list[r..], h[..r] + [l] + h[r..], q + 1, i)
  {
    var m := list[q];
    assert NodeLinkOk(fwd, list, h, q, i);
    assert fwd'[m][i] == SpliceAt(fwd, update, n, l, m, i);
    if i < l {
      assert UpdOk(list, h, update, upos, r, i);
      assert m != update[i];
    }
    ShiftedNode(fwd', list, h, n, r, l, q, i);
  }

  /** The node at position `q >= r` reaches position `q + 1` after the splice. */
  lemma ShiftedNode(fwd': seq<seq<int>>, list: seq<int>, h: seq<int>, n: int, r: nat, l: int, q: int, i: int)
    requires r <= q < |list| == |h| && 0 <= list[q] < |fwd'| && 0 <= i < |fwd'[list[q]]|
    requires LinkOk(list, fwd'[list[q]][i], NextPos(h, i, q + 1), i)
    ensures NodeLinkOk(fwd', list[..r] + [n] + list[r..], h[..r] + [l] + h[r..], q + 1, i)
  {
    assert (list[..r] + [n] + list[r..])[q + 1] == list[q];
    ShiftedLink(list, h, n, r, l, fwd'[list[q]][i], q + 1, i);
  }

  // ---------------------------------------------------------------------
  // Unsplicing the node at position `r`

  /** `h'` is `h` with position `r` removed. */
  ghost predicate Erased(h: seq<int>, h': seq<int>, r: nat) {
    r < |h| && |h'| == |h| - 1
    && (forall p :: 0 <= p < r ==> h'[p] == h[p])
    && (forall p :: r <= p < |h'| ==> h'[p] == h[p + 1])
  }

  lemma ErasedIs(h: seq<int>, r: nat)
    requires r < |h|
    ensures Erased(h, h[..r] + h[r + 1..], r)
  {
  }

  /** Positions from `s` onwards in `h'`, where `h' = h[..r] + h[r + 1..]`. */
  lemma NextPosErase(h: seq<int>, r: nat, i: int, s: nat)
    requires r < |h| && s <= |h| - 1
    ensures var h' := h[..r] + h[r + 1..];
      var t := NextPos(h, i, s);
      NextPos(h', i, s) ==
        if s >= r then NextPos(h, i, s + 1) - 1
        else if t < r then t
        else NextPos(h, i, r + 1) - 1
  {
    ErasedIs(h, r);
    NextPosErased(h, h[..r] + h[r + 1..], r, i, s);
  }

  lemma NextPosErased(h: seq<int>, h': seq<int>, r: nat, i: int, s: nat)
    requires Erased(h, h', r) && s <= |h| - 1
    ensures var t := NextPos(h, i, s);
      NextPos(h', i, s) ==
        if s >= r then NextPos(h, i, s + 1) - 1
        else if t < r then t
        else NextPos(h, i, r + 1) - 1
  {
    var t := NextPos(h, i, s);
    if s >= r {
      NextPosIs(h', i, s, NextPos(h, i, s + 1) - 1);
    } else if t < r {
      NextPosIs(h', i, s, t);
    } else {
      NextPosIs(h', i, s, NextPos(h, i, r + 1) - 1);
    }
  }

  /** A link that does not reach position `r` stays valid once `r` is removed. */
  lemma LinkErase(list: seq<int>, r: nat, link: int, t: nat, i: int)
    requires r < |list| && t <= |list| && t != r && LinkOk(list, link, t, i)
    ensures var list' := list[..r] + list[r + 1..];
      LinkOk(list', link, if t < r then t else t - 1, i)
  {
    var list' := list[..r] + list[r + 1..];
    if t < r {
      assert list'[t] == list[t];
    } else if t < |list| {
      assert list'[t - 1] == list[t];
    }
  }

  /** The link at level `j` of node `m` after the unsplice loop has run its first `i`
      rounds: `update[j]->forward[j] = x->forward[j]` for `j < i`. */
  ghost function UnspliceAt(fwd: seq<seq<int>>, update: seq<int>, x: int, i: int, m: int, j: int): int
    requires 0 <= m < |fwd| && 0 <= j < |fwd[m]|
  {
    if j < i && j < |update| && m == update[j] && 0 <= x < |fwd| && j < |fwd[x]| then fwd[x][j]
    else fwd[m][j]
  }

  /** `fwd'` is `fwd` after the first `i` rounds of unsplicing node `x`. */
  ghost predicate UnsplicedTo(fwd: seq<seq<int>>, fwd': seq<seq<int>>, update: seq<int>, x: int, i: int) {
    |fwd'| == |fwd|
    && (forall m :: 0 <= m < |fwd| ==> |fwd'[m]| == |fwd[m]|)
    && (forall m, j :: 0 <= m < |fwd| && 0 <= j < |fwd[m]| ==> fwd'[m][j] == UnspliceAt(fwd, update, x, i, m, j))
  }

  /** Everything the unsplice of the node at position `r` relies on. */
  ghost predicate UnspliceReady(fwd: seq<seq<int>>, list: seq<int>, h: seq<int>,
                                update: seq<int>, upos: seq<int>, r: int) {
    Levels(fwd, list, h) && Distinct(list)
    && 0 <= r < |list| && h[r] < |update| == |fwd[HEAD]|
    && (forall q :: 0 <= q < |list| ==> 2 <= list[q] < |fwd| && h[q] == |fwd[list[q]]|)
    && (forall j :: 0 <= j < |update| ==> UpdOk(list, h, update, upos, r, j))
  }

  /** The node before `x` at level `i` links to `x` exactly at the levels `x` has. */
  lemma UnspliceCond(fwd: seq<seq<int>>, cur: seq<seq<int>>, list: seq<int>, h: seq<int>,
                     update: seq<int>, upos: seq<int>, r: int, i: int)
    requires UnspliceReady(fwd, list, h, update, upos, r)
    requires UnsplicedTo(fwd, cur, update, list[r], i) && 0 <= i <= h[r]
    ensures 0 <= update[i] < |cur| && i < |cur[update[i]]| && update[i] != list[r]
    ensures cur[update[i]][i] == list[r] <==> i < h[r]
  {
    assert UpdOk(list, h, update, upos, r, i);
    LinkFrom(fwd, list, h, upos[i], i);
    assert cur[update[i]][i] == UnspliceAt(fwd, update, list[r], i, update[i], i);
    var t := NextPos(h, i, upos[i] + 1);
    if i < h[r] {
      NextPosIs(h, i, upos[i] + 1, r);
    } else {
      assert t != r;
    }
  }

  /** One round of the unsplice loop. */
  lemma UnspliceRound(fwd: seq<seq<int>>, cur: seq<seq<int>>, update: seq<int>, x: int, i: int)
    requires UnsplicedTo(fwd, cur, update, x, i)
    requires 0 <= x < |fwd| && 0 <= i < |fwd[x]| && i < |update|
    requires 0 <= update[i] < |fwd| && i < |fwd[update[i]]| && update[i] != x
    ensures UnsplicedTo(fwd, cur[update[i] := cur[update[i]][i := cur[x][i]]], update, x, i + 1)
  {
    var c1 := cur[update[i] := cur[update[i]][i := cur[x][i]]];
    assert cur[x][i] == fwd[x][i] by {
      assert cur[x][i] == UnspliceAt(fwd, update, x, i, x, i);
    }
    forall m, j | 0 <= m < |fwd| && 0 <= j < |fwd[m]|
      ensures c1[m][j] == UnspliceAt(fwd, update, x, i + 1, m, j)
    {
      assert cur[m][j] == UnspliceAt(fwd, update, x, i, m, j);
    }
  }

  /** The unsplice leaves every level well linked, without position `r`. */
  lemma UnspliceLevels(fwd: seq<seq<int>>, fwd': seq<seq<int>>, list: seq<int>, h: seq<int>,
                       update: seq<int>, upos: seq<int>, r: int)
    requires UnspliceReady(fwd, list, h, update, upos, r)
    requires UnsplicedTo(fwd, fwd', update, list[r], h[r])
    ensures Levels(fwd', list[..r] + list[r + 1..], h[..r] + h[r + 1..])
  {
    var list', h' := list[..r] + list[r + 1..], h[..r] + h[r + 1..];
    forall i | 0 <= i < |fwd'[HEAD]| ensures HeadLinkOk(fwd', list', h', i) {
      UnspliceHead(fwd, fwd', list, h, update, upos, r, i);
    }
    forall q, i | 0 <= q < |list'| && 0 <= i < h'[q] ensures NodeLinkOk(fwd', list', h', q, i) {
      if q < r {
        assert h'[q] == h[q];
        UnspliceBefore(fwd, fwd', list, h, update, upos, r, q, i);
      } else {
        assert h'[q] == h[q + 1];
        UnspliceAfter(fwd, fwd', list, h, update, upos, r, q + 1, i);
      }
    }
  }

  /** A link from a position before `r` that bypasses it now takes over `x`'s link. */
  lemma Bypass(list: seq<int>, h: seq<int>, r: nat, s: nat, i: int, link: int)
    requires r < |list| == |h| && s <= r && NextPos(h, i, s) >= r
    requires LinkOk(list, link, NextPos(h, i, r + 1), i)
    ensures LinkOk(list[..r] + list[r + 1..], link, NextPos(h[..r] + h[r + 1..], i, s), i)
  {
    NextPosErase(h, r, i, s);
    LinkErase(list, r, link, NextPos(h, i, r + 1), i);
  }

  /** A link from a position before `r` that does not reach `r` stays valid. */
  lemma Keep(list: seq<int>, h: seq<int>, r: nat, s: nat, i: int, link: int)
    requires r < |list| == |h| && s <= r && NextPos(h, i, s) != r
    requires LinkOk(list, link, NextPos(h, i, s), i)
    ensures LinkOk(list[..r] + list[r + 1..], link, NextPos(h[..r] + h[r + 1..], i, s), i)
  {
    var t := NextPos(h, i, s);
    NextPosErase(h, r, i, s);
    if t > r { NextPosIs(h, i, r + 1, t); }
    LinkErase(list, r, link, t, i);
  }

  lemma UnspliceHead(fwd: seq<seq<int>>, fwd': seq<seq<int>>, list: seq<int>, h: seq<int>,
                     update: seq<int>, upos: seq<int>, r: int, i: int)
    requires UnspliceReady(fwd, list, h, update, upos, r)
    requires UnsplicedTo(fwd, fwd', update, list[r], h[r])
    requires 0 <= i < |fwd'[HEAD]|
    ensures HeadLinkOk(fwd', list[..r] + list[r + 1..], h[..r] + h[r + 1..], i)
  {
    assert HeadLinkOk(fwd, list, h, i);
    assert fwd'[HEAD][i] == UnspliceAt(fwd, update, list[r], h[r], HEAD, i);
    if i < h[r] {
      assert UpdOk(list, h, update, upos, r, i);
      if upos[i] == -1 {
        assert NodeLinkOk(fwd, list, h, r, i);
        Bypass(list, h, r, 0, i, fwd[list[r]][i]);
      } else {
        assert HEAD != update[i];
        Keep(list, h, r, 0, i, fwd[HEAD][i]);
      }
    } else {
      Keep(list, h, r, 0, i, fwd[HEAD][i]);
    }
  }

  lemma UnspliceBefore(fwd: seq<seq<int>>, fwd': seq<seq<int>>, list: seq<int>, h: seq<int>,
                       update: seq<int>, upos: seq<int>, r: int, q: int, i: int)
    requires UnspliceReady(fwd, list, h, update, upos, r)
    requires UnsplicedTo(fwd, fwd', update, list[r], h[r])
    requires 0 <= q < r && 0 <= i < h[q]
    ensures NodeLinkOk(fwd', list[..r] + list[r + 1..], h[..r] + h[r + 1..], q, i)
  {
    var m := list[q];
    assert (list[..r] + list[r + 1..])[q] == m;
    assert NodeLinkOk(fwd, list, h, q, i);
    assert fwd'[m][i] == UnspliceAt(fwd, update, list[r], h[r], m, i);
    if i < h[r] {
      assert UpdOk(list, h, update, upos, r, i);
      if upos[i] == q {
        assert NodeLinkOk(fwd, list, h, r, i);
        Bypass(list, h, r, q + 1, i, fwd[list[r]][i]);
      } else {
        assert m != update[i];
        UpdDominates(list, h, update, upos, r, i, q);
        Keep(list, h, r, q + 1, i, fwd[m][i]);
      }
    } else {
      Keep(list, h, r, q + 1, i, fwd[m][i]);
    }
  }

  lemma UnspliceAfter(fwd: seq<seq<int>>, fwd': seq<seq<int>>, list: seq<int>, h: seq<int>,
                      update: seq<int>, upos: seq<int>, r: int, q: int, i: int)
    requires UnspliceReady(fwd, list, h, update, upos, r)
    requires UnsplicedTo(fwd, fwd', update, list[r], h[r])
    requires r < q < |list| && 0 <= i < h[q]
    ensures NodeLinkOk(fwd', list[..r] + list[r + 1..], h[..r] + h[r + 1..], q - 1, i)
  {
    var m := list[q];
    assert NodeLinkOk(fwd, list, h, q, i);
    assert fwd'[m][i] == UnspliceAt(fwd, update, list[r], h[r], m, i);
    if i < h[r] {
      assert UpdOk(list, h, update, upos, r, i);
      assert m != update[i];
    }
    UnshiftedNode(fwd', list, h, r, q, i);
  }

  /** The node at position `q > r` reaches position `q - 1` once `r` is gone. */
  lemma UnshiftedNode(fwd': seq<seq<int>>, list: seq<int>, h: seq<int>, r: nat, q: int, i: int)
    requires r < q < |list| == |h| && 0 <= list[q] < |fwd'| && 0 <= i < |fwd'[list[q]]|
    requires LinkOk(list, fwd'[list[q]][i], NextPos(h, i, q + 1), i)
    ensures NodeLinkOk(fwd', list[..r] + list[r + 1..], h[..r] + h[r + 1..], q - 1, i)
  {
    assert (list[..r] + list[r + 1..])[q - 1] == list[q];
    NextPosErase(h, r, i, q);
    LinkErase(list, r, fwd'[list[q]][i], NextPos(h, i, q + 1), i);
  }

  // ---------------------------------------------------------------------
  // Dropping empty top levels of the head

  /** When the head's second-highest level links straight to `NIL`, no node reaches that
      level, and the top level can go. */
  lemma ShrinkHead(fwd: seq<seq<int>>, list: seq<int>, h: seq<int>)
    requires Levels(fwd, list, h) && |fwd[HEAD]| >= 2 && fwd[HEAD][|fwd[HEAD]| - 2] == NIL
    requires forall q :: 0 <= q < |list| ==> list[q] != NIL && list[q] != HEAD
    ensures forall q :: 0 <= q < |h| ==> h[q] <= |fwd[HEAD]| - 2
    ensures Levels(fwd[HEAD := fwd[HEAD][..|fwd[HEAD]| - 1]], list, h)
  {
    var top := |fwd[HEAD]| - 2;
    assert HeadLinkOk(fwd, list, h, top);
    var fwd' := fwd[HEAD := fwd[HEAD][..|fwd[HEAD]| - 1]];
    forall i | 0 <= i < |fwd'[HEAD]| ensures HeadLinkOk(fwd', list, h, i) {
      assert HeadLinkOk(fwd, list, h, i);
    }
    forall q, i | 0 <= q < |list| && 0 <= i < h[q] ensures NodeLinkOk(fwd', list, h, q, i) {
      assert NodeLinkOk(fwd, list, h, q, i);
    }
  }

  // ---------------------------------------------------------------------
  // Growing the arena and the update vector

  /** A new arena entry that no level reaches leaves the levels as they were. */
  lemma LevelsAppend(fwd: seq<seq<int>>, list: seq<int>, h: seq<int>, e: seq<int>)
    requires Levels(fwd, list, h)
    requires forall q :: 0 <= q < |list| ==> 0 <= list[q] < |fwd|
    ensures Levels(fwd + [e], list, h)
  {
    var fwd' := fwd + [e];
    forall i | 0 <= i < |fwd'[HEAD]| ensures HeadLinkOk(fwd', list, h, i) {
      assert HeadLinkOk(fwd, list, h, i);
    }
    forall q, i | 0 <= q < |list| && 0 <= i < h[q] ensures NodeLinkOk(fwd', list, h, q, i) {
      assert NodeLinkOk(fwd, list, h, q, i);
    }
  }

  /** Levels above every node have the head as their last node before any position:
      `update.emplace_back(head)`. */
  lemma UpdExtend(list: seq<int>, h: seq<int>, update: seq<int>, upos: seq<int>, r: int, top: int)
    requires |h| == |list| && 0 <= r <= |list| && top <= |update| == |upos|
    requires forall q :: 0 <= q < |h| ==> h[q] < top
    requires forall j :: 0 <= j < |update| ==> UpdOk(list, h, update, upos, r, j)
    ensures forall j :: 0 <= j < |update| + 1 ==> UpdOk(list, h, update + [HEAD], upos + [-1], r, j)
  {
    NextPosIs(h, |update|, 0, |h|);
    forall j | 0 <= j < |update| + 1 ensures UpdOk(list, h, update + [HEAD], upos + [-1], r, j) {
      if j < |update| {
        assert UpdOk(list, h, update, upos, r, j);
      }
    }
  }

  /** Recording `update[i] = x` for the node at position `p` keeps the levels above `i`. */
  lemma UpdAssign(list: seq<int>, h: seq<int>, update: seq<int>, upos: seq<int>, r: int, i: int, y: int, p: int,
                  update': seq<int>, upos': seq<int>)
    requires 0 <= i < |update| == |upos| && |h| == |list|
    requires forall j :: i < j < |update| ==> UpdOk(list, h, update, upos, r, j)
    requires -1 <= p < r <= |list| && y == NodeAt(list, p) && (p >= 0 ==> h[p] > i)
    requires NextPos(h, i, p + 1) >= r
    requires update' == update[i := y] && upos' == upos[i := p]
    ensures forall j :: i - 1 < j < |update'| ==> UpdOk(list, h, update', upos', r, j)
  {
    forall j | i - 1 < j < |update'| ensures UpdOk(list, h, update', upos', r, j) {
      if j > i {
        assert UpdOk(list, h, update, upos, r, j);
      }
    }
  }
}
