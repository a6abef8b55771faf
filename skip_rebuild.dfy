/**
 * The deterministic level layout `reconfigure` rebuilds.
 *
 * Positions here count from the head: the head stands at 0, the ordinary node
 * `list[P - 1]` at `P` (1 <= P <= |list|), and NIL at `|list| + 1`. Round `j`
 * of the rebuild (stride 2^j) gives level `j` to every position divisible by
 * 2^j, linking each to the position 2^j further on, or to `Null` past NIL.
 */
module SkipRebuild {
  import opened SkipLevels

  function Pow2(j: nat): (p: nat)
    ensures p >= 1
  {
    if j == 0 then 1 else 2 * Pow2(j - 1)
  }

  /** 2^j divides P. */
  predicate Divides2(P: nat, j: nat) {
    j == 0 || (P % 2 == 0 && Divides2(P / 2, j - 1))
  }

  /** The highest level `j <= k` whose stride 2^j divides P: how many rounds promote P. */
  function Promoted(P: nat, k: nat): (j: nat)
    ensures j <= k
  {
    if k == 0 then 0 else if Divides2(P, k) then k else Promoted(P, k - 1)
  }

  /** The number of rounds `for (step = 2; step < sz; step *= 2)` runs, counting from round `k`. */
  function RoundsFrom(sz: int, k: nat): (r: nat)
    requires k >= 1
    ensures r >= k - 1 && Pow2(r + 1) >= sz
    ensures r >= k ==> Pow2(r) < sz
    decreases sz - Pow2(k)
  {
    if Pow2(k) < sz then RoundsFrom(sz, k + 1) else k - 1
  }

  function Rounds(sz: int): nat {
    RoundsFrom(sz, 1)
  }

  /** The node at position `P`. */
  function Node1(list: seq<int>, P: nat): int {
    if P == 0 then HEAD else if P <= |list| then list[P - 1] else NIL
  }

  /** The level-`j` link a rebuild gives the node at position `P`. */
  function Target(list: seq<int>, P: nat, j: nat): int {
    if P + Pow2(j) <= |list| + 1 then Node1(list, P + Pow2(j)) else Null
  }

  /** The forward vector of the node at position `P` after `k` rounds. */
  function Built(list: seq<int>, P: nat, k: nat): (f: seq<int>)
    ensures |f| == 1 + Promoted(P, k)
    ensures forall j :: 0 <= j < |f| ==> f[j] == Target(list, P, j)
  {
    seq(1 + Promoted(P, k), j requires 0 <= j => Target(list, P, j))
  }

  // ---------------------------------------------------------------------
  // Divisibility by powers of two

  lemma {:induction false} Divides2Down(P: nat, a: nat, b: nat)
    requires a <= b && Divides2(P, b)
    ensures Divides2(P, a)
  {
    if a > 0 {
      Divides2Down(P / 2, a - 1, b - 1);
    }
  }

  /** Every position is divisible by 2^0 and 0 by every 2^j. */
  lemma {:induction false} Divides2Zero(j: nat)
    ensures Divides2(0, j)
  {
    if j > 0 {
      Divides2Zero(j - 1);
    }
  }

  /** From a multiple of 2^j, the next multiple is 2^j further on. */
  lemma {:induction false} Divides2Next(P: nat, j: nat)
    requires Divides2(P, j)
    ensures Divides2(P + Pow2(j), j)
  {
    if j > 0 {
      Divides2Next(P / 2, j - 1);
      assert (P + Pow2(j)) / 2 == P / 2 + Pow2(j - 1);
    }
  }

  /** No multiple of 2^j lies strictly between a multiple and the next one. */
  lemma {:induction false} Divides2Gap(P: nat, j: nat, x: nat)
    requires Divides2(P, j) && P < x < P + Pow2(j)
    ensures !Divides2(x, j)
  {
    if j > 0 && x % 2 == 0 {
      Divides2Gap(P / 2, j - 1, x / 2);
    }
  }

  /** Position `P` reaches above level `j` after `k` rounds exactly when `j` is 0, or
      `j <= k` and 2^j divides `P`. */
  lemma {:induction false} PromotedSpec(P: nat, k: nat, j: nat)
    ensures Promoted(P, k) >= j <==> j == 0 || (j <= k && Divides2(P, j))
  {
    if k > 0 {
      if Divides2(P, k) {
        if j <= k && j > 0 {
          Divides2Down(P, j, k);
        }
      } else {
        PromotedSpec(P, k - 1, j);
      }
    }
  }

  /** One more round appends level `k` to multiples of 2^k and leaves the others alone. */
  lemma BuiltStep(list: seq<int>, P: nat, k: nat)
    requires k >= 1
    ensures Built(list, P, k) == if Divides2(P, k) then Built(list, P, k - 1) + [Target(list, P, k)]
                                 else Built(list, P, k - 1)
  {
    if Divides2(P, k) {
      if k > 1 {
        Divides2Down(P, k - 1, k);
      }
      assert Promoted(P, k - 1) == k - 1 by {
        PromotedSpec(P, k - 1, k - 1);
      }
    }
  }

  /** `Divides2` is divisibility by the power of two. */
  lemma {:induction false} Divides2Mod(P: nat, j: nat)
    ensures Divides2(P, j) <==> P % Pow2(j) == 0
  {
    if j > 0 {
      Divides2Mod(P / 2, j - 1);
      ModTwice(P, Pow2(j - 1));
    }
  }

  lemma MulMod(m: int, q: int)
    requires m >= 1 && q >= 0
    ensures (m * q) % m == 0 && (m * q) / m == q
  {
    var a := m * q;
    var d := q - a / m;
    assert m * d == a % m;
  }

  lemma ModTwice(P: nat, m: nat)
    requires m >= 1
    ensures P % (2 * m) == 0 <==> P % 2 == 0 && (P / 2) % m == 0
  {
    if P % (2 * m) == 0 {
      var q := P / (2 * m);
      assert P == (2 * m) * q;
      assert (2 * m) * q == 2 * (m * q);
      assert P / 2 == m * q;
      MulMod(m, q);
    }
    if P % 2 == 0 && (P / 2) % m == 0 {
      var q := (P / 2) / m;
      assert P / 2 == m * q;
      assert P == (2 * m) * q;
      MulMod(2 * m, q);
    }
  }

  lemma {:induction false} Pow2Mono(a: nat, b: nat)
    requires a <= b
    ensures Pow2(a) <= Pow2(b)
  {
    if a < b {
      Pow2Mono(a, b - 1);
    }
  }

  /** Round `j >= 1` runs exactly when its stride 2^j is below `sz`. */
  lemma RoundsSpec(sz: int, j: nat)
    requires j >= 1
    ensures j <= Rounds(sz) <==> Pow2(j) < sz
  {
    var r := Rounds(sz);
    if j <= r {
      Pow2Mono(j, r);
    } else {
      Pow2Mono(r + 1, j);
    }
  }

  // ---------------------------------------------------------------------
  // The rebuilt levels are well linked

  /** Heights after `k` rounds: `1 + Promoted` of each position. */
  function RebuiltHeights(n: nat, k: nat): (h: seq<int>)
    ensures |h| == n
    ensures forall q :: 0 <= q < n ==> h[q] == 1 + Promoted(q + 1, k)
  {
    seq(n, q requires 0 <= q => 1 + Promoted(q + 1, k))
  }

  /** After the rebuild of `n` nodes with `sz == n`, the node at level-0 position `q + 1`
      reaches above level `j` exactly when `j` is 0, or 2^j is below `sz` and divides `q + 1`. */
  lemma RebuiltHeightsSpec(n: nat, sz: int, q: int, j: nat)
    requires 0 <= q < n
    ensures RebuiltHeights(n, Rounds(sz))[q] > j <==> j == 0 || (Pow2(j) < sz && (q + 1) % Pow2(j) == 0)
  {
    PromotedSpec(q + 1, Rounds(sz), j);
    Divides2Mod(q + 1, j);
    if j >= 1 {
      RoundsSpec(sz, j);
    }
  }

  /** Positions strictly between a multiple of 2^j and the next one stay at or below level `j`. */
  lemma GapHeight(P: nat, j: nat, k: nat, x: nat)
    requires Divides2(P, j) && P < x < P + Pow2(j)
    ensures 1 + Promoted(x, k) <= j
  {
    Divides2Gap(P, j, x);
    PromotedSpec(x, k, j);
  }

  /** The rebuilt link of level `j` from a position promoted to level `j`. */
  lemma ChainNext(list: seq<int>, h: seq<int>, k: nat, P: nat, j: nat)
    requires h == RebuiltHeights(|list|, k)
    requires P <= |list| && j <= k && Divides2(P, j)
    ensures LinkOk(list, Target(list, P, j), NextPos(h, j, P), j)
  {
    var T := P + Pow2(j);
    var t := if T - 1 <= |list| then T - 1 else |list|;
    forall q | P <= q < t ensures h[q] <= j {
      GapHeight(P, j, k, q + 1);
    }
    if t < |list| {
      Divides2Next(P, j);
      PromotedSpec(T, k, j);
    }
    NextPosIs(h, j, P, t);
  }

  /** The forward vectors after `k` rounds, with the head one level higher and linked to
      `NIL` there, form well-linked levels over `RebuiltHeights`. */
  lemma RebuiltLevels(fwd: seq<seq<int>>, list: seq<int>, k: nat)
    requires |fwd| > HEAD && fwd[HEAD] == Built(list, 0, k) + [NIL]
    requires forall q :: 0 <= q < |list| ==> 0 <= list[q] < |fwd| && list[q] != HEAD && fwd[list[q]] == Built(list, q + 1, k)
    ensures Levels(fwd, list, RebuiltHeights(|list|, k))
  {
    var h := RebuiltHeights(|list|, k);
    Divides2Zero(k);
    assert |Built(list, 0, k)| == k + 1;
    forall i | 0 <= i < |fwd[HEAD]| ensures HeadLinkOk(fwd, list, h, i) {
      if i <= k {
        Divides2Zero(i);
        ChainNext(list, h, k, 0, i);
      } else {
        NextPosIs(h, i, 0, |h|);
      }
    }
    forall q, i | 0 <= q < |list| && 0 <= i < h[q] ensures NodeLinkOk(fwd, list, h, q, i) {
      PromotedSpec(q + 1, k, i);
      ChainNext(list, h, k, q + 1, i);
    }
  }

  // ---------------------------------------------------------------------
  // The phases of the rebuild, on arena values

  /** Positions 0 .. |list| + 1 name distinct nodes of an arena of `len` nodes. */
  ghost predicate Chain(list: seq<int>, len: int) {
    (forall P :: 0 <= P <= |list| + 1 ==> 0 <= Node1(list, P) < len)
    && (forall P, Q :: 0 <= P < Q <= |list| + 1 ==> Node1(list, P) != Node1(list, Q))
  }

  lemma ChainOf(list: seq<int>, len: int)
    requires NIL < len && Distinct(list)
    requires forall q :: 0 <= q < |list| ==> 2 <= list[q] < len
    ensures Chain(list, len)
  {
    forall P, Q | 0 <= P < Q <= |list| + 1 ensures Node1(list, P) != Node1(list, Q) {
      if 0 < P && Q <= |list| {
        assert list[P - 1] != list[Q - 1];
      }
    }
  }

  /** Level 0 links every position to the next one, and NIL to `Null`. */
  ghost predicate LevelZero(fwd: seq<seq<int>>, list: seq<int>) {
    Chain(list, |fwd|)
    && (forall P :: 0 <= P <= |list| ==>
          |fwd[Node1(list, P)]| >= 1 && fwd[Node1(list, P)][0] == Node1(list, P + 1))
    && NIL < |fwd| && |fwd[NIL]| >= 1 && fwd[NIL][0] == Null
  }

  lemma LevelZeroOf(fwd: seq<seq<int>>, list: seq<int>, h: seq<int>)
    requires Levels(fwd, list, h) && Chain(list, |fwd|) && 1 <= |fwd[HEAD]|
    requires forall q :: 0 <= q < |list| ==> 0 <= list[q] < |fwd| && 1 <= h[q] == |fwd[list[q]]|
    requires NIL < |fwd| && |fwd[NIL]| >= 1 && fwd[NIL][0] == Null
    ensures LevelZero(fwd, list)
  {
    forall P | 0 <= P <= |list|
      ensures |fwd[Node1(list, P)]| >= 1 && fwd[Node1(list, P)][0] == Node1(list, P + 1)
    {
      var t := if P < |list| then P else |list|;
      NextPosIs(h, 0, P, t);
      if P == 0 {
        assert HeadLinkOk(fwd, list, h, 0);
      } else {
        assert NodeLinkOk(fwd, list, h, P - 1, 0);
      }
    }
  }

  /** The trim has cut the nodes at positions below `p` to their level-0 link and left the
      others as they were in `fwd0`. */
  ghost predicate Trimmed(fwd0: seq<seq<int>>, fwd: seq<seq<int>>, list: seq<int>, p: int) {
    |fwd| == |fwd0| && Chain(list, |fwd|)
    && (forall P :: 0 <= P < p && P <= |list| ==> fwd[Node1(list, P)] == Built(list, P, 0))
    && (forall P :: p <= P <= |list| + 1 && 0 <= P ==> fwd[Node1(list, P)] == fwd0[Node1(list, P)])
  }

  /** The loop test of the trim: the node at `p` has a level-0 link, null only at NIL. */
  lemma TrimCond(fwd0: seq<seq<int>>, fwd: seq<seq<int>>, list: seq<int>, p: int)
    requires LevelZero(fwd0, list) && Trimmed(fwd0, fwd, list, p) && 0 <= p <= |list| + 1
    ensures 0 <= Node1(list, p) < |fwd| && |fwd[Node1(list, p)]| >= 1
    ensures fwd[Node1(list, p)][0] == Null <==> p == |list| + 1
  {
    if p <= |list| {
      assert Node1(list, p + 1) != Null by {
        assert 0 <= Node1(list, p + 1);
      }
    }
  }

  /** One round of the trim, then the step along level 0. */
  lemma TrimStep(fwd0: seq<seq<int>>, fwd: seq<seq<int>>, list: seq<int>, p: int)
    requires LevelZero(fwd0, list) && Trimmed(fwd0, fwd, list, p) && 0 <= p <= |list|
    ensures var x := Node1(list, p);
      0 <= x < |fwd| && |fwd[x]| >= 1
      && fwd[x][..1][0] == Node1(list, p + 1)
      && Trimmed(fwd0, fwd[x := fwd[x][..1]], list, p + 1)
  {
    var x := Node1(list, p);
    var fwd' := fwd[x := fwd[x][..1]];
    assert fwd[x][..1] == Built(list, p, 0);
    forall P | 0 <= P < p + 1 && P <= |list| ensures fwd'[Node1(list, P)] == Built(list, P, 0) {
      if P != p {
        assert Node1(list, P) != x;
      }
    }
    forall P | p + 1 <= P <= |list| + 1 ensures fwd'[Node1(list, P)] == fwd0[Node1(list, P)] {
      assert Node1(list, P) != x;
    }
  }

  /** `fwd` holds the forward vectors of `k` rounds at every position but NIL, whose links
      are all null. */
  ghost predicate BuiltUpTo(fwd: seq<seq<int>>, list: seq<int>, k: nat) {
    Chain(list, |fwd|)
    && (forall P :: 0 <= P <= |list| ==> fwd[Node1(list, P)] == Built(list, P, k))
    && NIL < |fwd| && 1 <= |fwd[NIL]| && (forall j :: 0 <= j < |fwd[NIL]| ==> fwd[NIL][j] == Null)
  }

  lemma TrimDone(fwd0: seq<seq<int>>, fwd: seq<seq<int>>, list: seq<int>)
    requires Trimmed(fwd0, fwd, list, |list| + 1)
    requires NIL < |fwd0| && 1 <= |fwd0[NIL]| && forall j :: 0 <= j < |fwd0[NIL]| ==> fwd0[NIL][j] == Null
    ensures BuiltUpTo(fwd, list, 0)
  {
    assert fwd[Node1(list, |list| + 1)] == fwd0[Node1(list, |list| + 1)];
  }

  /** Round `k` has reached the position `pp`: positions before it have their level `k`. */
  ghost predicate RoundAt(fwd: seq<seq<int>>, list: seq<int>, k: nat, pp: int) {
    k >= 1 && Chain(list, |fwd|)
    && (forall P :: 0 <= P < pp && P <= |list| ==> fwd[Node1(list, P)] == Built(list, P, k))
    && (forall P :: pp <= P <= |list| && 0 <= P ==> fwd[Node1(list, P)] == Built(list, P, k - 1))
    && NIL < |fwd| && 1 <= |fwd[NIL]| && (forall j :: 0 <= j < |fwd[NIL]| ==> fwd[NIL][j] == Null)
  }

  lemma RoundOpen(fwd: seq<seq<int>>, list: seq<int>, k: nat)
    requires k >= 1 && BuiltUpTo(fwd, list, k - 1)
    ensures RoundAt(fwd, list, k, 0)
  {
  }

  /** During a round, level 0 still links every position to the next. */
  lemma RoundWalk(fwd: seq<seq<int>>, list: seq<int>, k: nat, pp: int, P: int)
    requires RoundAt(fwd, list, k, pp) && 0 <= P <= |list| + 1
    ensures 0 <= Node1(list, P) < |fwd| && |fwd[Node1(list, P)]| >= 1
    ensures P <= |list| ==> fwd[Node1(list, P)][0] == Node1(list, P + 1) && Node1(list, P + 1) != Null
    ensures P == |list| + 1 ==> fwd[Node1(list, P)][0] == Null
  {
    if P <= |list| {
      assert 0 <= Node1(list, P + 1);
      assert fwd[Node1(list, P)][0] == Built(list, P, if P < pp then k else k - 1)[0];
    }
  }

  /** `prev->forward.emplace_back(x)` with `x` the position `step` further on. */
  lemma RoundAppend(fwd: seq<seq<int>>, list: seq<int>, k: nat, pp: nat)
    requires RoundAt(fwd, list, k, pp) && Divides2(pp, k) && pp + Pow2(k) <= |list| + 1
    ensures var x := Node1(list, pp);
      0 <= x < |fwd| && x != NIL
      && RoundAt(fwd[x := fwd[x] + [Node1(list, pp + Pow2(k))]], list, k, pp + Pow2(k))
      && Divides2(pp + Pow2(k), k)
  {
    var x := Node1(list, pp);
    assert x != Node1(list, |list| + 1);
    Divides2Next(pp, k);
    AppendedDone(fwd, list, k, pp);
    AppendedRest(fwd, list, k, pp);
  }

  /** After the append, every position up to `pp + 2^k` has its round-`k` links. */
  lemma AppendedDone(fwd: seq<seq<int>>, list: seq<int>, k: nat, pp: nat)
    requires RoundAt(fwd, list, k, pp) && Divides2(pp, k) && pp + Pow2(k) <= |list| + 1
    ensures 0 <= Node1(list, pp) < |fwd|
    ensures var x := Node1(list, pp);
      var fwd' := fwd[x := fwd[x] + [Node1(list, pp + Pow2(k))]];
      forall P :: 0 <= P < pp + Pow2(k) && P <= |list| ==> fwd'[Node1(list, P)] == Built(list, P, k)
  {
    var x := Node1(list, pp);
    var fwd' := fwd[x := fwd[x] + [Node1(list, pp + Pow2(k))]];
    forall P | 0 <= P < pp + Pow2(k) && P <= |list| ensures fwd'[Node1(list, P)] == Built(list, P, k) {
      if P == pp {
        AppendedHere(fwd, list, k, pp);
      } else {
        AppendedOther(fwd, list, k, pp, P);
      }
    }
  }

  /** The appended node itself gets its round-`k` link. */
  lemma AppendedHere(fwd: seq<seq<int>>, list: seq<int>, k: nat, pp: nat)
    requires RoundAt(fwd, list, k, pp) && Divides2(pp, k) && pp + Pow2(k) <= |list| + 1
    ensures var x := Node1(list, pp); 0 <= x < |fwd| && fwd[x] + [Node1(list, pp + Pow2(k))] == Built(list, pp, k)
  {
    BuiltStep(list, pp, k);
  }

  /** Any other position below `pp + 2^k` already has its round-`k` links: those below
      `pp` from the round so far, those between because 2^k does not divide them. */
  lemma AppendedOther(fwd: seq<seq<int>>, list: seq<int>, k: nat, pp: nat, P: nat)
    requires RoundAt(fwd, list, k, pp) && Divides2(pp, k) && pp + Pow2(k) <= |list| + 1
    requires P < pp + Pow2(k) && P <= |list| && P != pp
    ensures 0 <= Node1(list, pp) < |fwd|
    ensures var x := Node1(list, pp);
      var fwd' := fwd[x := fwd[x] + [Node1(list, pp + Pow2(k))]];
      fwd'[Node1(list, P)] == Built(list, P, k)
  {
    assert Node1(list, P) != Node1(list, pp);
    if P > pp {
      Divides2Gap(pp, k, P);
      BuiltStep(list, P, k);
    }
  }

  /** After the append, the positions from `pp + 2^k` on still have the links of round `k - 1`. */
  lemma AppendedRest(fwd: seq<seq<int>>, list: seq<int>, k: nat, pp: nat)
    requires RoundAt(fwd, list, k, pp) && pp <= |list| + 1
    ensures 0 <= Node1(list, pp) < |fwd|
    ensures var x := Node1(list, pp);
      var fwd' := fwd[x := fwd[x] + [Node1(list, pp + Pow2(k))]];
      forall P :: pp + Pow2(k) <= P <= |list| ==> fwd'[Node1(list, P)] == Built(list, P, k - 1)
  {
    var x := Node1(list, pp);
    var fwd' := fwd[x := fwd[x] + [Node1(list, pp + Pow2(k))]];
    forall P | pp + Pow2(k) <= P <= |list| ensures fwd'[Node1(list, P)] == Built(list, P, k - 1) {
      assert Node1(list, P) != x;
    }
  }

  /** The state of the loop of round `k`: `prev` is at the position `pp`, a multiple of
      2^k, and `x` is still there unless the round is done. */
  ghost predicate RoundLoop(fwd: seq<seq<int>>, list: seq<int>, k: nat, pp: int, prev: int, x: int, done: bool) {
    RoundAt(fwd, list, k, pp) && 0 <= pp <= |list| + 1 && prev == Node1(list, pp) && Divides2(pp, k)
    && (!done ==> x == prev) && (done ==> pp + Pow2(k) > |list| + 1)
  }

  /** One pass of the loop of round `k` that found the position `step` further on. */
  lemma RoundLoopStep(fwd: seq<seq<int>>, list: seq<int>, k: nat, pp: int, prev: int, x: int)
    requires RoundLoop(fwd, list, k, pp, prev, prev, false)
    requires pp + Pow2(k) <= |list| + 1 && x == Node1(list, pp + Pow2(k))
    ensures 0 <= prev < |fwd|
    ensures RoundLoop(fwd[prev := fwd[prev] + [x]], list, k, pp + Pow2(k), x, x, false)
  {
    RoundAppend(fwd, list, k, pp);
  }

  /** `prev->forward.emplace_back(nullptr)` once no position `step` further on exists. */
  lemma RoundClose(fwd: seq<seq<int>>, list: seq<int>, k: nat, pp: nat)
    requires RoundAt(fwd, list, k, pp) && Divides2(pp, k) && pp <= |list| + 1 < pp + Pow2(k)
    ensures var x := Node1(list, pp);
      0 <= x < |fwd| && BuiltUpTo(fwd[x := fwd[x] + [Null]], list, k)
  {
    var x := Node1(list, pp);
    var fwd' := fwd[x := fwd[x] + [Null]];
    forall P | 0 <= P <= |list| ensures fwd'[Node1(list, P)] == Built(list, P, k) {
      if P == pp {
        BuiltStep(list, pp, k);
      } else {
        assert Node1(list, P) != x;
        if P > pp {
          Divides2Gap(pp, k, P);
          BuiltStep(list, P, k);
        }
      }
    }
    if pp <= |list| {
      assert x != Node1(list, |list| + 1);
    }
  }
}
