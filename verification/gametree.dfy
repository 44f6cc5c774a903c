/** Depth-limited minimax with alpha-beta pruning over a game tree given by
    its successor function `next` and its leaf evaluation `eval`, next to
    the unpruned search it agrees with, and the root loop that picks a move
    from the searched values. */
module GameTree {
  import opened Wrappers
  import opened Text

  function Max(a: int, b: int): int {
    if a >= b then a else b
  }

  function Min(a: int, b: int): int {
    if a <= b then a else b
  }

  /** `Minimax(node, alpha, beta, isMaximizingPlayer, depth)`: depth 0 is a
      leaf; otherwise the children are searched in order, one ply shallower
      and with the other role, until the window closes. A node without
      children keeps its initial `int.MinValue` or `int.MaxValue`. */
  function Minimax<N>(next: N -> seq<N>, eval: N -> Int32, n: N, alpha: int, beta: int, maximizing: bool, depth: nat): (r: int)
    ensures IsInt32(r)
    ensures depth == 0 ==> r == eval(n)
    ensures depth > 0 && next(n) == [] ==> r == if maximizing then IntMin else IntMax
    decreases depth, 1, 0
  {
    if depth == 0 then eval(n)
    else if maximizing then MaxLoop(next, eval, n, 0, alpha, beta, IntMin, depth)
    else MinLoop(next, eval, n, 0, alpha, beta, IntMax, depth)
  }

  /** The maximising loop from child `i` on, with the running `maxEval`:
      each child raises alpha, and the loop stops once `beta <= alpha`. */
  function MaxLoop<N>(next: N -> seq<N>, eval: N -> Int32, n: N, i: nat, alpha: int, beta: int, maxEval: int, depth: nat): (r: int)
    requires depth > 0 && i <= |next(n)| && IsInt32(maxEval)
    ensures IsInt32(r) && r >= maxEval
    decreases depth, 0, |next(n)| - i
  {
    if i == |next(n)| then maxEval
    else
      var value := Minimax(next, eval, next(n)[i], alpha, beta, false, depth - 1);
      var alpha' := Max(alpha, value);
      if beta <= alpha' then Max(maxEval, value)
      else MaxLoop(next, eval, n, i + 1, alpha', beta, Max(maxEval, value), depth)
  }

  /** The minimising loop from child `i` on, with the running `minEval`:
      each child lowers beta, and the loop stops once `beta <= alpha`. */
  function MinLoop<N>(next: N -> seq<N>, eval: N -> Int32, n: N, i: nat, alpha: int, beta: int, minEval: int, depth: nat): (r: int)
    requires depth > 0 && i <= |next(n)| && IsInt32(minEval)
    ensures IsInt32(r) && r <= minEval
    decreases depth, 0, |next(n)| - i
  {
    if i == |next(n)| then minEval
    else
      var value := Minimax(next, eval, next(n)[i], alpha, beta, true, depth - 1);
      var beta' := Min(beta, value);
      if beta' <= alpha then Min(minEval, value)
      else MinLoop(next, eval, n, i + 1, alpha, beta', Min(minEval, value), depth)
  }

  /** The unpruned reference: the plain minimax value of the same tree. */
  function MinimaxValue<N>(next: N -> seq<N>, eval: N -> Int32, n: N, maximizing: bool, depth: nat): (v: int)
    ensures IsInt32(v)
    ensures depth == 0 ==> v == eval(n)
    ensures depth > 0 && next(n) == [] ==> v == if maximizing then IntMin else IntMax
    decreases depth, 1, 0
  {
    if depth == 0 then eval(n)
    else if maximizing then MaxOver(next, eval, n, 0, depth)
    else MinOver(next, eval, n, 0, depth)
  }

  /** The greatest unpruned child value from child `i` on; `int.MinValue`
      if there is none. */
  function MaxOver<N>(next: N -> seq<N>, eval: N -> Int32, n: N, i: nat, depth: nat): (v: int)
    requires depth > 0 && i <= |next(n)|
    ensures IsInt32(v)
    decreases depth, 0, |next(n)| - i
  {
    if i == |next(n)| then IntMin
    else Max(MinimaxValue(next, eval, next(n)[i], false, depth - 1), MaxOver(next, eval, n, i + 1, depth))
  }

  /** The least unpruned child value from child `i` on; `int.MaxValue` if
      there is none. */
  function MinOver<N>(next: N -> seq<N>, eval: N -> Int32, n: N, i: nat, depth: nat): (v: int)
    requires depth > 0 && i <= |next(n)|
    ensures IsInt32(v)
    decreases depth, 0, |next(n)| - i
  {
    if i == |next(n)| then IntMax
    else Min(MinimaxValue(next, eval, next(n)[i], true, depth - 1), MinOver(next, eval, n, i + 1, depth))
  }

  /** The reference value of a node with children is the best of its
      children's values for the side to move. */
  lemma {:induction false} OverBounds<N>(next: N -> seq<N>, eval: N -> Int32, n: N, i: nat, depth: nat)
    requires depth > 0 && i <= |next(n)|
    ensures forall k :: i <= k < |next(n)| ==> MinimaxValue(next, eval, next(n)[k], false, depth - 1) <= MaxOver(next, eval, n, i, depth)
    ensures forall k :: i <= k < |next(n)| ==> MinOver(next, eval, n, i, depth) <= MinimaxValue(next, eval, next(n)[k], true, depth - 1)
    ensures i < |next(n)| ==> exists k :: i <= k < |next(n)| && MaxOver(next, eval, n, i, depth) == MinimaxValue(next, eval, next(n)[k], false, depth - 1)
    ensures i < |next(n)| ==> exists k :: i <= k < |next(n)| && MinOver(next, eval, n, i, depth) == MinimaxValue(next, eval, next(n)[k], true, depth - 1)
    decreases |next(n)| - i
  {
    if i < |next(n)| {
      OverBounds(next, eval, n, i + 1, depth);
      if i + 1 == |next(n)| {
        assert MaxOver(next, eval, n, i, depth) == MinimaxValue(next, eval, next(n)[i], false, depth - 1);
        assert MinOver(next, eval, n, i, depth) == MinimaxValue(next, eval, next(n)[i], true, depth - 1);
      }
    }
  }

  /** `r` is what a search with window (alpha, beta) may answer when the
      unpruned value is `v`: the value itself strictly inside the window,
      otherwise a bound on the same side of it. */
  predicate Agrees(v: int, r: int, alpha: int, beta: int) {
    && (v <= alpha ==> r <= alpha)
    && (v >= beta ==> r >= beta)
    && (alpha < v < beta ==> r == v)
  }

  /** Alpha-beta pruning is sound: for every window inside the 32-bit range
      the pruned search agrees with the unpruned value. */
  lemma {:induction false} AlphaBeta<N>(next: N -> seq<N>, eval: N -> Int32, n: N, alpha: int, beta: int, maximizing: bool, depth: nat)
    requires IntMin <= alpha < beta <= IntMax
    ensures Agrees(MinimaxValue(next, eval, n, maximizing, depth), Minimax(next, eval, n, alpha, beta, maximizing, depth), alpha, beta)
    decreases depth, 1, 0
  {
    if depth > 0 {
      if maximizing {
        MaxLoopAgrees(next, eval, n, 0, alpha, beta, IntMin, depth);
      } else {
        MinLoopAgrees(next, eval, n, 0, alpha, beta, IntMax, depth);
      }
    }
  }

  /** With the full window (`int.MinValue`, `int.MaxValue`) the pruned
      search returns exactly the unpruned value. */
  lemma FullWindowExact<N>(next: N -> seq<N>, eval: N -> Int32, n: N, maximizing: bool, depth: nat)
    ensures Minimax(next, eval, n, IntMin, IntMax, maximizing, depth) == MinimaxValue(next, eval, n, maximizing, depth)
  {
    AlphaBeta(next, eval, n, IntMin, IntMax, maximizing, depth);
  }

  lemma {:induction false} MaxLoopAgrees<N>(next: N -> seq<N>, eval: N -> Int32, n: N, i: nat, alpha: int, beta: int, acc: int, depth: nat)
    requires depth > 0 && i <= |next(n)|
    requires IntMin <= acc <= alpha < beta <= IntMax
    ensures Agrees(Max(acc, MaxOver(next, eval, n, i, depth)), MaxLoop(next, eval, n, i, alpha, beta, acc, depth), alpha, beta)
    decreases depth, 0, |next(n)| - i
  {
    if i < |next(n)| {
      var child := next(n)[i];
      AlphaBeta(next, eval, child, alpha, beta, false, depth - 1);
      var v := MinimaxValue(next, eval, child, false, depth - 1);
      var e := Minimax(next, eval, child, alpha, beta, false, depth - 1);
      var rest := MaxOver(next, eval, n, i + 1, depth);
      var r := MaxLoop(next, eval, n, i, alpha, beta, acc, depth);
      if Max(alpha, e) < beta {
        MaxLoopAgrees(next, eval, n, i + 1, Max(alpha, e), beta, Max(acc, e), depth);
      }
      MaxStep(acc, alpha, beta, v, e, rest, r);
    }
  }

  /** One step of the maximising loop, as arithmetic on the values
      involved: `v` the child's unpruned value, `e` its pruned value,
      `rest` the unpruned value of the later children, `r` the result. */
  lemma MaxStep(acc: int, alpha: int, beta: int, v: int, e: int, rest: int, r: int)
    requires acc <= alpha < beta
    requires Agrees(v, e, alpha, beta)
    requires beta <= Max(alpha, e) ==> r == Max(acc, e)
    requires Max(alpha, e) < beta ==> r >= Max(acc, e) && Agrees(Max(Max(acc, e), rest), r, Max(alpha, e), beta)
    ensures Agrees(Max(acc, Max(v, rest)), r, alpha, beta)
  {
  }

  lemma {:induction false} MinLoopAgrees<N>(next: N -> seq<N>, eval: N -> Int32, n: N, i: nat, alpha: int, beta: int, acc: int, depth: nat)
    requires depth > 0 && i <= |next(n)|
    requires IntMin <= alpha < beta <= acc <= IntMax
    ensures Agrees(Min(acc, MinOver(next, eval, n, i, depth)), MinLoop(next, eval, n, i, alpha, beta, acc, depth), alpha, beta)
    decreases depth, 0, |next(n)| - i
  {
    if i < |next(n)| {
      var child := next(n)[i];
      AlphaBeta(next, eval, child, alpha, beta, true, depth - 1);
      var v := MinimaxValue(next, eval, child, true, depth - 1);
      var e := Minimax(next, eval, child, alpha, beta, true, depth - 1);
      var rest := MinOver(next, eval, n, i + 1, depth);
      var r := MinLoop(next, eval, n, i, alpha, beta, acc, depth);
      if alpha < Min(beta, e) {
        MinLoopAgrees(next, eval, n, i + 1, alpha, Min(beta, e), Min(acc, e), depth);
      }
      MinStep(acc, alpha, beta, v, e, rest, r);
    }
  }

  /** One step of the minimising loop, dual to `MaxStep`. */
  lemma MinStep(acc: int, alpha: int, beta: int, v: int, e: int, rest: int, r: int)
    requires alpha < beta <= acc
    requires Agrees(v, e, alpha, beta)
    requires Min(beta, e) <= alpha ==> r == Min(acc, e)
    requires alpha < Min(beta, e) ==> r <= Min(acc, e) && Agrees(Min(Min(acc, e), rest), r, alpha, Min(beta, e))
    ensures Agrees(Min(acc, Min(v, rest)), r, alpha, beta)
  {
  }

  /** `k` is the first index holding the greatest value, and that value
      exceeds `floor`. */
  predicate FirstPeakAt(vals: seq<int>, floor: int, k: nat) {
    && k < |vals|
    && vals[k] > floor
    && (forall j :: 0 <= j < |vals| ==> vals[j] <= vals[k])
    && (forall j :: 0 <= j < k ==> vals[j] < vals[k])
  }

  /** The first index of greatest value above `floor`, if any value is
      above it. */
  function {:induction false} FirstPeak(vals: seq<int>, floor: int): (r: Option<nat>)
    ensures r.None? <==> forall j :: 0 <= j < |vals| ==> vals[j] <= floor
    ensures r.Some? ==> FirstPeakAt(vals, floor, r.value)
  {
    if |vals| == 0 then None
    else if vals[0] > floor then
      match FirstPeak(vals[1..], vals[0])
      case None => Some(0)
      case Some(k) => Some(k + 1)
    else
      match FirstPeak(vals[1..], floor)
      case None => None
      case Some(k) => Some(k + 1)
  }

  /** The unpruned values of the root's candidate positions, each searched
      for the minimising side. */
  function RootValues<N>(next: N -> seq<N>, eval: N -> Int32, kids: seq<N>, depth: nat): (r: seq<int>)
    ensures |r| == |kids|
  {
    seq(|kids|, k requires 0 <= k < |kids| => MinimaxValue(next, eval, kids[k], false, depth))
  }

  /** The root loop from candidate `i` on: each candidate is searched for
      the minimising side against the window (alpha, `int.MaxValue`); one
      whose value beats alpha becomes the choice and raises alpha. */
  function RootScan<N>(next: N -> seq<N>, eval: N -> Int32, kids: seq<N>, i: nat, alpha: int, best: Option<nat>, depth: nat): (r: Option<nat>)
    requires i <= |kids| && IsInt32(alpha)
    ensures r == best || (r.Some? && i <= r.value < |kids|)
    decreases |kids| - i
  {
    if i == |kids| then best
    else
      var value := Minimax(next, eval, kids[i], alpha, IntMax, false, depth);
      if value > alpha then RootScan(next, eval, kids, i + 1, value, Some(i), depth)
      else RootScan(next, eval, kids, i + 1, alpha, best, depth)
  }

  /** At the root the pruned value beats alpha exactly when the unpruned
      one does, and then the two coincide. */
  lemma RootSearchAgrees<N>(next: N -> seq<N>, eval: N -> Int32, kid: N, alpha: int, depth: nat)
    requires IsInt32(alpha)
    ensures var value := Minimax(next, eval, kid, alpha, IntMax, false, depth);
      var v := MinimaxValue(next, eval, kid, false, depth);
      (value > alpha <==> v > alpha) && (v > alpha ==> value == v)
  {
    if alpha < IntMax {
      AlphaBeta(next, eval, kid, alpha, IntMax, false, depth);
    }
  }

  /** The index the root should choose from candidate `i` on: the first
      peak above `floor` of the remaining values, or `best` if there is
      none. */
  function PeakFrom(vals: seq<int>, i: nat, floor: int, best: Option<nat>): Option<nat>
    requires i <= |vals|
  {
    match FirstPeak(vals[i..], floor)
    case None => best
    case Some(k) => Some(i + k)
  }

  /** `PeakFrom`, one candidate at a time: a value above the floor becomes
      the provisional choice and the new floor. */
  lemma PeakFromStep(vals: seq<int>, i: nat, floor: int, best: Option<nat>)
    requires i < |vals|
    ensures PeakFrom(vals, i, floor, best) ==
      if vals[i] > floor then PeakFrom(vals, i + 1, vals[i], Some(i))
      else PeakFrom(vals, i + 1, floor, best)
  {
    assert vals[i..][1..] == vals[i + 1..];
  }

  /** Pruning does not change the root's choice: the scan settles on the
      first candidate of greatest unpruned value above alpha, and keeps
      `best` when no value beats alpha. */
  lemma {:induction false} RootScanFindsPeak<N>(next: N -> seq<N>, eval: N -> Int32, kids: seq<N>, i: nat, alpha: int, best: Option<nat>, depth: nat)
    requires i <= |kids| && IsInt32(alpha)
    ensures RootScan(next, eval, kids, i, alpha, best, depth) == PeakFrom(RootValues(next, eval, kids, depth), i, alpha, best)
    decreases |kids| - i
  {
    var vals := RootValues(next, eval, kids, depth);
    if i < |kids| {
      RootSearchAgrees(next, eval, kids[i], alpha, depth);
      PeakFromStep(vals, i, alpha, best);
      var value := Minimax(next, eval, kids[i], alpha, IntMax, false, depth);
      if value > alpha {
        RootScanFindsPeak(next, eval, kids, i + 1, value, Some(i), depth);
      } else {
        RootScanFindsPeak(next, eval, kids, i + 1, alpha, best, depth);
      }
    }
  }

  /** `r` is what a root loop started at candidate `start` with seed
      `seed` should choose: the seed when every value from `start` on is
      `int.MinValue`, and otherwise the first candidate of greatest value
      from `start` on. */
  predicate ChoosesFirstPeak(vals: seq<int>, start: nat, seed: Option<nat>, r: Option<nat>)
    requires start <= |vals|
  {
    var rest := vals[start..];
    && ((forall k :: 0 <= k < |rest| ==> rest[k] == IntMin) ==> r == seed)
    && (!(forall k :: 0 <= k < |rest| ==> rest[k] == IntMin) ==>
          r.Some? && start <= r.value && FirstPeakAt(rest, IntMin, r.value - start))
  }

  /** A scan started at candidate `s` with alpha at `int.MinValue` makes
      the first-peak choice among the unpruned values. */
  lemma RootScanFrom<N>(next: N -> seq<N>, eval: N -> Int32, kids: seq<N>, s: nat, best: Option<nat>, depth: nat)
    requires s <= |kids|
    ensures ChoosesFirstPeak(RootValues(next, eval, kids, depth), s, best, RootScan(next, eval, kids, s, IntMin, best, depth))
  {
    RootScanFindsPeak(next, eval, kids, s, IntMin, best, depth);
  }

  /** The candidate at a chosen index, if any. */
  function Pick<M>(moves: seq<M>, k: Option<nat>): (r: Option<M>)
    ensures r.Some? <==> k.Some? && k.value < |moves|
  {
    if k.Some? && k.value < |moves| then Some(moves[k.value]) else None
  }

  /** `r` is what a root loop over `moves` started at `start` with `seed`
      should answer: the seed when every value from `start` on is
      `int.MinValue`, and otherwise the first move of greatest value from
      `start` on. */
  predicate PicksFirstPeak<M(==)>(moves: seq<M>, vals: seq<int>, start: nat, seed: Option<M>, r: Option<M>)
    requires start <= |vals|
  {
    var rest := vals[start..];
    && ((forall k :: 0 <= k < |rest| ==> rest[k] == IntMin) ==> r == seed)
    && (!(forall k :: 0 <= k < |rest| ==> rest[k] == IntMin) ==>
          exists k :: start <= k < |moves| && FirstPeakAt(rest, IntMin, k - start) && r == Some(moves[k]))
  }

  /** The move a root loop over candidate positions `kids`, one per move
      of `moves`, settles on when started at `start` with alpha at
      `int.MinValue` and `seed` as the initial choice. */
  function BestMove<N, M>(next: N -> seq<N>, eval: N -> Int32, kids: seq<N>, moves: seq<M>, start: nat, seed: Option<nat>, depth: nat): Option<M>
    requires |kids| == |moves| && start <= |kids|
  {
    Pick(moves, RootScan(next, eval, kids, start, IntMin, seed, depth))
  }

  /** The root loop picks the first move of greatest unpruned value. */
  lemma RootScanPicks<N, M>(next: N -> seq<N>, eval: N -> Int32, kids: seq<N>, moves: seq<M>, start: nat, seed: Option<nat>, depth: nat)
    requires |kids| == |moves| && start <= |kids|
    ensures PicksFirstPeak(moves, RootValues(next, eval, kids, depth), start, Pick(moves, seed),
      BestMove(next, eval, kids, moves, start, seed, depth))
  {
    RootScanFrom(next, eval, kids, start, seed, depth);
    var r := RootScan(next, eval, kids, start, IntMin, seed, depth);
    if r.Some? && r != seed {
      assert start <= r.value < |moves|;
    }
  }

  /** `k` is the first index from `start` on whose value no value from
      `start` on exceeds. */
  predicate FirstBestFrom(vals: seq<int>, start: nat, k: nat) {
    && start <= k < |vals|
    && (forall j :: start <= j < |vals| ==> vals[j] <= vals[k])
    && (forall j :: start <= j < k ==> vals[j] < vals[k])
  }

  /** `k` is what a root loop seeded with the first candidate and started
      at `start` should choose: the seed when every value from `start` on
      is `int.MinValue`, and otherwise the first best from `start` on. */
  predicate SeededChoice(vals: seq<int>, start: nat, k: nat) {
    && k < |vals|
    && ((forall j :: start <= j < |vals| ==> vals[j] == IntMin) ==> k == 0)
    && (!(forall j :: start <= j < |vals| ==> vals[j] == IntMin) ==> FirstBestFrom(vals, start, k))
  }

  /** A root loop seeded with the first candidate always answers a
      candidate, and the one `SeededChoice` describes. */
  lemma SeededScan<N>(next: N -> seq<N>, eval: N -> Int32, kids: seq<N>, start: nat, depth: nat)
    requires 0 < |kids| && start <= |kids|
    ensures RootScan(next, eval, kids, start, IntMin, Some(0), depth).Some?
    ensures SeededChoice(RootValues(next, eval, kids, depth), start, RootScan(next, eval, kids, start, IntMin, Some(0), depth).value)
  {
    var vals := RootValues(next, eval, kids, depth);
    RootScanFrom(next, eval, kids, start, Some(0), depth);
    var rest := vals[start..];
    assert forall j :: start <= j < |vals| ==> vals[j] == rest[j - start];
  }

  /** Seeded with the first candidate and started at it, the loop chooses
      the first candidate of greatest value outright. */
  lemma SeededFullScan(vals: seq<int>, k: nat)
    requires SeededChoice(vals, 0, k)
    ensures FirstBestFrom(vals, 0, k)
  {
  }

  /** A root loop started at the second candidate never weighs the first:
      of two leaves worth 10 and 5 it chooses the one worth 5, while the
      loop started at the first candidate chooses the one worth 10. */
  lemma SecondStartSkipsFirst()
    ensures RootValues((n: Int32) => [], (n: Int32) => n, [10, 5], 0) == [10, 5]
    ensures RootScan((n: Int32) => [], (n: Int32) => n, [10, 5], 1, IntMin, Some(0), 0) == Some(1)
    ensures RootScan((n: Int32) => [], (n: Int32) => n, [10, 5], 0, IntMin, Some(0), 0) == Some(0)
  {
    var next, eval, kids := (n: Int32) => [], (n: Int32) => n, [10, 5];
    assert Minimax(next, eval, kids[0], IntMin, IntMax, false, 0) == 10;
    assert Minimax(next, eval, kids[1], IntMin, IntMax, false, 0) == 5;
    assert Minimax(next, eval, kids[1], 10, IntMax, false, 0) == 5;
    assert RootScan(next, eval, kids, 2, 5, Some(1), 0) == Some(1);
    assert RootScan(next, eval, kids, 2, 10, Some(0), 0) == Some(0);
  }
}
