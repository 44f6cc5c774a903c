/** `Board.EvaluatePosition`: the static score of a position for one player. */
module Evaluation {
  import opened Wrappers
  import opened Tokens
  import opened Boards

  /** `positionWeights`, indexed like the grid: first by i, then by j. */
  const PositionWeights: seq<seq<int>> := [
    [1, 2, 2, 2, 1],
    [2, 2, 2, 2, 2],
    [2, 2, 2, 2, 2],
    [2, 2, 2, 2, 2],
    [1, 2, 2, 2, 1]
  ]

  predicate IsCorner(c: Pos) {
    (c.0 == 0 || c.0 == Size - 1) && (c.1 == 0 || c.1 == Size - 1)
  }

  /** The weight table gives 1 on the four corners and 2 everywhere else. */
  function PositionWeight(c: Pos): (w: int)
    requires IsPositionValid(c.0, c.1)
    ensures w == if IsCorner(c) then 1 else 2
  {
    assert |PositionWeights| == 5 && forall i :: 0 <= i < 5 ==> |PositionWeights[i]| == 5;
    PositionWeights[c.0][c.1]
  }

  /** `tokenScores`: the importance of each token kind, by name. */
  const TokenScores: seq<(string, int)> := [
    ("Fire Token Variant", 3),
    ("Ice Token Variant", 3),
    ("Water Token Variant", 1),
    ("Earth Token Variant", 1),
    ("Land Storm Token Variant", 3),
    ("Electricity Token Variant", 2),
    ("Wind Token Variant", 2),
    ("Plant Token Variant", 4),
    ("Sea Storm Token Variant", 3),
    ("Poison Token Variant", 4),
    ("Light Token Variant", 5),
    ("Dark Token Variant", 5)
  ]

  lemma TokenScoresDistinct()
    ensures forall i, j :: 0 <= i < j < |TokenScores| ==> TokenScores[i].0 != TokenScores[j].0
  {
  }

  /** The score of `name` among the first `n` table entries, 0 if absent. */
  function ScoreWithin(name: string, n: nat): (s: int)
    requires n <= |TokenScores|
    ensures 0 <= s <= 5
  {
    if n == 0 then 0
    else if TokenScores[n - 1].0 == name then TokenScores[n - 1].1
    else ScoreWithin(name, n - 1)
  }

  /** `tokenScores.GetValueOrDefault(name, 0)`. */
  function Importance(name: string): int {
    ScoreWithin(name, |TokenScores|)
  }

  /** The sum of the first `n` table scores. */
  function ScoresTotal(n: nat): int
    requires n <= |TokenScores|
  {
    if n == 0 then 0 else ScoresTotal(n - 1) + TokenScores[n - 1].1
  }

  lemma ScoresTotalIs36()
    ensures ScoresTotal(|TokenScores|) == 36
  {
    assert ScoresTotal(4) == 8;
    assert ScoresTotal(8) == 19;
    assert ScoresTotal(12) == 36;
  }

  /** The sum of the first `n` table scores whose names are indexed. */
  function IndexedScoresWithin(names: set<string>, n: nat): (s: int)
    requires n <= |TokenScores|
    ensures 0 <= s <= ScoresTotal(n)
  {
    if n == 0 then 0
    else IndexedScoresWithin(names, n - 1) + (if TokenScores[n - 1].0 in names then TokenScores[n - 1].1 else 0)
  }

  /** `tokensByName.Values.Sum(t => tokenScores.GetValueOrDefault(t.Name, 0))`,
      summed over the table rather than over the index: the two agree on an
      index that files every token under its own name (`IndexImportanceIsSum`). */
  function IndexImportance(b: Board): (s: int)
    ensures 0 <= s <= 36
  {
    ScoresTotalIs36();
    IndexedScoresWithin(b.byName.Keys, |TokenScores|)
  }

  /** The sum over the index values, one value at a time. */
  ghost function SumOverIndex(m: map<string, Token>): int
    decreases |m|
  {
    if |m| == 0 then 0
    else
      var k :| k in m;
      Importance(m[k].name) + SumOverIndex(m - {k})
  }

  lemma {:induction false} IndexedScoresWithout(names: set<string>, k: string, n: nat)
    requires n <= |TokenScores| && k in names
    ensures IndexedScoresWithin(names, n) == IndexedScoresWithin(names - {k}, n) + ScoreWithin(k, n)
  {
    if n > 0 {
      IndexedScoresWithout(names, k, n - 1);
      if TokenScores[n - 1].0 == k {
        TokenScoresDistinct();
        NotListedScoresZero(k, n - 1);
      }
    }
  }

  lemma {:induction false} NotListedScoresZero(k: string, n: nat)
    requires n <= |TokenScores|
    requires forall i :: 0 <= i < n ==> TokenScores[i].0 != k
    ensures ScoreWithin(k, n) == 0
  {
    if n > 0 {
      NotListedScoresZero(k, n - 1);
    }
  }

  /** Summing over the table equals summing over the index values. */
  lemma IndexImportanceIsSum(b: Board)
    requires IndexKeyed(b)
    ensures IndexImportance(b) == SumOverIndex(b.byName)
  {
    TableSumIsIndexSum(b.byName);
  }

  lemma {:induction false} TableSumIsIndexSum(m: map<string, Token>)
    requires forall n :: n in m ==> m[n].name == n
    ensures IndexedScoresWithin(m.Keys, |TokenScores|) == SumOverIndex(m)
    decreases |m|
  {
    if |m| == 0 {
      assert m.Keys == {};
      EmptyNamesScoreZero(|TokenScores|);
    } else {
      var k :| k in m && SumOverIndex(m) == Importance(m[k].name) + SumOverIndex(m - {k});
      var rest := m - {k};
      assert m[k].name == k;
      assert rest.Keys == m.Keys - {k};
      TableSumIsIndexSum(rest);
      assert SumOverIndex(rest) == IndexedScoresWithin(m.Keys - {k}, |TokenScores|);
      IndexedScoresWithout(m.Keys, k, |TokenScores|);
      assert Importance(m[k].name) == ScoreWithin(k, |TokenScores|);
    }
  }

  lemma {:induction false} EmptyNamesScoreZero(n: nat)
    requires n <= |TokenScores|
    ensures IndexedScoresWithin({}, n) == 0
  {
    if n > 0 {
      EmptyNamesScoreZero(n - 1);
    }
  }

  /** The three accumulators of the evaluation loop. */
  datatype Tally = Tally(own: nat, others: nat, positional: int)

  /** The accumulators after the first `n` cells of the scan: tokens of
      `p`, other tokens, and own minus other position weights. */
  function TallyCells(b: Board, p: Option<string>, n: nat): (t: Tally)
    requires n <= CellCount
    ensures t.own + t.others <= n
    ensures t.own - 2 * t.others <= t.positional <= 2 * t.own - t.others
  {
    if n == 0 then Tally(0, 0, 0)
    else
      var t := TallyCells(b, p, n - 1);
      var c := CellAt(n - 1);
      if c !in b.tiles then t
      else if Owns(b.tiles[c], p) then Tally(t.own + 1, t.others, t.positional + PositionWeight(c))
      else Tally(t.own, t.others + 1, t.positional - PositionWeight(c))
  }

  /** `EvaluatePosition(player)`. The result fits in a C# `int`, and a
      board with an empty grid scores only the importance of its index. */
  function Evaluate(b: Board, p: Option<string>): (r: int)
    ensures -300 <= r <= 336
    ensures b.tiles == map[] ==> r == IndexImportance(b)
  {
    var t := TallyCells(b, p, CellCount);
    assert b.tiles == map[] ==> TallyCells(b, p, CellCount) == Tally(0, 0, 0) by {
      if b.tiles == map[] {
        EmptyGridTally(b, p, CellCount);
      }
    }
    t.own * 10 + t.positional + IndexImportance(b) - t.others * 10
  }

  lemma {:induction false} EmptyGridTally(b: Board, p: Option<string>, n: nat)
    requires n <= CellCount && b.tiles == map[]
    ensures TallyCells(b, p, n) == Tally(0, 0, 0)
  {
    if n > 0 {
      EmptyGridTally(b, p, n - 1);
    }
  }

  /** Scan indices below `n` whose cell holds a token of `p`. */
  function OwnedCells(b: Board, p: Option<string>, n: nat): set<nat>
    requires n <= CellCount
  {
    set i: nat | i < n && CellAt(i) in b.tiles && Owns(b.tiles[CellAt(i)], p)
  }

  /** Scan indices below `n` whose cell holds a token not of `p`. */
  function OtherCells(b: Board, p: Option<string>, n: nat): set<nat>
    requires n <= CellCount
  {
    set i: nat | i < n && CellAt(i) in b.tiles && !Owns(b.tiles[CellAt(i)], p)
  }

  /** The scan's two counters are the numbers of scanned cells holding a
      token of `p` and holding any other token. */
  lemma {:induction false} TallyCellsCounts(b: Board, p: Option<string>, n: nat)
    requires n <= CellCount
    ensures TallyCells(b, p, n).own == |OwnedCells(b, p, n)|
    ensures TallyCells(b, p, n).others == |OtherCells(b, p, n)|
  {
    if n > 0 {
      TallyCellsCounts(b, p, n - 1);
      CountsStep(b, p, n);
    }
  }

  /** The counting property carries over one more scanned cell. */
  lemma CountsStep(b: Board, p: Option<string>, n: nat)
    requires 0 < n <= CellCount
    ensures TallyCells(b, p, n - 1).own == |OwnedCells(b, p, n - 1)| ==>
      TallyCells(b, p, n).own == |OwnedCells(b, p, n)|
    ensures TallyCells(b, p, n - 1).others == |OtherCells(b, p, n - 1)| ==>
      TallyCells(b, p, n).others == |OtherCells(b, p, n)|
  {
    OwnedCellsStep(b, p, n);
    OtherCellsStep(b, p, n);
  }

  /** Scanning one more cell adds its index to the owned cells exactly when
      it holds a token of `p`. */
  lemma OwnedCellsStep(b: Board, p: Option<string>, n: nat)
    requires 0 < n <= CellCount
    ensures var c := CellAt(n - 1);
      |OwnedCells(b, p, n)| == |OwnedCells(b, p, n - 1)| + (if c in b.tiles && Owns(b.tiles[c], p) then 1 else 0)
  {
    var c := CellAt(n - 1);
    var k: nat := n - 1;
    var prev := OwnedCells(b, p, k);
    assert k !in prev;
    if c in b.tiles && Owns(b.tiles[c], p) {
      assert OwnedCells(b, p, n) == prev + {k};
    } else {
      assert OwnedCells(b, p, n) == prev;
    }
  }

  /** Scanning one more cell adds its index to the other cells exactly when
      it holds a token not of `p`. */
  lemma OtherCellsStep(b: Board, p: Option<string>, n: nat)
    requires 0 < n <= CellCount
    ensures var c := CellAt(n - 1);
      |OtherCells(b, p, n)| == |OtherCells(b, p, n - 1)| + (if c in b.tiles && !Owns(b.tiles[c], p) then 1 else 0)
  {
    var c := CellAt(n - 1);
    var k: nat := n - 1;
    var prev := OtherCells(b, p, k);
    assert k !in prev;
    if c in b.tiles && !Owns(b.tiles[c], p) {
      assert OtherCells(b, p, n) == prev + {k};
    } else {
      assert OtherCells(b, p, n) == prev;
    }
  }

  /** The empty board scores 0. */
  lemma EmptyBoardScoresZero(p: Option<string>)
    ensures Evaluate(EmptyBoard, p) == 0
  {
    assert EmptyBoard.byName.Keys == {};
    EmptyNamesScoreZero(|TokenScores|);
  }

  /** Every token is owned by `p1` or by `p2`, and not by both. */
  ghost predicate TwoSided(b: Board, p1: string, p2: string) {
    p1 != p2 && forall c :: c in b.tiles ==> b.tiles[c].player == p1 || b.tiles[c].player == p2
  }

  /** The accumulators seen from the other side: own and other tokens
      swap, and the positional balance changes sign. */
  function Mirror(t: Tally): Tally {
    Tally(t.others, t.own, -t.positional)
  }

  /** On a two-sided board each side's tally is the other's mirrored. */
  lemma {:induction false} TallyCellsMirror(b: Board, p1: string, p2: string, n: nat)
    requires n <= CellCount && TwoSided(b, p1, p2)
    ensures TallyCells(b, Some(p2), n) == Mirror(TallyCells(b, Some(p1), n))
  {
    if n > 0 {
      TallyCellsMirror(b, p1, p2, n - 1);
      MirrorStep(b, p1, p2, n);
    }
  }

  /** Scanning one more cell keeps the two tallies mirrored. */
  lemma MirrorStep(b: Board, p1: string, p2: string, n: nat)
    requires 0 < n <= CellCount && TwoSided(b, p1, p2)
    ensures TallyCells(b, Some(p2), n - 1) == Mirror(TallyCells(b, Some(p1), n - 1)) ==>
      TallyCells(b, Some(p2), n) == Mirror(TallyCells(b, Some(p1), n))
  {
    var u1, u2 := TallyCells(b, Some(p1), n), TallyCells(b, Some(p2), n);
    var t1, t2 := TallyCells(b, Some(p1), n - 1), TallyCells(b, Some(p2), n - 1);
    var c := CellAt(n - 1);
    if c !in b.tiles {
      assert u1 == t1 && u2 == t2;
    } else if b.tiles[c].player == p1 {
      assert Owns(b.tiles[c], Some(p1)) && !Owns(b.tiles[c], Some(p2));
      var w := PositionWeight(c);
      assert u1 == Tally(t1.own + 1, t1.others, t1.positional + w);
      assert u2 == Tally(t2.own, t2.others + 1, t2.positional - w);
    } else {
      assert !Owns(b.tiles[c], Some(p1)) && Owns(b.tiles[c], Some(p2));
      var w := PositionWeight(c);
      assert u1 == Tally(t1.own, t1.others + 1, t1.positional - w);
      assert u2 == Tally(t2.own + 1, t2.others, t2.positional + w);
    }
  }

  /** Apart from the owner-blind importance term, the evaluation is
      zero-sum between the two sides. */
  lemma ZeroSum(b: Board, p1: string, p2: string)
    requires TwoSided(b, p1, p2)
    ensures Evaluate(b, Some(p1)) + Evaluate(b, Some(p2)) == 2 * IndexImportance(b)
  {
    TallyCellsMirror(b, p1, p2, CellCount);
  }
}
