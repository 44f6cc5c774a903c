/** The board: a grid of optional tokens plus a name index, with placement,
    movement with capture, per-player move enumeration and copying. */
module Boards {
  import opened Wrappers
  import opened Tokens

  /** `Board`: the `tiles` array and the `tokensByName` dictionary. */
  datatype Board = Board(tiles: Grid, byName: map<string, Token>)

  /** `new Board()`. */
  const EmptyBoard := Board(map[], map[])

  /** A (token, target) pair as `FindAllLegalMoves` returns it. */
  datatype Move = Move(token: Token, to: Pos)

  const CellCount: nat := 25

  /** The k-th cell of the board scan `for i { for j { tiles[i, j] } }`. */
  function CellAt(k: nat): (c: Pos)
    requires k < CellCount
    ensures IsPositionValid(c.0, c.1)
  {
    (k / Size, k % Size)
  }

  /** Where an in-bounds cell comes in the scan. */
  function CellIndex(c: Pos): (k: nat)
    requires IsPositionValid(c.0, c.1)
    ensures k < CellCount && CellAt(k) == c
  {
    c.0 * Size + c.1
  }

  lemma CellIndexOfCellAt(k: nat)
    requires k < CellCount
    ensures CellIndex(CellAt(k)) == k
  {
  }

  /** The board's cells are exactly the 25 cells the scan visits. */
  lemma PositionValidIsScanned(x: int, y: int)
    ensures IsPositionValid(x, y) <==> exists k :: 0 <= k < CellCount && CellAt(k) == (x, y)
  {
    if IsPositionValid(x, y) {
      assert CellAt(CellIndex((x, y))) == (x, y);
    }
  }

  /** Every grid key is a cell of the 5x5 board. */
  ghost predicate CellsInBounds(b: Board) {
    forall c :: c in b.tiles ==> IsPositionValid(c.0, c.1)
  }

  /** Every token on the grid records on-board coordinates. */
  predicate TokensInBounds(b: Board) {
    forall c :: c in b.tiles ==> IsPositionValid(b.tiles[c].x, b.tiles[c].y)
  }

  /** Every token on the grid records the cell it stands on. */
  ghost predicate Consistent(b: Board) {
    forall c :: c in b.tiles ==> (b.tiles[c].x, b.tiles[c].y) == c
  }

  /** The index files every token under its own name. */
  ghost predicate IndexKeyed(b: Board) {
    forall n :: n in b.byName ==> b.byName[n].name == n
  }

  /** Grid keys and token coordinates agree and lie on the board. */
  ghost predicate WellFormed(b: Board) {
    CellsInBounds(b) && Consistent(b) && IndexKeyed(b)
  }

  lemma WellFormedTokensInBounds(b: Board)
    requires CellsInBounds(b) && Consistent(b)
    ensures TokensInBounds(b)
  {
  }

  /** `PlaceToken(token, x, y)`: overwrites cell (x, y) with the token, sets
      its coordinates and files it in the index. Out-of-range coordinates
      throw in C#, hence the precondition. The token's previous cell is left
      as it was. */
  function PlaceToken(b: Board, t: Token, x: int, y: int): (r: Board)
    requires IsPositionValid(x, y)
    ensures (x, y) in r.tiles && r.tiles[(x, y)] == t.(x := x, y := y)
    ensures t.name in r.byName && r.byName[t.name] == t.(x := x, y := y)
  {
    var placed := t.(x := x, y := y);
    Board(b.tiles[(x, y) := placed], b.byName[t.name := placed])
  }

  /** `PlaceToken` changes no other cell and no other index entry, and
      keeps every board invariant. */
  lemma PlaceTokenFrame(b: Board, t: Token, x: int, y: int)
    requires IsPositionValid(x, y)
    ensures var r := PlaceToken(b, t, x, y);
      && (forall c :: c != (x, y) ==> (c in r.tiles <==> c in b.tiles))
      && (forall c :: c != (x, y) && c in b.tiles ==> r.tiles[c] == b.tiles[c])
      && (forall n :: n != t.name ==> (n in r.byName <==> n in b.byName))
      && (forall n :: n != t.name && n in b.byName ==> r.byName[n] == b.byName[n])
      && (CellsInBounds(b) ==> CellsInBounds(r))
      && (TokensInBounds(b) ==> TokensInBounds(r))
      && (Consistent(b) ==> Consistent(r))
      && (IndexKeyed(b) ==> IndexKeyed(r))
  {
  }

  /** Reading a cell after `PlaceToken`: the placed token on its cell, and
      what was there before anywhere else. */
  lemma PlaceTokenTokenAt(b: Board, t: Token, x: int, y: int, cx: int, cy: int)
    requires IsPositionValid(x, y) && IsPositionValid(cx, cy)
    ensures TokenAt(PlaceToken(b, t, x, y).tiles, cx, cy) ==
      if (cx, cy) == (x, y) then Some(t.(x := x, y := y)) else TokenAt(b.tiles, cx, cy)
  {
  }

  /** `MoveToken(token, tx, ty)`: clears the cell the token records, evicts
      any occupant of the target from the grid (not from the index) and puts
      the token on the target with updated coordinates. */
  function MoveToken(b: Board, t: Token, tx: int, ty: int): (r: Board)
    requires IsPositionValid(t.x, t.y) && IsPositionValid(tx, ty)
    ensures (tx, ty) in r.tiles && r.tiles[(tx, ty)] == t.(x := tx, y := ty)
    ensures (t.x, t.y) != (tx, ty) ==> (t.x, t.y) !in r.tiles
    ensures r.byName == b.byName
  {
    var cleared := b.tiles - {(t.x, t.y)};
    Board(cleared[(tx, ty) := t.(x := tx, y := ty)], b.byName)
  }

  /** `MoveToken` changes no cell but the two it names and keeps every
      board invariant. */
  lemma MoveTokenFrame(b: Board, t: Token, tx: int, ty: int)
    requires IsPositionValid(t.x, t.y) && IsPositionValid(tx, ty)
    ensures var r := MoveToken(b, t, tx, ty);
      && (forall c :: c != (tx, ty) && c != (t.x, t.y) ==> (c in r.tiles <==> c in b.tiles))
      && (forall c :: c != (tx, ty) && c != (t.x, t.y) && c in b.tiles ==> r.tiles[c] == b.tiles[c])
      && (CellsInBounds(b) ==> CellsInBounds(r))
      && (TokensInBounds(b) ==> TokensInBounds(r))
      && (Consistent(b) ==> Consistent(r))
      && (IndexKeyed(b) ==> IndexKeyed(r))
  {
  }

  /** Reading a cell after `MoveToken`: the moved token on the target,
      nothing on the cell it left, and what was there before anywhere
      else. */
  lemma MoveTokenTokenAt(b: Board, t: Token, tx: int, ty: int, cx: int, cy: int)
    requires IsPositionValid(t.x, t.y) && IsPositionValid(tx, ty) && IsPositionValid(cx, cy)
    ensures TokenAt(MoveToken(b, t, tx, ty).tiles, cx, cy) ==
      if (cx, cy) == (tx, ty) then Some(t.(x := tx, y := ty))
      else if (cx, cy) == (t.x, t.y) then None
      else TokenAt(b.tiles, cx, cy)
  {
  }

  /** Moving a token away and back puts it on its cell again and leaves the
      target empty; what it captured on the way stays gone. */
  lemma MoveAndMoveBack(b: Board, t: Token, tx: int, ty: int)
    requires IsPositionValid(t.x, t.y) && IsPositionValid(tx, ty) && (t.x, t.y) != (tx, ty)
    ensures var moved := MoveToken(b, t, tx, ty);
      var back := MoveToken(moved, moved.tiles[(tx, ty)], t.x, t.y);
      && back.tiles[(t.x, t.y)] == t
      && (tx, ty) !in back.tiles
      && forall c :: c != (tx, ty) && c != (t.x, t.y) ==> (c in back.tiles <==> c in b.tiles)
  {
    var moved := MoveToken(b, t, tx, ty);
    MoveTokenFrame(b, t, tx, ty);
    MoveTokenFrame(moved, moved.tiles[(tx, ty)], t.x, t.y);
  }

  /** The owner test `token.Player == player` against a player reference
      that may be null. */
  predicate Owns(t: Token, p: Option<string>) {
    p == Some(t.player)
  }

  /** The pairs `(token, target)` for each legal target of a token. */
  function MovesOf(t: Token, targets: seq<Pos>): (r: seq<Move>)
    ensures |r| == |targets|
    ensures forall k :: 0 <= k < |r| ==> r[k] == Move(t, targets[k])
  {
    if |targets| == 0 then []
    else MovesOf(t, targets[..|targets| - 1]) + [Move(t, targets[|targets| - 1])]
  }

  /** The moves one scanned cell contributes for player `p`. */
  function CellMoves(b: Board, p: Option<string>, c: Pos): seq<Move> {
    if c in b.tiles && Owns(b.tiles[c], p) then MovesOf(b.tiles[c], FindLegalMoves(b.tiles[c], b.tiles))
    else []
  }

  /** `m` is a move of a token of `p` standing on one of the first `n`
      cells of the scan, to one of that token's legal targets. */
  ghost predicate LegalMoveWithin(b: Board, p: Option<string>, m: Move, n: nat) {
    exists c :: c in b.tiles && IsPositionValid(c.0, c.1) && CellIndex(c) < n
      && b.tiles[c] == m.token && Owns(m.token, p) && m.to in FindLegalMoves(m.token, b.tiles)
  }

  /** The moves of the first `n` cells of the scan, concatenated in scan
      order. */
  function ScanMoves(b: Board, p: Option<string>, n: nat): (r: seq<Move>)
    requires n <= CellCount
    ensures forall k :: 0 <= k < |r| ==> r[k].token in b.tiles.Values && Owns(r[k].token, p)
    ensures forall k :: 0 <= k < |r| ==> Admissible(r[k].token, b.tiles, r[k].to)
    ensures TokensInBounds(b) ==> forall k :: 0 <= k < |r| ==> IsPositionValid(r[k].token.x, r[k].token.y)
  {
    if n == 0 then []
    else ScanMoves(b, p, n - 1) + CellMoves(b, p, CellAt(n - 1))
  }

  lemma {:induction false} ScanMovesMembers(b: Board, p: Option<string>, n: nat)
    requires n <= CellCount
    ensures forall m :: m in ScanMoves(b, p, n) <==> LegalMoveWithin(b, p, m, n)
  {
    if n > 0 {
      ScanMovesMembers(b, p, n - 1);
      var prev := ScanMoves(b, p, n - 1);
      var c := CellAt(n - 1);
      var here := CellMoves(b, p, c);
      var r := prev + here;
      assert r == ScanMoves(b, p, n);
      forall m | LegalMoveWithin(b, p, m, n)
        ensures m in r
      {
        var d :| d in b.tiles && IsPositionValid(d.0, d.1) && CellIndex(d) < n
          && b.tiles[d] == m.token && Owns(m.token, p) && m.to in FindLegalMoves(m.token, b.tiles);
        if CellIndex(d) < n - 1 {
          assert LegalMoveWithin(b, p, m, n - 1);
        } else {
          var targets := FindLegalMoves(m.token, b.tiles);
          var i :| 0 <= i < |targets| && targets[i] == m.to;
          assert here[i] == m;
        }
      }
      forall m | m in here
        ensures LegalMoveWithin(b, p, m, n)
      {
        CellIndexOfCellAt(n - 1);
      }
    }
  }

  /** `FindAllLegalMoves(player)`: for each cell in scan order, the legal
      targets of its token when `player` owns it, in offset order. */
  function FindAllLegalMoves(b: Board, p: Option<string>): (r: seq<Move>)
    ensures forall k :: 0 <= k < |r| ==> r[k].token in b.tiles.Values && Owns(r[k].token, p)
    ensures forall k :: 0 <= k < |r| ==> Admissible(r[k].token, b.tiles, r[k].to)
    ensures TokensInBounds(b) ==> forall k :: 0 <= k < |r| ==> IsPositionValid(r[k].token.x, r[k].token.y)
  {
    ScanMoves(b, p, CellCount)
  }

  /** A pair is enumerated exactly when its token stands on the board, is
      owned by the player, and the target is one of its legal moves. */
  lemma FindAllLegalMovesMembers(b: Board, p: Option<string>)
    ensures forall m :: m in FindAllLegalMoves(b, p) <==> LegalMoveWithin(b, p, m, CellCount)
  {
    ScanMovesMembers(b, p, CellCount);
  }

  /** The copy of the first `n` scanned cells, each token placed at the
      coordinates it records. */
  function CopyCells(b: Board, n: nat): Board
    requires n <= CellCount && TokensInBounds(b)
  {
    if n == 0 then EmptyBoard
    else
      var prev := CopyCells(b, n - 1);
      var c := CellAt(n - 1);
      if c in b.tiles then
        var t := b.tiles[c];
        PlaceToken(prev, Token(t.name, t.x, t.y, t.player, t.offsets), t.x, t.y)
      else
        prev
  }

  /** The copy of the first `n` scanned cells is a well-formed board of
      tokens of the original only. */
  lemma {:induction false} CopyCellsWellFormed(b: Board, n: nat)
    requires n <= CellCount && TokensInBounds(b)
    ensures WellFormed(CopyCells(b, n))
    ensures forall c :: c in CopyCells(b, n).tiles ==> CopyCells(b, n).tiles[c] in b.tiles.Values
  {
    if n > 0 {
      CopyCellsWellFormed(b, n - 1);
      var c := CellAt(n - 1);
      if c in b.tiles {
        var t := b.tiles[c];
        PlaceTokenFrame(CopyCells(b, n - 1), Token(t.name, t.x, t.y, t.player, t.offsets), t.x, t.y);
      }
    }
  }

  /** The copy's index names exactly the tokens of the first `n` scanned
      cells. */
  lemma {:induction false} CopyCellsNames(b: Board, n: nat)
    requires n <= CellCount && TokensInBounds(b)
    ensures CopyCells(b, n).byName.Keys == NamesWithin(b, n)
  {
    if n > 0 {
      CopyCellsNames(b, n - 1);
      NamesWithinStep(b, n);
      var c := CellAt(n - 1);
      if c in b.tiles {
        var t := b.tiles[c];
        PlaceTokenFrame(CopyCells(b, n - 1), Token(t.name, t.x, t.y, t.player, t.offsets), t.x, t.y);
      }
    }
  }

  /** Scanning one more cell adds the name of its token, if any. */
  lemma NamesWithinStep(b: Board, n: nat)
    requires 0 < n <= CellCount
    ensures var c := CellAt(n - 1);
      NamesWithin(b, n) == NamesWithin(b, n - 1) + (if c in b.tiles then {b.tiles[c].name} else {})
  {
    var c := CellAt(n - 1);
    CellIndexOfCellAt(n - 1);
    forall nm | nm in NamesWithin(b, n)
      ensures nm in NamesWithin(b, n - 1) + (if c in b.tiles then {b.tiles[c].name} else {})
    {
      var d :| d in b.tiles && IsPositionValid(d.0, d.1) && CellIndex(d) < n && b.tiles[d].name == nm;
      if d != c {
        assert CellIndex(d) != n - 1;
      }
    }
  }

  /** The names of the tokens on the first `n` scanned cells. */
  ghost function NamesWithin(b: Board, n: nat): set<string> {
    set c | c in b.tiles && IsPositionValid(c.0, c.1) && CellIndex(c) < n :: b.tiles[c].name
  }

  /** For a board whose tokens record their cells, the copy of the first
      `n` scanned cells holds exactly those cells, unchanged. */
  lemma {:induction false} CopyCellsCells(b: Board, n: nat)
    requires n <= CellCount && TokensInBounds(b) && Consistent(b)
    ensures forall c :: c in CopyCells(b, n).tiles <==> (c in b.tiles && IsPositionValid(c.0, c.1) && CellIndex(c) < n)
    ensures forall c :: c in CopyCells(b, n).tiles ==> CopyCells(b, n).tiles[c] == b.tiles[c]
  {
    if n > 0 {
      CopyCellsCells(b, n - 1);
      CopyCellsCellsStep(b, n);
    }
  }

  /** Copying one more scanned cell adds exactly that cell, unchanged. */
  lemma CopyCellsCellsStep(b: Board, n: nat)
    requires 0 < n <= CellCount && TokensInBounds(b) && Consistent(b)
    requires forall c :: c in CopyCells(b, n - 1).tiles <==> (c in b.tiles && IsPositionValid(c.0, c.1) && CellIndex(c) < n - 1)
    requires forall c :: c in CopyCells(b, n - 1).tiles ==> CopyCells(b, n - 1).tiles[c] == b.tiles[c]
    ensures forall c :: c in CopyCells(b, n).tiles <==> (c in b.tiles && IsPositionValid(c.0, c.1) && CellIndex(c) < n)
    ensures forall c :: c in CopyCells(b, n).tiles ==> CopyCells(b, n).tiles[c] == b.tiles[c]
  {
    var c := CellAt(n - 1);
    CellIndexOfCellAt(n - 1);
    forall d | d in b.tiles && IsPositionValid(d.0, d.1) && CellIndex(d) < n && d != c
      ensures CellIndex(d) < n - 1
    {
    }
    if c in b.tiles {
      CopyOccupiedCell(b, n);
    } else {
      assert CopyCells(b, n) == CopyCells(b, n - 1);
    }
  }

  /** Copying an occupied cell of a board whose tokens record their cells
      adds that cell's token as it is. */
  lemma CopyOccupiedCell(b: Board, n: nat)
    requires 0 < n <= CellCount && TokensInBounds(b) && Consistent(b) && CellAt(n - 1) in b.tiles
    ensures CopyCells(b, n).tiles == CopyCells(b, n - 1).tiles[CellAt(n - 1) := b.tiles[CellAt(n - 1)]]
  {
    var c := CellAt(n - 1);
    var t := b.tiles[c];
    assert (t.x, t.y) == c;
    assert Token(t.name, t.x, t.y, t.player, t.offsets).(x := t.x, y := t.y) == t;
  }

  /** `CreateCopy()`, and equally the copy constructor `Board(Board)`: a
      fresh board holding the tokens of the scanned cells. */
  function CreateCopy(b: Board): (r: Board)
    requires TokensInBounds(b)
    ensures WellFormed(r) && TokensInBounds(r)
    ensures forall c :: c in r.tiles ==> r.tiles[c] in b.tiles.Values
  {
    CopyCellsWellFormed(b, CellCount);
    WellFormedTokensInBounds(CopyCells(b, CellCount));
    CopyCells(b, CellCount)
  }


  /** A board whose cells are on the board and hold tokens recording them
      is copied cell for cell. */
  lemma CreateCopyExact(b: Board)
    requires TokensInBounds(b)
    ensures CellsInBounds(b) && Consistent(b) ==> CreateCopy(b).tiles == b.tiles
  {
    if CellsInBounds(b) && Consistent(b) {
      var r := CopyCells(b, CellCount);
      CopyCellsCells(b, CellCount);
      forall c | c in b.tiles
        ensures CellIndex(c) < CellCount
      {
      }
      assert r.tiles.Keys == b.tiles.Keys;
      assert forall c :: c in r.tiles ==> r.tiles[c] == b.tiles[c];
      SameMaps(r.tiles, b.tiles);
    }
  }

  /** Two maps with the same keys and the same value under each key are
      equal. */
  lemma SameMaps<K, V>(m1: map<K, V>, m2: map<K, V>)
    requires m1.Keys == m2.Keys && forall k :: k in m1 ==> m1[k] == m2[k]
    ensures m1 == m2
  {
  }

  /** The copy's index is rebuilt from the grid: it files exactly the names
      of the tokens on board cells, whatever the original index held. */
  lemma CreateCopyIndex(b: Board)
    requires TokensInBounds(b)
    ensures CreateCopy(b).byName.Keys == set c | c in b.tiles && IsPositionValid(c.0, c.1) :: b.tiles[c].name
  {
    CopyCellsNames(b, CellCount);
    assert (set c | c in b.tiles && IsPositionValid(c.0, c.1) && CellIndex(c) < CellCount :: b.tiles[c].name)
      == (set c | c in b.tiles && IsPositionValid(c.0, c.1) :: b.tiles[c].name);
  }
}
