/** The search of `Board`: `GetOpponentPlayer`, the successor boards,
    `Minimax` on a board (the game tree of `GameTree` instantiated with the
    board's legal moves and `EvaluatePosition`), and `FindBestMove`. */
module Search {
  import opened Wrappers
  import opened Text
  import opened Tokens
  import opened Boards
  import opened Evaluation
  import GameTree

  const Player1: string := "Player 1"
  const Player2: string := "Player 2"

  /** `GetOpponentPlayer`: swaps the two player names; anything else has no
      opponent (null). */
  function GetOpponentPlayer(p: Option<string>): (r: Option<string>)
    ensures p == Some(Player1) <==> r == Some(Player2)
    ensures p == Some(Player2) <==> r == Some(Player1)
    ensures r.None? <==> p != Some(Player1) && p != Some(Player2)
  {
    if p == Some(Player1) then Some(Player2)
    else if p == Some(Player2) then Some(Player1)
    else None
  }

  /** On the two player names the swap is an involution without fixed point. */
  lemma OpponentInvolution(p: Option<string>)
    requires p == Some(Player1) || p == Some(Player2)
    ensures GetOpponentPlayer(GetOpponentPlayer(p)) == p
    ensures GetOpponentPlayer(p) != p
  {
  }

  /** The inner-node successor: a copy of the board with the token placed on
      the target by `PlaceToken`, which leaves its previous cell occupied. */
  function Successor(b: Board, m: Move): (r: Board)
    requires TokensInBounds(b) && IsPositionValid(m.to.0, m.to.1)
    ensures m.to in r.tiles && r.tiles[m.to] == m.token.(x := m.to.0, y := m.to.1)
  {
    PlaceToken(CreateCopy(b), m.token, m.to.0, m.to.1)
  }

  /** The root successor: a copy of the board with the token moved to the
      target by `MoveToken`, which empties its previous cell. */
  function RootSuccessor(b: Board, m: Move): (r: Board)
    requires TokensInBounds(b) && IsPositionValid(m.token.x, m.token.y) && IsPositionValid(m.to.0, m.to.1)
    ensures m.to in r.tiles && r.tiles[m.to] == m.token.(x := m.to.0, y := m.to.1)
    ensures (m.token.x, m.token.y) != m.to ==> (m.token.x, m.token.y) !in r.tiles
  {
    MoveToken(CreateCopy(b), m.token, m.to.0, m.to.1)
  }

  /** Both successors are well-formed boards again. */
  lemma SuccessorsWellFormed(b: Board, m: Move)
    requires TokensInBounds(b) && IsPositionValid(m.token.x, m.token.y) && IsPositionValid(m.to.0, m.to.1)
    ensures WellFormed(Successor(b, m)) && TokensInBounds(Successor(b, m))
    ensures WellFormed(RootSuccessor(b, m)) && TokensInBounds(RootSuccessor(b, m))
  {
    PlaceTokenFrame(CreateCopy(b), m.token, m.to.0, m.to.1);
    MoveTokenFrame(CreateCopy(b), m.token, m.to.0, m.to.1);
    WellFormedTokensInBounds(Successor(b, m));
    WellFormedTokensInBounds(RootSuccessor(b, m));
  }

  /** A search node: a board and the player to move on it. */
  datatype Node = Node(board: Board, player: Option<string>)

  /** The leaf evaluation: `EvaluatePosition` for the player to move. */
  function Score(n: Node): Int32 {
    Evaluate(n.board, n.player)
  }

  /** The children of a node: one per legal move of the player to move, in
      `FindAllLegalMoves` order, with the opponent to move. A board holding
      a token off the board (which `CreateCopy` rejects) has none. */
  function Children(n: Node): (r: seq<Node>)
    ensures TokensInBounds(n.board) ==> |r| == |FindAllLegalMoves(n.board, n.player)|
    ensures !TokensInBounds(n.board) ==> r == []
  {
    if TokensInBounds(n.board) then
      var moves := FindAllLegalMoves(n.board, n.player);
      seq(|moves|, k requires 0 <= k < |moves| => Node(Successor(n.board, moves[k]), GetOpponentPlayer(n.player)))
    else []
  }

  /** Every child of an in-bounds node is in bounds again. */
  lemma ChildrenInBounds(n: Node)
    ensures forall k :: 0 <= k < |Children(n)| ==> TokensInBounds(Children(n)[k].board)
  {
    if TokensInBounds(n.board) {
      var moves := FindAllLegalMoves(n.board, n.player);
      forall k | 0 <= k < |Children(n)|
        ensures TokensInBounds(Children(n)[k].board)
      {
        SuccessorsWellFormed(n.board, moves[k]);
      }
    }
  }

  /** `Board.Minimax(board, player, alpha, beta, isMaximizingPlayer, depth)`. */
  function Minimax(b: Board, p: Option<string>, alpha: int, beta: int, maximizing: bool, depth: nat): (r: int)
    requires TokensInBounds(b)
    ensures IsInt32(r)
    ensures depth == 0 ==> r == Evaluate(b, p)
    ensures depth > 0 && FindAllLegalMoves(b, p) == [] ==> r == if maximizing then IntMin else IntMax
  {
    GameTree.Minimax(Children, Score, Node(b, p), alpha, beta, maximizing, depth)
  }

  /** The unpruned minimax value of a board. */
  function MinimaxValue(b: Board, p: Option<string>, maximizing: bool, depth: nat): (v: int)
    requires TokensInBounds(b)
    ensures IsInt32(v)
    ensures depth == 0 ==> v == Evaluate(b, p)
    ensures depth > 0 && FindAllLegalMoves(b, p) == [] ==> v == if maximizing then IntMin else IntMax
  {
    GameTree.MinimaxValue(Children, Score, Node(b, p), maximizing, depth)
  }

  /** Alpha-beta pruning on boards: the pruned value agrees with the
      unpruned one for every window, and equals it for the full window. */
  lemma AlphaBeta(b: Board, p: Option<string>, alpha: int, beta: int, maximizing: bool, depth: nat)
    requires TokensInBounds(b) && IntMin <= alpha < beta <= IntMax
    ensures GameTree.Agrees(MinimaxValue(b, p, maximizing, depth), Minimax(b, p, alpha, beta, maximizing, depth), alpha, beta)
    ensures Minimax(b, p, IntMin, IntMax, maximizing, depth) == MinimaxValue(b, p, maximizing, depth)
  {
    GameTree.AlphaBeta(Children, Score, Node(b, p), alpha, beta, maximizing, depth);
    GameTree.FullWindowExact(Children, Score, Node(b, p), maximizing, depth);
  }

  /** The positions the root scores: each legal move played by `MoveToken`
      on a copy of the board, with the opponent to move. A board holding a
      token off the board (which `CreateCopy` rejects) has none. */
  function RootKids(b: Board, p: Option<string>): (r: seq<Node>)
    ensures TokensInBounds(b) ==> |r| == |FindAllLegalMoves(b, p)|
  {
    if TokensInBounds(b) then
      var moves := FindAllLegalMoves(b, p);
      seq(|moves|, k requires 0 <= k < |moves| => Node(RootSuccessor(b, moves[k]), GetOpponentPlayer(p)))
    else []
  }

  /** The unpruned values of the root's moves: the opponent's minimising
      search at child depth `d`. */
  function RootValues(b: Board, p: Option<string>, d: nat): (r: seq<int>)
    ensures |r| == |RootKids(b, p)|
  {
    GameTree.RootValues(Children, Score, RootKids(b, p), d)
  }

  /** The index the root loop settles on, scanning from move `start` with
      alpha at `int.MinValue`, `seed` as the initial choice and child depth
      `d`. */
  function RootChoice(b: Board, p: Option<string>, start: nat, seed: Option<nat>, d: nat): (r: Option<nat>)
    requires start <= |RootKids(b, p)|
    ensures r == seed || (r.Some? && start <= r.value < |RootKids(b, p)|)
  {
    GameTree.RootScan(Children, Score, RootKids(b, p), start, IntMin, seed, d)
  }

  /** The root loop keeps its seed when every move from `start` on is worth
      `int.MinValue`, and otherwise picks the first move of greatest
      unpruned value from `start` on. */
  lemma RootChoiceIsFirstPeak(b: Board, p: Option<string>, start: nat, seed: Option<nat>, d: nat)
    requires start <= |RootKids(b, p)|
    ensures GameTree.ChoosesFirstPeak(RootValues(b, p, d), start, seed, RootChoice(b, p, start, seed, d))
  {
    GameTree.RootScanFrom(Children, Score, RootKids(b, p), start, seed, d);
  }

  /** `Board.FindBestMove(player, depth)`: every legal move is scored,
      with alpha starting at `int.MinValue`. `None` stands for the seed
      `(null, (0, 0))`, which is kept when no move beats `int.MinValue`. */
  function FindBestMove(b: Board, p: Option<string>, depth: nat): (r: Option<Move>)
    requires TokensInBounds(b) && depth >= 1
    ensures r.Some? ==> r.value in FindAllLegalMoves(b, p)
  {
    GameTree.BestMove(Children, Score, RootKids(b, p), FindAllLegalMoves(b, p), 0, None, depth - 1)
  }

  /** At depth `d + 1`, `FindBestMove` returns the first legal move of
      greatest unpruned value at child depth `d`, and the null seed exactly
      when every move is worth `int.MinValue` to the mover (in particular,
      when there is none). */
  lemma FindBestMoveIsFirstPeak(b: Board, p: Option<string>, d: nat)
    requires TokensInBounds(b)
    ensures GameTree.PicksFirstPeak(FindAllLegalMoves(b, p), RootValues(b, p, d), 0, None, FindBestMove(b, p, d + 1))
  {
    GameTree.RootScanPicks(Children, Score, RootKids(b, p), FindAllLegalMoves(b, p), 0, None, d);
  }

  /** The index the root loop settles on when seeded with the first move
      and started at move `start`: the first move when every move from
      `start` on is worth `int.MinValue`, and otherwise the first move of
      greatest unpruned value from `start` on. */
  function SeededIndex(b: Board, p: Option<string>, start: nat, d: nat): (k: nat)
    requires TokensInBounds(b) && 0 < |FindAllLegalMoves(b, p)| && start <= |FindAllLegalMoves(b, p)|
    ensures k < |FindAllLegalMoves(b, p)|
    ensures GameTree.SeededChoice(RootValues(b, p, d), start, k)
  {
    GameTree.SeededScan(Children, Score, RootKids(b, p), start, d);
    GameTree.RootScan(Children, Score, RootKids(b, p), start, IntMin, Some(0), d).value
  }
}
