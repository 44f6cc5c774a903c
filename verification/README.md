# GameplayEngine: a Dafny model

This project models the rules engine of a small tactical board game. The
engine plays on a 5×5 grid of tiles. Each token has a name, a position, an
owning player ("Player 1" or "Player 2") and a list of move offsets. The
model covers three classes of the `GameplayEngine` namespace:

- `Token` computes a token's legal targets.
- `Board` places and moves tokens, lists every legal move of a player,
  copies itself, scores a position, and searches with minimax and
  alpha-beta pruning.
- `Engine` is the string-based facade. It builds the engine from tokens
  and answers queries about tokens. It reads and plays moves written
  `name:x,y`. It reads and writes whole board states written
  `name:x,y;name:x,y;…`. It also picks a best move for a player.

The model is written in a functional style. `Token`, `Board` and the search
nodes are immutable datatypes; a grid is a map from cells to tokens, and a
missing key is a null tile. `Engine` is different, because the C# engine
shares one token object between its name dictionary and its board, and
changes coordinates in place. `Engines.Engine` keeps that sharing
explicit: the token objects live in a heap sequence, and the grid and the
name index hold references into it. A C# exception becomes a
`Wrappers.Result` failure. The failures are: an index past the end of a
`Split` result or a failed `int.Parse` (`Malformed`), a tile index off the
grid (`OutOfBoard`), a duplicate dictionary key (`DuplicateName`), and a
missing key (`MissingKey`).

Files, one module each: `wrappers.dfy` (Option, Result, faults),
`text.dfy` (`Split`, `Join`, `TrimEnd` and decimal numbers), `tokens.dfy`
(`Token`), `boards.dfy` (`Board` without the search), `evaluation.dfy`
(`EvaluatePosition`), `gametree.dfy` (minimax and the root loop over any
game tree), `search.dfy` (that tree built from boards) and `engine.dfy`
(`Engine`).

Inner search nodes follow `Board.Minimax` as written: a child board is made
with `PlaceToken`, which does not empty the mover's old tile. The root
loops use `MoveToken`.

`Engines.HandleBoardState` likewise follows the loop as written, which leaves
a known token on its old tile as well. `Engines.HandleBoardStateCorrected`
is the fixed loop; the Findings section below explains the difference.

## Model

| member | source | states |
|---|---|---|
| Text.Split | Assets/Scripts/Engine/Engine.cs:49 | `String.Split` on one character: one more part than there are separators, no part contains the separator, and joining the parts gives back the input |
| Text.SplitJoin | Assets/Scripts/Engine/Engine.cs:124 | splitting the `;`-join of separator-free parts gives back exactly those parts |
| Text.TrimEnd | Assets/Scripts/Engine/Engine.cs:185 | `TrimEnd(';')` returns a prefix of the input that does not end in `;`, and everything it removed is `;` |
| Text.ParseInt | Assets/Scripts/Engine/Engine.cs:66 | a parsed number comes only from a non-empty string of decimal digits and is a non-negative 32-bit value |
| Text.ParseIntToString | Assets/Scripts/Engine/Engine.cs:92-93 | the decimal text of any number from 0 to int.MaxValue parses back to that number |
| Tokens.IsPositionValid | Assets/Scripts/Engine/Board.cs:77-80 | a cell is on the board exactly when 0 ≤ x < 5 and 0 ≤ y < 5 |
| Tokens.TokenAt | Assets/Scripts/Engine/Board.cs:83-86 | `GetTokenAtPosition` on a board cell yields a token exactly when the tile is occupied, and then that tile's token; the legal-move test reads the target tile through it |
| Tokens.FindLegalMoves | Assets/Scripts/Engine/Token.cs:27-50 | at most one target per offset; every target lies on the board and is empty or held by a token of another owner |
| Tokens.FindLegalMovesMembers | Assets/Scripts/Engine/Token.cs:30-47 | a cell is a legal target exactly when some offset reaches it from the token and it is on the board and empty or held by another owner (soundness and completeness) |
| Tokens.LegalTargetsFollowOffsets | Assets/Scripts/Engine/Token.cs:30-47 | the targets are the kept offsets applied to the token, in offset order |
| Tokens.KeptOffsetsComplete | Assets/Scripts/Engine/Token.cs:36-45 | every offset whose target is admissible is kept |
| Tokens.NoOffsetsNoMoves | Assets/Scripts/Engine/Token.cs:27-50 | a token without offsets has no legal move |
| Boards.CellIndex | Assets/Scripts/Engine/Board.cs:93-95 | the row-major scan visits every board cell once: a cell's scan index maps back to the cell |
| Boards.PositionValidIsScanned | Assets/Scripts/Engine/Board.cs:77-80 | a cell is on the board exactly when it is one of the 25 cells the row-major scan visits |
| Boards.PlaceToken | Assets/Scripts/Engine/Board.cs:43-49 | the target tile holds the token with its new coordinates, and the board's index files that token under its name |
| Boards.PlaceTokenFrame | Assets/Scripts/Engine/Board.cs:43-49 | no other tile and no other name changes, so the old tile is not cleared; bounds, coordinate consistency and the index keying are kept |
| Boards.PlaceTokenTokenAt | Assets/Scripts/Engine/Board.cs:43-49 | after `PlaceToken`, `GetTokenAtPosition` yields the placed token on its cell and what it yielded before on every other cell, the token's old cell included |
| Boards.MoveToken | Assets/Scripts/Engine/Board.cs:52-74 | the target tile holds the moved token; its old tile is empty when it differs from the target; the board's index is untouched, so a captured token stays indexed |
| Boards.MoveTokenFrame | Assets/Scripts/Engine/Board.cs:52-74 | every tile other than the source and the target keeps its occupant, and the board invariants are kept |
| Boards.MoveTokenTokenAt | Assets/Scripts/Engine/Board.cs:52-74 | after `MoveToken`, `GetTokenAtPosition` yields the moved token on the target, null on the cell it left, and what it yielded before on every other cell |
| Boards.MoveAndMoveBack | Assets/Scripts/Engine/Board.cs:52-74 | moving a token away and back restores its tile and empties the target; every other tile's occupancy is as before |
| Boards.ScanMovesMembers | Assets/Scripts/Engine/Board.cs:93-107 | a move is among those of the first n scanned cells exactly when its token stands on one of those cells, belongs to the player, and the target is one of its legal targets |
| Boards.FindAllLegalMoves | Assets/Scripts/Engine/Board.cs:89-110 | every move's token is on the board and owned by the player, and its target is admissible for it |
| Boards.FindAllLegalMovesMembers | Assets/Scripts/Engine/Board.cs:89-110 | a move is listed exactly when its token stands on a board cell, belongs to the player, and the target is a legal target of that token |
| Boards.CreateCopy | Assets/Scripts/Engine/Board.cs:213-229 | the copy only has board tiles, every token records its own tile, the copy's index files each token under its name, and every copied token is one of the original's |
| Boards.CreateCopyExact | Assets/Scripts/Engine/Board.cs:23-40 | on a board where every token records its own tile, the copy has exactly the same tiles |
| Boards.CreateCopyIndex | Assets/Scripts/Engine/Board.cs:213-229 | the copy's index holds exactly the names of the tokens on the tiles |
| Evaluation.PositionWeight | Assets/Scripts/Engine/Board.cs:256-264 | a corner is worth 1 and every other cell 2 |
| Evaluation.ScoresTotalIs36 | Assets/Scripts/Engine/Board.cs:267-281 | the importance table totals 36 |
| Evaluation.TokenScoresDistinct | Assets/Scripts/Engine/Board.cs:267-281 | the importance table has no name twice |
| Evaluation.IndexImportanceIsSum | Assets/Scripts/Engine/Board.cs:309 | the importance term is the sum of the table score of every indexed token, of either owner |
| Evaluation.TallyCells | Assets/Scripts/Engine/Board.cs:284-303 | the scan counts at most one token per cell, and the positional balance lies between the all-weight-1 and all-weight-2 extremes |
| Evaluation.TallyCellsCounts | Assets/Scripts/Engine/Board.cs:284-303 | the scan's two counters are the numbers of scanned cells holding a token of the player and holding a token of anyone else |
| Evaluation.Evaluate | Assets/Scripts/Engine/Board.cs:250-313 | the score lies within -300..336, and on an empty grid it is just the importance term |
| Evaluation.EmptyBoardScoresZero | Assets/Scripts/Engine/Board.cs:250-313 | an empty board scores 0 for any player |
| Evaluation.TallyCellsMirror | Assets/Scripts/Engine/Board.cs:284-303 | on a board of two players the tallies for one are those of the other mirrored |
| Evaluation.ZeroSum | Assets/Scripts/Engine/Board.cs:250-313 | on a board of two players the two players' scores sum to twice the importance term |
| Search.GetOpponentPlayer | Assets/Scripts/Engine/Board.cs:232-247 | "Player 1" and "Player 2" swap, and anything else has no opponent |
| Search.OpponentInvolution | Assets/Scripts/Engine/Board.cs:232-247 | on the two player names the swap is its own inverse and has no fixed point |
| Search.SuccessorsWellFormed | Assets/Scripts/Engine/Board.cs:159-161 | a copied board with one token placed or moved is well-formed again |
| Search.Minimax | Assets/Scripts/Engine/Board.cs:143-202 | the result is a 32-bit value; depth 0 gives `EvaluatePosition` for the player; with no legal move it gives int.MinValue when maximising and int.MaxValue when minimising |
| GameTree.MaxLoop | Assets/Scripts/Engine/Board.cs:153-174 | the maximising loop never ends below its running maximum |
| GameTree.MinLoop | Assets/Scripts/Engine/Board.cs:178-200 | the minimising loop never ends above its running minimum |
| GameTree.OverBounds | Assets/Scripts/Engine/Board.cs:151-201 | the unpruned max and min over the children bound every child's value and are attained by one |
| GameTree.AlphaBeta | Assets/Scripts/Engine/Board.cs:151-201 | with alpha < beta the pruned value agrees with the unpruned minimax value: equal inside the window, on the same side outside it |
| Search.AlphaBeta | Assets/Scripts/Engine/Board.cs:143-202 | the same on boards, and with the full window the pruned value is the unpruned one |
| GameTree.FirstPeak | Assets/Scripts/Engine/Board.cs:122-136 | the strict-improvement scan finds nothing exactly when no value exceeds the floor, and otherwise the first index of the greatest value |
| GameTree.RootScanFindsPeak | Assets/Scripts/Engine/Board.cs:122-136 | the root loop with its rising alpha picks what the scan over the unpruned values picks |
| Search.RootChoiceIsFirstPeak | Assets/Scripts/Engine/Board.cs:122-136 | the root loop keeps its seed when every move is worth int.MinValue, and otherwise picks the first move of greatest value |
| Search.FindBestMoveIsFirstPeak | Assets/Scripts/Engine/Board.cs:113-139 | at depth d+1, `FindBestMove` returns the null seed exactly when no move is worth more than int.MinValue (in particular when there is none), and otherwise the first legal move of greatest minimax value |
| Search.FindBestMove | Assets/Scripts/Engine/Board.cs:113-139 | a returned move is one of the player's legal moves |
| Search.SeededIndex | Assets/Scripts/Engine/Engine.cs:201-217 | a root loop seeded with the first move and started at a given move keeps the first move when every scanned move is worth int.MinValue, and otherwise picks the first scanned move of greatest value |
| GameTree.SecondStartSkipsFirst | Assets/Scripts/Engine/Engine.cs:205 | with two moves worth 10 and 5, the loop started at the second move picks the move worth 5, while the loop started at the first picks the one worth 10 |
| Engines.Lookup | Assets/Scripts/Engine/Engine.cs:28 | a name yields a token exactly when it is indexed, and then the token filed under it, which bears that name |
| Engines.AddTokensGuards | Assets/Scripts/Engine/Engine.cs:19-23 | the constructor's loop finishes exactly when every name is new when it comes and every token records a board cell |
| Engines.AddsCleanlyIff | Assets/Scripts/Engine/Engine.cs:19-23 | those guards hold exactly when the names are pairwise different, unseen before, and every token is on the board |
| Engines.AddOneSpec | Assets/Scripts/Engine/Engine.cs:21-22 | adding one token keeps the engine coherent, files the token under its name, and changes no other name's token |
| Engines.AddTokensCoherent | Assets/Scripts/Engine/Engine.cs:19-23 | the loop keeps the engine coherent, and the index gains exactly the tokens' names |
| Engines.AddTokensLookups | Assets/Scripts/Engine/Engine.cs:19-23 | after the loop every token is found under its name unchanged, and earlier names keep their tokens |
| Engines.NewEngine | Assets/Scripts/Engine/Engine.cs:14-24 | the constructor succeeds exactly when the names are pairwise different and every token records a board cell; then the engine is coherent and indexes exactly the tokens' names |
| Engines.NewEngineSpec | Assets/Scripts/Engine/Engine.cs:14-24 | the constructor succeeds exactly when the names are distinct and every token is on the board; then the engine is coherent, every token's player and position are reported as given, and any other name is unknown |
| Engines.GetTokenPlayer | Assets/Scripts/Engine/Engine.cs:26-34 | a player is returned exactly for indexed names, and it is that token's owner |
| Engines.GetTokenPosition | Assets/Scripts/Engine/Engine.cs:36-45 | a known name gives the X and Y its token records, which form a board cell; an unknown name gives (-1,-1) |
| Engines.GetPossibleMoves | Assets/Scripts/Engine/Engine.cs:157-165 | an unknown name has no moves; every move of a known token is admissible on the live grid |
| Engines.GetPossibleMovesMembers | Assets/Scripts/Engine/Engine.cs:157-165 | a known token's possible moves are exactly the admissible cells one of its offsets reaches |
| Engines.GetTokenNameFromMove | Assets/Scripts/Engine/Engine.cs:47-56 | a name is returned exactly when the move has one `:`, and it is the whole text before that `:` |
| Engines.GetTargetPositionFromMove | Assets/Scripts/Engine/Engine.cs:58-73 | the result is (-1,-1) or a pair of non-negative 32-bit values, and it is (-1,-1) whenever the move does not have exactly one `:` |
| Engines.TargetOfParts | Assets/Scripts/Engine/Engine.cs:58-73 | any `name:xs,ys` with a `:`-free name whose two texts parse gives the two parsed values, leading zeros included |
| Engines.TargetHasParts | Assets/Scripts/Engine/Engine.cs:58-73 | a result other than (-1,-1) comes only from a move `name:xs,ys` with a `:`-free name and two texts that parse to the result; every other move gives (-1,-1) |
| Engines.NotationParts | Assets/Scripts/Engine/Engine.cs:49-66 | splitting `name:x,y` on `:` and then on `,` gives back the name and the two numbers' texts, which parse back to the numbers |
| Engines.MoveRoundTrip | Assets/Scripts/Engine/Engine.cs:47-73 | reading `name:x,y` back gives the name and (x,y) |
| Engines.HandleMove | Assets/Scripts/Engine/Engine.cs:76-118 | the engine stays valid, and a move without `:` throws |
| Engines.PlayMove | Assets/Scripts/Engine/Engine.cs:104-117 | playing a move adds no name to the index and creates no token |
| Engines.PlayMoveCoherent | Assets/Scripts/Engine/Engine.cs:104-117 | playing an admissible move of an indexed token on a coherent engine succeeds and keeps it coherent |
| Engines.PlayMoveEffect | Assets/Scripts/Engine/Engine.cs:104-117 | the mover is indexed with the target coordinates and stands on the target, its old tile is empty, and a captured token's name leaves the index |
| Engines.PlayMoveNames | Assets/Scripts/Engine/Engine.cs:104-117 | no name is added, and every other remaining name keeps its token |
| Engines.PlayMoveCells | Assets/Scripts/Engine/Engine.cs:113 | every tile other than the source and the target keeps its occupant |
| Engines.HandleNotation | Assets/Scripts/Engine/Engine.cs:76-102 | a well-formed move leaves the engine unchanged for an unknown name or a target that is not a legal move, and otherwise plays the move |
| Engines.HandleMoveCoherent | Assets/Scripts/Engine/Engine.cs:84-102 | a well-formed move keeps a coherent engine coherent, and a target not among the token's possible moves (including any move of an unknown token) changes nothing |
| Engines.HandleMoveEffect | Assets/Scripts/Engine/Engine.cs:104-117 | an accepted move puts the mover on the target with its new position, empties its old tile, drops the captured name, and leaves every other name and every other tile as it was |
| Engines.ParseEntry | Assets/Scripts/Engine/Engine.cs:129-134 | a parsed entry has a `:`-free name and non-negative 32-bit coordinates; an entry without `:` throws |
| Engines.ParseEntryNotation | Assets/Scripts/Engine/Engine.cs:129-134 | the entry `name:x,y` parses back to its parts |
| Engines.PlaceEntryAsWritten | Assets/Scripts/Engine/Engine.cs:136-152 | the entry as the loop body writes it fails exactly when its cell is off the board, and keeps the engine valid |
| Engines.PlaceEntryAsWrittenEffect | Assets/Scripts/Engine/Engine.cs:136-152 | the named token is indexed and stands on the entry's cell with its coordinates; a new name gets a "Player 1" token without offsets; a known token keeps its owner and offsets; other names are unchanged; and no other tile changes, so a known token's old tile still holds it |
| Engines.PlaceEntryAsWrittenDuplicates | Assets/Scripts/Engine/Engine.cs:138-152 | on the engine built from one token `A` at (0,0), the entry `A:1,1` as written leaves `A` on both (0,0) and (1,1), and the engine is no longer coherent |
| Engines.StaleTileListedTwice | Assets/Scripts/Engine/Engine.cs:152 | after that entry the board state reads `A:1,1;A:1,1` |
| Engines.LoneTokenBuilt | Assets/Scripts/Engine/Engine.cs:14-24 | the constructor builds that one-token engine |
| Engines.PlaceEntry | Assets/Scripts/Engine/Engine.cs:136-152 | placing an entry fails exactly when its cell is off the board |
| Engines.PlaceEntryEffect | Assets/Scripts/Engine/Engine.cs:136-152 | the named token is indexed and stands on the entry's cell with its coordinates; a new name gets a "Player 1" token without offsets; a known token keeps its owner and offsets; other names are unchanged |
| Engines.PlaceEntryCoherent | Assets/Scripts/Engine/Engine.cs:136-152 | placing an entry keeps a coherent engine coherent |
| Engines.PlaceEntryMovesOnce | Assets/Scripts/Engine/Engine.cs:138-152 | with the old tile emptied, the entry `A:1,1` leaves `A` on (1,1) alone and the engine coherent |
| Engines.HandleBoardState | Assets/Scripts/Engine/Engine.cs:121-154 | the loop with its body as written keeps the engine valid, and the empty state throws |
| Engines.ApplyAllKeepsTiles | Assets/Scripts/Engine/Engine.cs:126-153 | the loop as written never empties a tile: every tile occupied before is occupied afterwards |
| Engines.HandleBoardStateDuplicates | Assets/Scripts/Engine/Engine.cs:121-154 | the state `A:1,1` given to the engine built from `A` at (0,0) leaves `A` on both (0,0) and (1,1) |
| Engines.HandleBoardStateCorrected | Assets/Scripts/Engine/Engine.cs:121-154 | the loop with the corrected entry keeps the engine valid, and the empty state throws |
| Engines.ApplyAllCorrectedCoherent | Assets/Scripts/Engine/Engine.cs:126-153 | the corrected loop keeps a coherent engine coherent |
| Engines.ApplyAllRestating | Assets/Scripts/Engine/Engine.cs:126-153 | entries that each restate the engine leave it unchanged under the loop as written |
| Engines.RestatesCorrected | Assets/Scripts/Engine/Engine.cs:136-152 | an entry that the as-written body leaves without effect is also without effect under the corrected body |
| Engines.ApplyAllCorrectedRestating | Assets/Scripts/Engine/Engine.cs:126-153 | entries that each restate the engine leave it unchanged under the corrected loop too |
| Engines.EntriesRestate | Assets/Scripts/Engine/Engine.cs:172-183 | every entry the scan writes for a coherent engine restates that engine |
| Engines.GetBoardStateIsJoin | Assets/Scripts/Engine/Engine.cs:168-186 | the board state is the occupied tiles' `name:x,y` in row-major order joined by `;`, with no trailing `;` |
| Engines.GetBoardState | Assets/Scripts/Engine/Engine.cs:168-186 | the board state never ends in `;`, and an empty board's state is the empty text |
| Engines.BoardStateRoundTrip | Assets/Scripts/Engine/Engine.cs:121-186 | on a coherent non-empty engine whose names hold no `:` or `;`, reading back its own board state as written leaves the engine unchanged |
| Engines.BoardStateRoundTripCorrected | Assets/Scripts/Engine/Engine.cs:121-186 | the same round trip holds for the corrected reading |
| Engines.EmptyBoardState | Assets/Scripts/Engine/Engine.cs:168-186 | an empty board's state is the empty text, which reading throws on |
| Engines.TestBoardExact | Assets/Scripts/Engine/Engine.cs:191 | on a coherent engine the searched copy shows exactly the engine's grid |
| Engines.GetBestMoveAsWritten | Assets/Scripts/Engine/Engine.cs:189-223 | null is returned exactly when the player has no legal move on the copy |
| Engines.GetBestMoveAsWrittenSkipsFirst | Assets/Scripts/Engine/Engine.cs:201-222 | with a legal move, the answer is the notation of the first move when every move after it is worth int.MinValue, and otherwise of the first greatest move from the second one on: the first move is never scored |
| Engines.GetBestMove | Assets/Scripts/Engine/Engine.cs:189-223 | null is returned exactly when the player has no legal move on the copy |
| Engines.GetBestMoveIsBest | Assets/Scripts/Engine/Engine.cs:189-223 | with a legal move, the answer is the notation of the first legal move of greatest minimax value |

## Left out

- The Unity side: `MonoBehaviour` scripts, scenes, animation and timers are not part of this model, and `Debug.Log` output is dropped.
- Text.ParseInt: reads only unsigned decimal digits up to int.MaxValue. It does not model the sign, whitespace or overflow rules of .NET `int.Parse` and `int.TryParse`. A negative coordinate therefore makes a move or entry `Malformed` rather than off the board.
- Engines.HandleMove: a thrown exception is a `Failure` and the engine is dropped. The state changed before the throw is not modelled. The same holds for Engines.HandleBoardState, whose earlier entries stay applied in C#.
- Engines.BoardOf: the engine board's own name dictionary is never read through the engine, so it is not modelled. The search reads only the dictionary that `CreateCopy` rebuilds.
- Search: token objects are treated as values. In C#, the root and inner loops move tokens that belong to the parent board, which rewrites the parent token's coordinates (Board.cs:126, 161; Engine.cs:209). Later copies in the same loop then see the moved coordinates. That aliasing is not modelled.
- Search.FindBestMove, Engines.GetBestMove and Engines.GetBestMoveAsWritten require depth ≥ 1. In C#, depth 0 calls `Minimax` with depth -1, and the recursion never reaches its depth-0 base case.
- Search.FindBestMove: `None` stands for the seed `(null, (0, 0))`.
- Engines.GetBestMove: `Engine` calls `Minimax` and `GetOpponentPlayer` unqualified, but only `Board` defines them. They are modelled as the board's search.
- Null arguments are not modelled: null token names, null players of tokens, and null move or state strings. A null player argument is `None`.
- Search: a board holding a token outside the grid has no successors, because `CreateCopy` would throw on it. Engine boards never hold such a token.
- `Board.IsGameOver` always answers false, so it is left out of the depth test.
- Frame properties, such as "nothing else changes", are stated as separate lemmas rather than on the functions.

## Findings

| source | as written | input that shows it | evidently intended | confidence | as-written member | corrected member |
|---|---|---|---|---|---|---|
| Assets/Scripts/Engine/Engine.cs:201-217 | `GetBestMove` seeds with the first legal move and leaves alpha at int.MinValue, but its loop starts at index 1, so the first move is never scored | two legal moves worth 10 and 5 to the player: the move worth 5 is returned | score every move from index 0, as `Board.FindBestMove` does | medium, not executed | Engines.GetBestMoveAsWritten (with Engines.GetBestMoveAsWrittenSkipsFirst and GameTree.SecondStartSkipsFirst) | Engines.GetBestMove (with Engines.GetBestMoveIsBest) |
| Assets/Scripts/Engine/Engine.cs:138-152 | for a known token, `HandleBoardState` updates the coordinates and calls `PlaceToken`, which does not clear the old tile | an engine built from token `A` at (0,0), given `A:1,1`: tiles (0,0) and (1,1) both hold `A`, and `GetBoardState` then lists `A:1,1` twice | the token moves: its old tile is emptied | medium, not executed | Engines.HandleBoardState (with Engines.PlaceEntryAsWritten, Engines.HandleBoardStateDuplicates, Engines.PlaceEntryAsWrittenDuplicates and Engines.StaleTileListedTwice) | Engines.HandleBoardStateCorrected (with Engines.PlaceEntry, Engines.ApplyAllCorrectedCoherent, Engines.PlaceEntryCoherent and Engines.PlaceEntryMovesOnce) |
