# Flying-king draughts: rules, computer player and turn logic

This project models the rules engine of a browser draughts game on an 8x8
board where men step and capture diagonally forward and kings fly any
distance along a diagonal. It covers:

- the pieces and the board: setup, lookup, moving, removing, counting and listing a colour;
- the move generator, `getValidMoves`;
- the computer player: the forced-capture filter, the three difficulty levels, the capture-chain search, the vulnerability test, the board evaluation and the depth-limited minimax;
- the turn logic of a two-player game: selecting a piece under the forced-capture rule, playing a move, continuing a capture chain, passing the turn, and detecting a win or a draw.

The board is a value: a grid of `Option<Piece>` whose pieces always record
the square that holds them. So the computer player's board copies are the
board itself (`Search.CloneBoard`). Every operation returns a new board or
state instead of changing one in place.

Modules, in dependency order:

- `Wrappers` (wrappers.dfy): `Option`.
- `Pieces` (piece.dfy): colours and pieces.
- `Boards` (board.dfy): the grid.
- `Moves` (moves.dfy): move generation, with an independent declarative description of each legal move (`ManStep`, `ManJump`, `KingMoveOnRay`) and proofs that the generator yields exactly those moves.
- `Search` (search.dfy): the computer player's simulation, capture-chain search, evaluation and minimax.
- `AI` (ai.dfy): the move-selection policies.
- `Game` (game.dfy): the turn state machine.

Where the behaviour is unclear from the documentation, the model follows the code:

- A man captures only in its two forward directions, as `getValidMoves` does. It does not capture backwards in all four directions.
- The promotion flag is set only on a man's captures. Plain steps carry no flag.
- The computer player's chain search keeps capturing after a piece is crowned mid-chain. The turn logic ends the chain on promotion.
- A click on another of the current side's pieces during a capture chain selects that piece; the source does not lock the chain to the moving piece.

## Model

| member | source | states |
|---|---|---|
| Pieces.NewPiece | js/classes/Piece.js:3-8 | a new piece has the colour and square it was given and is never a king |
| Pieces.MakeKing | js/classes/Piece.js:10-12 | crowning sets the king flag and keeps colour and square; crowning a king changes nothing |
| Pieces.Opponent | js/classes/Game.js:330-332 | the side to move next is always the other colour |
| Boards.EmptyBoard | js/classes/Board.js:13-15 | the fresh grid has no piece on any square |
| Boards.GetPiece | js/classes/Board.js:36-39 | off the board there is no piece; a piece found stands on the square it records |
| Boards.RemovePiece | js/classes/Board.js:52-55 | off the board nothing changes; on it the square becomes empty and no other square changes |
| Boards.MovePiece | js/classes/Board.js:41-50 | no piece means no change; otherwise the piece, with its new coordinates and king flag kept, occupies the target, its old square is empty, and nothing else changes |
| Boards.PiecesOfColor | js/classes/Board.js:74-85 | lists exactly the pieces of the colour on the board, in row-major order |
| Boards.CountPieces | js/classes/Board.js:62-72 | the count equals the length of the colour's piece list |
| Boards.CountSetCell | js/classes/Board.js:62-72 | writing one square changes a colour's count by what left and what arrived there |
| Boards.HasValidMoves | js/classes/Board.js:88-99 | true exactly when some piece of the colour has a non-empty move list |
| Boards.Setup | js/classes/Board.js:11-34 | every square holds its starting content, whatever the board held before |
| Boards.SetupLayout | js/classes/Board.js:11-34 | the start has twelve men per side, all on squares with even row+column, black on rows 0-2 and red on rows 5-7 |
| Moves.ValidMoves | js/utils/moves.js:1-102 | no piece gives no moves; every landing is an empty square on a diagonal through the piece; every capture takes an enemy strictly between piece and landing |
| Moves.StepToExact | js/utils/moves.js:57-63 | a man's steps are exactly the empty squares one step diagonally forward |
| Moves.JumpOverExact | js/utils/moves.js:72-98 | a man's jumps are exactly the empty squares two steps forward over an adjacent enemy, with that enemy as the capture |
| Moves.ManMovesExact | js/utils/moves.js:51-98 | a man's move list holds exactly its forward steps and forward jumps |
| Moves.Ray | js/utils/moves.js:14-47 | the scan of one diagonal; RaySound, RayComplete and RayExact state that it reports exactly the legal king landings |
| Moves.KingMoves | js/utils/moves.js:8-48 | the king's list over the four diagonals; KingMovesExact states it is exactly the legal king landings |
| Moves.ManMoves | js/utils/moves.js:51-98 | the man's list; ManMovesExact states it is exactly the forward steps and forward jumps |
| Moves.RaySound | js/utils/moves.js:14-47 | every landing the scan of one diagonal reports is a legal king landing on that diagonal |
| Moves.RayComplete | js/utils/moves.js:14-47 | every legal king landing on the diagonal past the scan position is reported |
| Moves.RayExact | js/utils/moves.js:14-47 | the scan of one diagonal reports exactly the legal king landings on it |
| Moves.KingMovesExact | js/utils/moves.js:8-48 | a king's move list is exactly the legal landings over the four diagonals |
| Moves.CapturesOf | js/utils/ai.js:233 | keeps exactly the moves that capture |
| Moves.DiagonalParity | js/utils/moves.js:5 | a diagonal move keeps the parity of row+column |
| Moves.MovesKeepParity | js/utils/moves.js:1-102 | every generated move lands on a square of the same colour as the piece's |
| Moves.PromotionFlag | js/utils/moves.js:85-95 | only a man's captures carry the flag, and it is true exactly when red lands on row 0 or black on row 7 |
| Moves.KingPassesOnlyItsCapture | js/utils/moves.js:14-47 | a king's path to a landing crosses only empty squares, except the one enemy it captures |
| Moves.RayPassesOnlyItsCapture | js/utils/moves.js:30-44 | on one diagonal, a square before the landing is empty or is the captured enemy |
| Moves.KingExampleLandings | js/utils/moves.js:17-29 | a king behind one enemy may land on any of the empty squares past it |
| Moves.FlyingKingCaptureExample | js/utils/moves.js:36-44 | on a sample board the king's captures are exactly the two landings past the single enemy |
| Moves.BlockedKingRayQuiet | js/utils/moves.js:36-39 | with two enemies in a row on a diagonal, no king landing on any diagonal captures |
| Moves.SecondEnemyBlocksKing | js/utils/moves.js:36-39 | a king facing two enemies in a row has no capture: the scan stops at the second enemy |
| Moves.KingExampleOnlyCaptures | js/utils/moves.js:36-44 | no other capturing landing exists on that board along any diagonal |
| Moves.ManCapturesForwardOnlyExample | js/utils/moves.js:51-98 | a man with enemies ahead and behind captures only forward |
| Search.ChoicesOf | js/utils/ai.js:16-25 | the pairs collected are exactly the colour's pieces on the board with one of their generated moves, each landing on an empty square |
| Search.NoChoicesIffNoMoves | js/utils/ai.js:16-27 | the collection is empty exactly when the colour has no valid move |
| Search.CloneBoard | js/utils/ai.js:123-185 | the copy holds the same piece on every square |
| Search.Landed | js/utils/ai.js:205-210 | the moved piece keeps its colour, stands on the landing, and is a king iff it was one or reached its last row |
| Search.ApplyMove | js/utils/ai.js:193-211 | no piece means no change; the landing holds the moved piece, its origin and the captured square are empty, and nothing else changes |
| Search.QuietCountOneColor | js/utils/ai.js:193-211 | a move without capture onto an empty square keeps every colour's count |
| Search.CaptureCountOneColor | js/utils/ai.js:197-203 | a capture lowers a colour's count by exactly the captured piece, if it was of that colour |
| Search.CaptureRemovesOne | js/utils/ai.js:193-211 | a capture takes exactly one piece off the board and leaves the capturer on its landing |
| Search.GeneratedCapturesHaveShape | js/utils/moves.js:72-98 | every generated capture lands on an empty square and takes an enemy |
| Search.ChainDfs | js/utils/ai.js:231-245 | the depth-first chain search; ChainDfsIsUpperBound and ChainDfsIsAttained state it is the length of a longest capture chain |
| Search.MaxCaptureChain | js/utils/ai.js:218-248 | the chain search after a starting move; MaxCaptureChainIsLongest states it is the longest chain of the moved piece |
| Search.ChainDfsIsUpperBound | js/utils/ai.js:231-245 | no capture chain of the piece is longer than the search result |
| Search.ChainDfsIsAttained | js/utils/ai.js:231-245 | some capture chain of the piece is exactly as long as the search result |
| Search.ChainDfsZeroIffNoCapture | js/utils/ai.js:232-233 | the search gives 0 exactly when the piece has no capture |
| Search.MaxCaptureChainIsLongest | js/utils/ai.js:218-248 | after the starting move, the result is the length of a longest capture chain of the moved piece |
| Search.SomePieceCaptures | js/utils/ai.js:322-328 | true exactly when one of the pieces has a move capturing the target square |
| Search.PieceIsVulnerable | js/utils/ai.js:318-331 | true exactly when an opposing piece on the board has a move capturing the piece's square |
| Search.MoveLeadsToImmediateCapture | js/utils/ai.js:254-279 | the danger test; ImmediateCaptureIsVulnerability states it is the vulnerability of the moved piece after the move |
| Search.ImmediateCaptureIsVulnerability | js/utils/ai.js:254-279 | a move is dangerous exactly when the moved piece is vulnerable afterwards |
| Search.EvaluatePosition | js/utils/ai.js:381-392 | the positional score lies in 0..14, and in 4..10 on the board |
| Search.EvaluatePositionExact | js/utils/ai.js:381-392 | the score equals max(0, 10 - d) plus 4 on the first and last rows, with d the Manhattan distance to the centre (3.5, 3.5), computed in reals |
| Search.EvaluatePositionMirror | js/utils/ai.js:381-392 | the positional score is symmetric under mirroring rows or columns |
| Search.EvaluateBoard | js/utils/ai.js:287-313 | the board score; EvaluateBoardBounds bounds it by the material and EvaluateBoardZeroSum makes it zero-sum when nothing is vulnerable |
| Search.PieceScoreBounds | js/utils/ai.js:294-309 | an own piece scores 64..170 and an opposing piece -170..-84 |
| Search.EvaluateBoardBounds | js/utils/ai.js:287-313 | the board score lies between 64·own-170·opposing and 170·own-84·opposing |
| Search.EvaluateBoardZeroSum | js/utils/ai.js:287-313 | with no piece vulnerable, one side's score is the negation of the other's |
| Search.MaxOf | js/utils/ai.js:355-363 | the maximum is one of the values and no value exceeds it |
| Search.MinOf | js/utils/ai.js:364-374 | the minimum is one of the values and no value is below it |
| Search.Minimax | js/utils/ai.js:337-376 | the depth-limited search; MinimaxPicksBestChild and MinimaxNoMoves state a node's value is its best child's for the side to move, or ±9999 without a move |
| Search.MinimaxPicksBestChild | js/utils/ai.js:337-376 | at a maximising node the value is a child's value and no child's is higher; at a minimising node likewise with lower |
| Search.MinimaxNoMoves | js/utils/ai.js:350-353 | a side without moves scores -9999 for the AI and +9999 for its opponent |
| AI.RandomPick | js/utils/ai.js:48-51 | the random pick is an element of the list |
| AI.RandomPickCoversAll | js/utils/ai.js:48-51 | every element of the list can be picked |
| AI.CaptureChoices | js/utils/ai.js:30 | keeps exactly the pairs whose move captures |
| AI.Candidates | js/utils/ai.js:30-31 | only the captures when there is one, else every pair; never empty when the input is not |
| AI.CandidatesKeepCapture | js/utils/ai.js:30-31 | for any list of pairs: when one captures, some candidate captures and every candidate is a capturing pair from the list |
| AI.InsertDesc | js/utils/ai.js:66 | insertion adds exactly the new element |
| AI.InsertDescSorted | js/utils/ai.js:66 | insertion into a descending list keeps it descending |
| AI.SortDesc | js/utils/ai.js:66 | the sort yields a descending permutation of its input |
| AI.HeadIsBest | js/utils/ai.js:67 | the head of a descending list has the top score |
| AI.SortDescCount | js/utils/ai.js:80-81 | sorting keeps the number of elements scoring above any bound |
| AI.CountAboveDescending | js/utils/ai.js:80-81 | in a descending list at most i elements score above the i-th |
| AI.ScoreIs | js/utils/ai.js:68 | keeps exactly the elements with the given score |
| AI.ScoreAtLeast | js/utils/ai.js:104 | keeps exactly the elements scoring at least the bound |
| AI.ChainScored | js/utils/ai.js:61-64 | each pair is scored with its longest capture chain |
| AI.SafetyScored | js/utils/ai.js:73-78 | each pair is scored with its landing's positional score, minus 30 when it can be captured at once |
| AI.HardScored | js/utils/ai.js:89-97 | each pair is scored with the depth-2 minimax value of the board after it |
| AI.MediumCapture | js/utils/ai.js:59-69 | among captures, the pick has the longest chain of all |
| AI.MediumQuiet | js/utils/ai.js:73-82 | without captures, fewer than three pairs score higher than the pick |
| AI.MediumMove | js/utils/ai.js:56-83 | the medium pick is a capture with the longest chain when one exists, otherwise among the three safest-scoring moves |
| AI.HardMove | js/utils/ai.js:88-106 | the hard pick scores within 10 of the best minimax score |
| AI.Policy | js/utils/ai.js:33-42 | the pick is a candidate; at medium it is a capture with the longest chain when captures exist, otherwise fewer than three candidates score higher on safety; at hard it is within 10 of the best minimax score; easy and unknown levels pick any candidate |
| AI.BestMove | js/utils/ai.js:15-43 | nothing exactly when the side cannot move; otherwise a candidate, and a capture when one exists; at medium the longest chain among captures, or without captures fewer than three moves safer; at hard within 10 of the best minimax score |
| AI.BestMoveIsPlayable | js/utils/ai.js:15-43 | the chosen pair is a generated move of one of the AI's own pieces on the board |
| Game.Reset | js/classes/Game.js:409-426 | the game restarts in the initial layout with red to move, nothing selected, counter 0, and the game on |
| Game.SwitchTurn | js/classes/Game.js:330-334 | the other side moves and nothing else changes |
| Game.SwitchTurnTwice | js/classes/Game.js:330-334 | passing the turn twice restores the state |
| Game.CheckGameEnd | js/classes/Game.js:336-368 | a side with no pieces loses (black wins if both have none); then the side to move with no move loses; then fifty quiet moves draw; otherwise play goes on |
| Game.FindMove | js/classes/Game.js:199 | finds the first highlighted move landing on the square, or reports that none does |
| Game.PlayOn | js/classes/Game.js:212-245 | the captured piece is removed, the piece moves and is crowned on its last row, and no other square changes |
| Game.HandleMove | js/classes/Game.js:198-288 | a square not highlighted drops the selection; otherwise the move is played and the counter updated; the same piece keeps the turn while it can capture again and was not just crowned; else the turn passes and the end is checked |
| Game.Click | js/classes/Game.js:136-195 | the click handler; FreeSelection, ForcedCapture, ClickElsewhereMoves, MissedClickDeselects, FinishedGameIsFrozen and ClickKeepsValid state its effects |
| Game.ClickKeepsValid | js/classes/Game.js:136-195 | a click keeps the selection consistent: own piece, on the board, generated moves, only captures while the side can capture |
| Game.HandleMoveKeepsValid | js/classes/Game.js:198-288 | playing a move keeps the selection consistent and the pieces on dark squares |
| Game.DiagonalMoveKeepsDarkSquares | js/classes/Game.js:229 | moving along a diagonal keeps every piece on a dark square |
| Game.PlayOnKeepsDarkSquares | js/classes/Game.js:212-245 | a played move keeps every piece on a dark square |
| Game.ForcedCapture | js/classes/Game.js:152-185 | while the side can capture, a piece without a capture cannot be selected and a selected piece has only its captures highlighted |
| Game.FreeSelection | js/classes/Game.js:181-184 | when no capture is forced, clicking one of the side's pieces selects it with all its generated moves highlighted and changes nothing else |
| Game.ClickElsewhereMoves | js/classes/Game.js:191-194 | with a piece selected, a click on a square without a piece of the side to move is exactly a move attempt |
| Game.MissedClickDeselects | js/classes/Game.js:282-287 | a click on an empty square that is not highlighted drops the selection and nothing else |
| Game.CaptureTakesOnePiece | js/classes/Game.js:212-226 | a capture takes one opposing piece, keeps the mover's pieces and resets the counter |
| Game.QuietMoveCounts | js/classes/Game.js:212-229 | a move without capture adds one to the counter, passes the turn, and leaves every colour's number of pieces unchanged |
| Game.MovedPieceCrowned | js/classes/Game.js:229-245 | the moved piece stands on its target, crowned if it reached its last row |
| Game.FinishedGameIsFrozen | js/classes/Game.js:138-139 | once the game is over clicks change nothing |

## Left out

- Rendering, sound, status text, piece-count callbacks, the end-of-game callback (`endGame` beyond setting the outcome) and the page wiring: they are output only.
- The game's computer-opponent mode (`isAITurn`, `makeAIMove`, its timers) and online mode (`setOnlineMode`, `makeRemoteMove`, the move callback): they drive the same `handleMove` from timers and the network.
- `CheckersAI.makeMove`: a timer around a callback.
- `Math.random`: replaced by a caller-supplied `draw`, and the pick is the element at `draw % n`.
- The branch of `handleMove` that removes an array of captures: the move generator only ever produces one captured square per move.
- The fallbacks that look a piece up by colour and coordinates when the copy lookup fails: in this model a piece always stands on the square it records, so they never run. In `getMaxCaptureChain` that fallback assigns to a `const` and would throw.
- The board size is fixed at 8. `isPromotion` uses row 7 literally, which equals the last row only at that size.
- Boards.MovePiece: requires in-bounds origin and target; off the board the source throws (a row outside the grid) or writes past the end of a row (a column outside it).
- AI.SortDesc: stability of the sort (ties keep their order) is not stated in the contract.
- AI.MediumQuiet: states that fewer than three moves score above the pick, not which of several tied moves the stable sort keeps among the first three.
- AI.MediumMove: its no-capture clause has the same gap as AI.MediumQuiet.
- AI.Policy: its medium no-capture clause has the same gap as AI.MediumQuiet.
- AI.BestMove: its medium no-capture clause has the same gap as AI.MediumQuiet.
- AI.RandomPick: the uniform distribution of `Math.random` is not modelled, only that every element can be chosen.
- Search.Minimax: the depth-0 case is stated only through its definition as `EvaluateBoard`.
- Game.Click: the status message shown when a piece without a capture is clicked is not modelled.
