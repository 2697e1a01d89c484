# Blokus-style board game: verified model of the rules engine

This project models the core of a browser-and-server Blokus-style game in Dafny and proves
properties of that model. Two or four players take turns placing polyomino pieces on a square board.
The board has 14 cells a side for two players and 20 for four. Each player's pieces are the
21 pieces of the catalog, 89 cells in all. The modelled parts are:

- **`Pieces`** (backend/pieces.py). The piece catalog and the geometry of a piece: rotation by a
  right angle, the horizontal flip, normalisation to the origin, the transform that combines all
  three, and the bounding box. These are pure functions, with lemmas about the geometry and about
  the catalog's cell count.
- **`Rules`** (backend/game_logic.py). The placement rule of `is_valid_position` as a function
  `Validate`. The rule checks:
  - that every cell is on the board and free;
  - that no cell touches one of the player's own cells along an edge;
  - that a first move covers the player's start corner;
  - that a later move touches one of the player's own cells at a corner.

  The module also holds the move-search predicates, the turn cycle `current % max + 1`, and the
  winner rule "fewest remaining cells, a tie when several share it".
- **`GameLogic`** (backend/game_logic.py, class `Game`). The engine as a class. The board is a
  field written cell by cell, and the players' hands are a map field. Every method is proved
  against the functions of `Rules`:
  - placing a piece (error checks in the source's order, stamping, hand update, turn switch,
    end-of-game check);
  - the search for any playable piece;
  - the skip loop that passes the turn to the next player able to move;
  - scores and the winner;
  - the list of valid anchor positions.
- **`Rooms`** (backend/game_logic.py, class `GameRoom`). A room of sockets that get player numbers.
  It starts a game when full and forwards moves and queries to its game. `GameRoom.AddPlayer`
  gives a joining socket the least free seat rather than the room's size plus one; while
  sockets only join the two are equal (`Rooms.JoinNumberMatchesAsWritten`), and they part
  after a socket has left (see "## Findings").
- **`FrontendPieces`** (frontend/src/utils/pieces.js). The browser's copy of the catalog and the
  geometry, each proved to agree with the server's at the right angles.
- **`Config`** (frontend/src/config.js). The server settings taken from three build variables,
  with their defaults, and the server, socket and API URLs built from them.

## Model

| member | source | states |
|---|---|---|
| Pieces.GetAllPieceIds | backend/pieces.py:229-230 | 21 distinct ids, exactly the keys of the catalog |
| Pieces.GetPlayerPieces | backend/pieces.py:233-234 | a dealt hand holds each of the 21 catalog pieces once |
| Pieces.CatalogTotal | backend/pieces.py:4-161 | the catalog has 21 pieces whose sizes add up to 89 cells |
| Pieces.CatalogEntries | backend/pieces.py:4-161 | every catalog entry has a first shape of `size` distinct non-negative cells |
| Pieces.CatalogRows | backend/pieces.py:4-161 | each entry is well formed and has the size its row declares (1, 2, 3, 3, 4×5, 5×12) |
| Pieces.CellTotalAppend | backend/game_logic.py:200-203 | the remaining-cell sum of two hands joined is the sum of their sums |
| Pieces.CellTotalPermutation | backend/game_logic.py:200-203 | the remaining-cell sum does not depend on the order of the hand |
| Pieces.CellTotalSplitAt | backend/game_logic.py:200-203 | a hand's sum is the part before a piece, the piece and the part after |
| Pieces.CellTotalOfRows | backend/pieces.py:4-161 | 21 ids with the catalog's row sizes sum to 89 |
| Pieces.CellTotalRun | backend/pieces.py:4-161 | a run of ids of equal size c contributes c per id |
| Pieces.CardinalityOfIds | backend/pieces.py:229-230 | a duplicate-free id list has as many ids as the set it enumerates |
| Pieces.SizeOf | backend/game_logic.py:200-203 | the size of a known piece, at least 1 in a well-formed table; an unknown id counts 0 |
| Pieces.CellTotal | backend/game_logic.py:258-264 | the remaining cells of a hand, the sum of its pieces' sizes (Pieces.CellTotalAppend, Pieces.CellTotalPermutation and Pieces.PieceWithinTotal state its properties) |
| Pieces.PieceWithinTotal | backend/game_logic.py:258-264 | a hand's remaining cells are no fewer than the size of any piece in it |
| Pieces.Rotate | backend/pieces.py:163-177 | rotation keeps the number of cells |
| Pieces.QuarterTurn | backend/pieces.py:171 | a quarter turn keeps a cell's distance from the origin and moves every cell but the origin |
| Pieces.RotateOtherAngles | backend/pieces.py:163-177 | any angle other than 90, 180 and 270 leaves the shape unchanged |
| Pieces.RotateHalfIsTwoQuarters | backend/pieces.py:163-177 | 180 degrees is two quarter turns |
| Pieces.RotateThreeQuartersIsThreeQuarters | backend/pieces.py:163-177 | 270 degrees is three quarter turns |
| Pieces.FourQuarterTurns | backend/pieces.py:163-177 | four quarter turns give the shape back |
| Pieces.RotateKeepsDistinct | backend/pieces.py:163-177 | rotation never merges two cells |
| Pieces.FlipPiece | backend/pieces.py:179-187 | the flip keeps the number of cells |
| Pieces.FlipInvolution | backend/pieces.py:179-187 | flipping twice gives the shape back |
| Pieces.FlipKeepsDistinct | backend/pieces.py:179-187 | the flip never merges two cells |
| Pieces.MinX | backend/pieces.py:193 | the least x of a non-empty shape: a lower bound attained by some cell |
| Pieces.MinY | backend/pieces.py:194 | the least y: a lower bound attained by some cell |
| Pieces.MaxX | backend/pieces.py:223 | the greatest x: an upper bound attained by some cell |
| Pieces.MaxY | backend/pieces.py:225 | the greatest y: an upper bound attained by some cell |
| Pieces.Translate | backend/pieces.py:195 | a shift keeps the number of cells |
| Pieces.TranslateKeepsDistinct | backend/pieces.py:195 | a shift never merges two cells |
| Pieces.MinOfTranslate | backend/pieces.py:189-195 | shifting by (dx, dy) shifts the least x and y by the same amounts |
| Pieces.Normalize | backend/pieces.py:189-195 | each cell moves by (-min x, -min y); the result has least x and y 0 and no negative coordinate |
| Pieces.NormalizeIdempotent | backend/pieces.py:189-195 | normalising twice is normalising once |
| Pieces.NormalizeTranslationInvariant | backend/pieces.py:189-195 | a shifted shape normalises to the same cells |
| Pieces.NormalizeKeepsDistinct | backend/pieces.py:189-195 | normalisation never merges two cells |
| Pieces.TransformKeepsCells | backend/pieces.py:197-216 | flip, rotate and normalise keep the cell count and distinctness, and give non-negative cells |
| Pieces.TransformIn | backend/pieces.py:197-216 | None exactly for an unknown id; otherwise `size` distinct non-negative cells |
| Pieces.GetTransformedPiece | backend/pieces.py:197-216 | None exactly when the id is not in the catalog |
| Pieces.TransformedPieceFacts | backend/pieces.py:197-216 | every catalog id transforms to `size` distinct non-negative cells, at any angle and flip |
| Pieces.GetPieceBounds | backend/pieces.py:218-226 | the tightest box: every cell inside it, and each of its four sides reached by some cell |
| Pieces.MultisetWithout | backend/game_logic.py:115-117 | cutting one element out of a list removes one occurrence from its multiset |
| Rules.FirstBlocked | backend/game_logic.py:29-35 | the first cell check refuses only for out of bounds or occupied |
| Rules.CellCheck | backend/game_logic.py:29-35 | no refusal iff the cell is on the board and free; "out of bounds" iff it is off the board |
| Rules.TouchesEdge | backend/game_logic.py:37-42 | some target cell has an orthogonal neighbour on the board that the player covers (the refusal condition, used by Rules.ValidateAccepts) |
| Rules.TouchesCorner | backend/game_logic.py:68-80 | some target cell has a diagonal neighbour on the board that the player covers (the later-move condition, used by Rules.ValidateAccepts) |
| Rules.Validate | backend/game_logic.py:24-83 | refused as out of bounds or occupied iff some target cell is off the board or covered; refused as unknown player only for an unseated player; accepted only for a seated player |
| Rules.FirstBlockedIsFirst | backend/game_logic.py:29-35 | no refusal iff every cell passes; a refusal is the verdict of the first cell that fails |
| Rules.AllFree | backend/game_logic.py:29-35 | the cell loop passes iff every target cell is on the board and free |
| Rules.StartCorner | backend/game_logic.py:46-66 | a start corner exists only for players 1-4 (1-2 in a two-player game) and is a board corner |
| Rules.ValidateAccepts | backend/game_logic.py:24-83 | accepted iff all cells free, no edge contact with own cells, the player is seated, and the corner rule of the first move or the diagonal-contact rule holds |
| Rules.StartCornerCovered | backend/game_logic.py:46-66 | an accepted first move covers that player's corner: (0,0); (n-1,n-1) for player 2 of two; otherwise (n-1,0), (n-1,n-1), (0,n-1) |
| Rules.MoveFromWitness | backend/game_logic.py:147-160 | one accepted piece, angle, flip and anchor is a move |
| Rules.FitsSomewhere | backend/game_logic.py:156-160 | some anchor on the board passes the placement check (used by Game.AnchorSearch) |
| Rules.OrientationFits | backend/game_logic.py:151-160 | the piece is known and, turned and flipped as given, fits somewhere (used by Game.OrientationSearch) |
| Rules.PieceFits | backend/game_logic.py:149-160 | one of the four angles with or without the flip fits (used by Game.PieceSearch) |
| Rules.HasMove | backend/game_logic.py:140-162 | some piece of the hand fits (used by Game.CanPlayerPlaceAnyPiece, Rules.MoveFromWitness and Rules.HasMoveSubhand) |
| Rules.HasMoveSubhand | backend/game_logic.py:147-160 | a move with part of a hand is a move with the whole hand |
| Rules.EmptyHandHasNoMove | backend/game_logic.py:147-162 | a player with no pieces left has no move |
| Rules.Cycle | backend/game_logic.py:133-138 | the turn counter after k switches is always a seat 1..max_players |
| Rules.CycleAdd | backend/game_logic.py:133-138 | j switches then k switches is j+k switches |
| Rules.CycleZero | backend/game_logic.py:133-138 | zero switches leave a seated player's turn unchanged |
| Rules.CycleFullRound | backend/game_logic.py:133-138 | max_players switches come back to the same player |
| Rules.CycleDistinct | backend/game_logic.py:183-195 | fewer than max_players switches never visit a seat twice |
| Rules.CycleReaches | backend/game_logic.py:183-195 | every seat is reached within max_players switches |
| Rules.WinnerOf | backend/game_logic.py:197-212 | a winner iff one player has strictly the fewest cells left, and then that player; a tie only when two players share the minimum; never "no winner" |
| Rules.LeaderExists | backend/game_logic.py:206 | a non-empty score table has a player with the fewest cells left |
| Rules.StrictLeaderIsWinner | backend/game_logic.py:209-212 | a player strictly ahead of all others is the winner |
| Rules.StrictLeaderUnique | backend/game_logic.py:207-212 | at most one player is strictly ahead |
| GameLogic.PlacedIds | backend/game_logic.py:117-123 | the ids of the placement records, in order |
| GameLogic.RemoveFirst | backend/game_logic.py:115-117 | removing a piece from a hand drops exactly one copy of it |
| GameLogic.Stamped | backend/game_logic.py:110-112 | stamping keeps the board's shape |
| GameLogic.ScoresOf | backend/game_logic.py:258-264 | a score for exactly the seated players; empty only without players |
| GameLogic.AfterPlacing | backend/game_logic.py:115-123 | the piece leaves the hand (one copy), its id is appended to the placed ids, the first move is over, the socket id stays |
| GameLogic.Movers | backend/game_logic.py:167-174 | exactly the players for whom a move exists |
| GameLogic.Settle | backend/game_logic.py:164-195 | a finished game stays finished; nobody able to move ends the game with the winner decided; the winner changes only when this check ends the game |
| GameLogic.SkipsToUnique | backend/game_logic.py:183-195 | the skip loop can stop at only one count |
| GameLogic.SettleSkips | backend/game_logic.py:183-195 | when the current player cannot move, the turn goes to the first mover in seat order, game not over |
| GameLogic.SettleOutcome | backend/game_logic.py:164-195 | after the check: the game is over iff nobody can move, and then the winner is decided; otherwise the turn rests with a player who can move |
| GameLogic.FirstMover | backend/game_logic.py:183-195 | if some seat within a round can move, the loop stops at a first such seat |
| GameLogic.Refusal | backend/game_logic.py:87-107 | "game over" whenever the game is over; "not your turn" iff the game runs and it is another player's turn; a position refusal only after every earlier check passed; never the unseated-player refusal |
| GameLogic.PlacementAllowed | backend/game_logic.py:85-107 | place_piece refuses nothing iff the game runs, it is p's turn, p is seated, the piece is in p's hand and the catalog, and the placement is valid |
| GameLogic.PlacedIdsAppend | backend/game_logic.py:117-123 | recording a placement appends its id |
| GameLogic.UpdateKeepsKeys | backend/game_logic.py:115-123 | updating a seated player's record seats nobody new |
| GameLogic.AccountedAfterPlacing | backend/game_logic.py:115-123 | a placement keeps hand plus placed pieces equal to the dealt hand, and ends the first move |
| GameLogic.CellsAccounted | backend/game_logic.py:115-123 | cells in hand plus cells placed equal the cells dealt |
| GameLogic.HandPlusPlaced | backend/game_logic.py:115-123 | pieces in hand plus pieces placed equal the pieces dealt |
| GameLogic.ScoreAccounting | backend/game_logic.py:258-264 | with the real catalog, remaining cells plus placed cells are always 89 |
| GameLogic.ScoreAfterRemoval | backend/game_logic.py:115-117 | playing a piece lowers the remaining cells by its size |
| GameLogic.StampKeepsCovered | backend/game_logic.py:110-112 | stamping onto free cells changes no occupied cell, and marks exactly the target cells |
| GameLogic.KeepsCovered | backend/game_logic.py:110-112 | no covered cell of the old board differs on the new one (kept by Game.StampPiece, Game.Commit, Game.Proceed and Game.PlacePiece) |
| GameLogic.AcceptedCellsFree | backend/game_logic.py:29-35 | an accepted placement lies on free cells only |
| GameLogic.BoardsEqual | backend/game_logic.py:110-112 | two boards of one size that agree cell by cell are equal |
| GameLogic.FirstBlockedFrom | backend/game_logic.py:29-35 | when the first i cells pass, cell i's refusal is the loop's verdict |
| GameLogic.Game.constructor | backend/game_logic.py:5-12 | an empty board of 14 (two players) or 20 (four players), no players, player 1 to move, game not over |
| GameLogic.Game.AddPlayer | backend/game_logic.py:14-22 | the seat gets a full hand, nothing placed, first move pending; nothing else changes |
| GameLogic.Game.FirstBlockedCell | backend/game_logic.py:29-35 | the loop's refusal is `FirstBlocked` of the shifted cells; with none it returns those cells |
| GameLogic.Game.NeighbourOwned | backend/game_logic.py:38-43 | true iff some cell has a neighbour in the given four directions owned by p |
| GameLogic.Game.IsValidPosition | backend/game_logic.py:24-83 | the verdict is `Validate` of the board, the cells, the anchor and p's first-move flag |
| GameLogic.Game.SwitchPlayer | backend/game_logic.py:133-138 | the turn moves one seat on in the cycle; nothing else changes |
| GameLogic.Game.AnchorSearch | backend/game_logic.py:156-160 | true iff some anchor on the board accepts the cells |
| GameLogic.Game.OrientationSearch | backend/game_logic.py:151-160 | true iff the piece at that angle and flip fits somewhere |
| GameLogic.Game.PieceSearch | backend/game_logic.py:149-160 | true iff some angle of 0/90/180/270 and some flip fits |
| GameLogic.Game.CanPlayerPlaceAnyPiece | backend/game_logic.py:140-162 | true iff p is seated and some piece in p's hand has a move |
| GameLogic.Game.GetScores | backend/game_logic.py:258-264 | the remaining cells of each seated player |
| GameLogic.Game.LowestScore | backend/game_logic.py:206 | the minimum of the scores: a score some player has, no greater than any player's |
| GameLogic.Game.ScoreHolders | backend/game_logic.py:207 | distinct players, exactly those with the given score |
| GameLogic.Game.FindWinner | backend/game_logic.py:197-212 | the winner rule `WinnerOf` applied to the current scores |
| GameLogic.Game.DetermineWinner | backend/game_logic.py:197-212 | sets the winner by `WinnerOf`; board, players and turn unchanged |
| GameLogic.Game.PlayersCanPlay | backend/game_logic.py:167-180 | exactly the players with a move; "all finished" iff there are none |
| GameLogic.Game.SkipToPlayable | backend/game_logic.py:183-195 | stops at the first seat in cycle order that can move, within max_players attempts; reaches max_players only when no seat can |
| GameLogic.Game.CheckGameOver | backend/game_logic.py:164-195 | turn, over flag and winner become `Settle` of the movers and scores: over iff nobody can move |
| GameLogic.Game.StampCells | backend/game_logic.py:110-112 | the board becomes the old board with the shifted cells set to p |
| GameLogic.Game.Commit | backend/game_logic.py:110-123 | stamp plus hand update; occupied cells keep their owner |
| GameLogic.Game.StampPiece | backend/game_logic.py:110-112 | stamping free cells keeps the invariant and every occupied cell |
| GameLogic.Game.RecordPlacement | backend/game_logic.py:115-123 | the piece leaves the hand, a record is added, the first move ends |
| GameLogic.Game.CheckPlacement | backend/game_logic.py:87-107 | the first refusal in the source's order; with none, the transformed cells are valid for p |
| GameLogic.Game.PlacePiece | backend/game_logic.py:85-131 | fails iff `Refusal` says so, with that error and no change; no covered cell ever changes and nobody new is seated; on success stamps the cells, updates the hand, passes the turn and settles the game |
| GameLogic.Game.Proceed | backend/game_logic.py:110-131 | stamp, record, switch and check, stated as the new board, players and settled turn |
| GameLogic.Game.GetValidPositions | backend/game_logic.py:214-237 | no anchors for an unknown piece; otherwise exactly the accepted anchors, in the source's column-major order |
| GameLogic.Game.ScanAnchors | backend/game_logic.py:228-237 | exactly the accepted anchors, ascending |
| GameLogic.Game.ScanColumn | backend/game_logic.py:229-236 | extends the found anchors with the accepted ones of one column, keeping the order |
| Rooms.AsWrittenNumberingRepeats | backend/game_logic.py:281 | as written, join-leave-join leaves two sockets on seat 2 and seat 1 empty |
| Rooms.JoinNumberAsWritten | backend/game_logic.py:281 | the number add_player hands out as written: the room's size plus one (used by Rooms.RejoinScenario and Rooms.JoinNumberMatchesAsWritten) |
| Rooms.RejoinScenario | backend/game_logic.py:276-292 | the room after A and B join, A leaves and C joins, numbered as written (used by Rooms.AsWrittenNumberingRepeats) |
| Rooms.LeastFreeFrom | backend/game_logic.py:281 | the least unused seat from k on |
| Rooms.JoinNumber | backend/game_logic.py:281 | a joining socket gets the least seat not in use, within 1..max_players |
| Rooms.JoinNumberMatchesAsWritten | backend/game_logic.py:281 | while sockets only join (seats 1..n held by n sockets) the least free seat is the source's n + 1 |
| Rooms.TableSize | backend/game_logic.py:294-301 | seats 1..max_players are max_players seats |
| Rooms.SeatsCount | backend/game_logic.py:276-287 | with distinct numbers, one seat per socket |
| Rooms.SubsetSize | backend/game_logic.py:276-287 | a subset is no larger than its superset |
| Rooms.FreeSeatExists | backend/game_logic.py:276-287 | a room below capacity has a free seat |
| Rooms.FullRoomHoldsTable | backend/game_logic.py:294-301 | a full room with distinct numbers occupies exactly seats 1..max_players |
| Rooms.JoinKeepsSeats | backend/game_logic.py:276-287 | joining keeps the numbers distinct, in range and within capacity |
| Rooms.SeatedExactly | backend/game_logic.py:297-300 | seating every socket's number, and nothing else, gives the set of used numbers |
| Rooms.RoomGameSettles | backend/game_logic.py:164-195 | in a room's running game every player able to move sits at the table, so the end-of-game check ends the game iff nobody can move and otherwise hands the turn to a mover |
| Rooms.GameRoom.constructor | backend/game_logic.py:268-274 | an empty waiting room without a game |
| Rooms.GameRoom.AddPlayer | backend/game_logic.py:276-287 | None when full; otherwise the socket is added with a fresh seat |
| Rooms.GameRoom.RemovePlayer | backend/game_logic.py:289-292 | the socket is gone; nothing else changes |
| Rooms.GameRoom.CanStartGame | backend/game_logic.py:303-305 | true iff the room is full |
| Rooms.GameRoom.StartGame | backend/game_logic.py:294-301 | when full, a fresh game seats every socket at its number with a full hand, player 1 to move; otherwise nothing changes |
| Rooms.GameRoom.NewGame | backend/game_logic.py:296 | a fresh empty game for the room's player count |
| Rooms.GameRoom.SeatAll | backend/game_logic.py:297-300 | the game's seats are exactly the room's numbers, each with a full hand |
| Rooms.GameRoom.SeatedGame | backend/game_logic.py:294-300 | for a full room: an empty fresh game that seats exactly seats 1..max_players, each socket at its number with a full hand, player 1 to move |
| Rooms.GameRoom.Install | backend/game_logic.py:299-301 | the room takes up the game, is playing, and mirrors player 1's turn; its sockets are unchanged and its invariant (the game seats exactly 1..max_players) holds |
| Rooms.GameRoom.PlacePiece | backend/game_logic.py:307-330 | "not started" without a game, "not in room" for a stranger; a success mirrors the game's turn and end into the room |
| Rooms.GameRoom.Forward | backend/game_logic.py:322-323 | the game's answer; a success was p's turn in a running game, a failure changes nothing |
| Rooms.GameRoom.GetValidPositions | backend/game_logic.py:332-353 | no anchors without a game or for a stranger; otherwise the game's anchors for the socket's seat |
| Rooms.GameRoom.IsGameOver | backend/game_logic.py:355-357 | true iff a game exists and is over, iff the room is finished |
| Rooms.GameRoom.GetWinner | backend/game_logic.py:359-363 | the game's winner, none without a game; a winner exists iff the room is finished |
| Rooms.GameRoom.GetScores | backend/game_logic.py:365-369 | empty without a game, otherwise the game's scores |
| FrontendPieces.CatalogsAgree | frontend/src/utils/pieces.js:1-87 | same ids as the server, and each browser shape is the server's first shape |
| FrontendPieces.TurnAll | frontend/src/utils/pieces.js:97 | one pass of the loop: same number of cells, distinct exactly when the input is (Turned and FullTurn build on it) |
| FrontendPieces.Turned | frontend/src/utils/pieces.js:96-98 | k passes of the loop: same number of cells, distinct exactly when the input is |
| FrontendPieces.TurnCount | frontend/src/utils/pieces.js:90-101 | the number of loop passes: the least c with 90·c ≥ rotation |
| FrontendPieces.RotatePiece | frontend/src/utils/pieces.js:90-101 | the shape turned `TurnCount(rotation)` quarter turns |
| FrontendPieces.TurnAllIsRotate90 | frontend/src/utils/pieces.js:90-101 | one browser quarter turn equals the server's 90 degrees |
| FrontendPieces.FullTurn | frontend/src/utils/pieces.js:90-101 | four quarter turns give the shape back |
| FrontendPieces.RotationAgrees | frontend/src/utils/pieces.js:90-101 | at 0, 90, 180, 270 and 360 degrees the browser and server rotations agree |
| FrontendPieces.OffGridRotationDiffers | frontend/src/utils/pieces.js:90-101 | at 45 degrees they part: the browser turns once, the server not at all |
| FrontendPieces.FlipPiece | frontend/src/utils/pieces.js:104-107 | the flip keeps the number of cells |
| FrontendPieces.FlipAgrees | frontend/src/utils/pieces.js:104-107 | equals the server's horizontal flip and undoes itself |
| FrontendPieces.NormalizeCoords | frontend/src/utils/pieces.js:110-115 | same length; for a non-empty shape the server's normalisation, least x and y 0, no negatives |
| FrontendPieces.NormalizeCoordsIdempotent | frontend/src/utils/pieces.js:110-115 | normalising twice is normalising once |
| FrontendPieces.TransformedPiece | frontend/src/utils/pieces.js:118-136 | null exactly for an unknown id |
| FrontendPieces.GetTransformedPiece | frontend/src/utils/pieces.js:118-136 | flip, rotate, normalise, as `TransformedPiece` defines |
| FrontendPieces.TransformsAgree | frontend/src/utils/pieces.js:118-136 | at the right angles the browser draws the very cells the server checks |
| FrontendPieces.GetPieceBounds | frontend/src/utils/pieces.js:139-150 | none for no cells; width and height at least 1 and equal to the extent; extremes equal the server's bounds |
| Config.DigitRun | frontend/src/config.js:14 | the length of the leading digit run |
| Config.DigitsValue | frontend/src/config.js:14 | the value of a digit string: 0 exactly for a string of zeros (Config.NatTextValue reads back every number's text) |
| Config.ParseInt | frontend/src/config.js:14 | NaN iff no digit follows the optional sign |
| Config.NatText | frontend/src/config.js:30 | the decimal text of a number: non-empty, digits only |
| Config.NatTextValue | frontend/src/config.js:30 | reading the decimal text back gives the number |
| Config.NumberText | frontend/src/config.js:30 | a template number is never written as empty text |
| Config.NumberTextRoundTrip | frontend/src/config.js:14-30 | parseInt reads back every integer the template writes |
| Config.DigitRunAll | frontend/src/config.js:14 | a string of digits is one run |
| Config.OrDefault | frontend/src/config.js:7-8 | the fallback iff the variable is unset, empty or the fallback itself; otherwise the variable's text |
| Config.GetEnvConfig | frontend/src/config.js:5-17 | host and port fall back to the defaults; SSL unless the variable is exactly "false" |
| Config.PortPart | frontend/src/config.js:27-29 | empty iff the port is the scheme's standard one, else ":" and the port |
| Config.StandardPort | frontend/src/config.js:27-28 | a standard port is a number, and it is 443 exactly with SSL (80 otherwise) |
| Config.GetServerUrl | frontend/src/config.js:24-31 | https:// iff SSL (else http://), then the host, then the port part |
| Config.GetSocketUrl | frontend/src/config.js:34-36 | the server URL itself |
| Config.GetApiUrl | frontend/src/config.js:39-41 | the server URL followed by /api |
| Config.PortRecoverable | frontend/src/config.js:27-30 | on a non-standard port, the digits after the colon read back as the configured port |
| Config.AppConfig | frontend/src/config.js:5-17 | with nothing set: the public host, port 443, SSL |
| Config.DefaultsParse | frontend/src/config.js:8 | the default port text reads as 443 |
| Config.DefaultUrls | frontend/src/config.js:24-41 | with nothing set, the server URL is https:// plus the public host with no port, and the API URL adds /api |
| Config.DevUrls | frontend/src/config.js:45-65 | the development server, socket and API URLs are https://localhost:5000 (+ /api) |

## Left out

- `get_game_state` of `Game` and of `GameRoom` (backend/game_logic.py:239-256, 371-387) only
  copy state into a dictionary for the client. They are not modelled.
- The debug `print` calls in the backend and the `console.log` of the configuration
  (frontend/src/config.js:68) are output only and are not modelled.
- The score dictionaries of the source are keyed by the string form of the player number. Here
  they are keyed by the number itself.
- Piece display names (the `name` fields of both catalogs) are not modelled. Neither is the
  unused `score` field that `add_player` stores.
- `Pieces.SizeOf` gives 0 for an id outside the table. The source would raise `KeyError` there.
  That case never arises, because hands only hold catalog ids (`Pieces.GetPlayerPieces`).
- The global catalog and the dealt hand are the `catalog` and `fullHand` fields of `Game`. The
  proofs about moves and scores hold for any well-formed table. `GameLogic.ScoreAccounting`
  states the 89-cell total for the real catalog.
- Rules.Validate: `is_valid_position` raises `KeyError` for a player number that is not seated.
  The model returns the refusal `UnknownPlayer` instead. `place_piece` rules that case out
  before it calls the check (`GameLogic.Refusal` never gives that refusal).
  `get_valid_positions` (backend/game_logic.py:214-237) calls the check for any player number,
  so there an unseated player raises `KeyError`, while `GameLogic.Game.GetValidPositions`
  returns no anchors, because `Rules.Validate` accepts nothing for an unseated player.
- Rooms.GameRoom.PlacePiece: the loop that finds a socket's number is modelled as a map lookup.
  The room-level contract states the room's own bookkeeping; the game's own contract covers the
  board and the hands.
- Rooms.GameRoom.NewGame: its contract leaves out the catalog and dealt-hand facts of the
  `Game` constructor, to keep the proof of `StartGame` small. Those facts hold by the
  constructor's contract.
- Python dictionary iteration order is not modelled. `start_game` seats the sockets in
  insertion order, which does not change the result. `determine_winner` picks the sole winner
  from a list; the model proves that list has exactly one element when a player is strictly
  ahead.
- `socket_id` is not stored in the room's per-socket record; the socket id is the map key.
- Python `min()` on an empty sequence raises. `Pieces.Normalize`, `Pieces.GetPieceBounds`,
  `GameLogic.Game.FindWinner` and `GameLogic.Game.CheckGameOver` therefore require a non-empty
  input.
- Config: reading the build environment is not modelled; the three variables are a parameter.
  `parseInt`'s skipping of leading whitespace and its `0x` prefix are not modelled (base 10,
  from the first character).
- FrontendPieces.GetPieceBounds: for no cells the script reports infinite extremes and widths;
  the model returns None.
- The browser rotates by `rotation / 90` quarter turns for any angle, while the server leaves a
  shape unchanged at any angle other than 90, 180 and 270. The two agree only at the right
  angles (`FrontendPieces.OffGridRotationDiffers`).
- FrontendPieces.TransformedPiece: the catalog is a plain object, so `PIECES[pieceId]` also
  finds inherited keys such as `toString`, `constructor` or `__proto__`. For those the
  script fails with a `TypeError` when it spreads the coordinates; the model returns None,
  as for any id outside the catalog. The interface only passes catalog ids.
- FrontendPieces.GetTransformedPiece: the same inherited-key case as `TransformedPiece`,
  which it computes: the model returns None where the script throws.
- Config.ParseInt: JavaScript numbers are doubles. Digit runs above 2^53 are rounded there,
  while the model reads them exactly.
- Config.NumberText: a template writes a number of 10^21 or more in exponent form ("1e+21"),
  and rounds above 2^53; the model writes every integer as its exact decimal digits.
- Config.NumberTextRoundTrip: holds for the exact integers of the model. In JavaScript it holds
  only for integers of magnitude up to 2^53; beyond 10^21, "1e+21" reads back as 1.
- Config.PortRecoverable: the same bound; the port variable is a port number in practice, far
  below 2^53.
- backend/app.py (the Socket.IO and HTTP server), backend/generate_ssl.py and
  backend/gunicorn.conf.py are not part of this model. Neither is any user-interface code.

## Findings

| source | as written | input that shows it | evidently intended | confidence | as-written member | corrected member |
|---|---|---|---|---|---|---|
| backend/game_logic.py:281 | a joining socket is numbered by the room's current size plus one | sockets A and B join (seats 1 and 2), A leaves, C joins: C is given 2 like B, seat 1 stays empty, and the full room starts a game in which nobody holds seat 1, the seat that moves first | each socket in a room holds its own seat in 1..max_players, so a full room fills every seat | not executed | Rooms.AsWrittenNumberingRepeats | Rooms.JoinNumber (the least free seat; used by Rooms.GameRoom.AddPlayer, with Rooms.FullRoomHoldsTable proving a full room fills every seat) |
