/**
 * The game engine of backend/game_logic.py (class Game): a board written cell by
 * cell, the players' hands, the turn, and the end of the game.
 */
module GameLogic {
  import opened Wrappers
  import opened Pieces
  import opened Rules

  /** One record of placed_pieces. */
  datatype Placement = Placement(pieceId: string, position: (int, int), rotation: int, flip: bool, coords: Shape)

  /** A seated player: socket id, hand, placed pieces and the first_move flag. */
  datatype PlayerState = PlayerState(id: string, pieces: seq<string>, placed: seq<Placement>, firstMove: bool)

  /** Why place_piece fails, in the order it checks. */
  datatype PlaceError = GameIsOver | NotYourTurn | NoSuchPlayer | PieceNotInHand | UnknownPiece | Invalid(reason: Reason)

  datatype Outcome = Success | Failure(error: PlaceError)

  /** The ids of the placed pieces, in placing order. */
  function PlacedIds(placed: seq<Placement>): (ids: seq<string>)
    ensures |ids| == |placed|
    ensures forall i :: 0 <= i < |placed| ==> ids[i] == placed[i].pieceId
  {
    if placed == [] then [] else [placed[0].pieceId] + PlacedIds(placed[1..])
  }

  /**
   * A player's pieces are the catalog split between hand and board: each id is in
   * exactly one of the two, and the first move is still to come exactly when
   * nothing has been placed.
   */
  predicate Accounted(ps: PlayerState, full: seq<string>)
  {
    multiset(ps.pieces) + multiset(PlacedIds(ps.placed)) == multiset(full) &&
    (ps.firstMove <==> ps.placed == [])
  }

  /** Every seated player's pieces split the dealt hand. */
  predicate AllAccounted(players: map<int, PlayerState>, full: seq<string>)
  {
    forall p :: p in players ==> Accounted(players[p], full)
  }

  /** No covered cell of before is changed in after: a stone once placed stays. */
  predicate KeepsCovered(before: Board, after: Board, n: int)
    requires IsBoard(before, n) && IsBoard(after, n)
  {
    forall y, x :: 0 <= y < n && 0 <= x < n && before[y][x] != 0 ==> after[y][x] == before[y][x]
  }

  /** Every covered cell of the board belongs to a seated player. */
  predicate OwnersSeated(board: Board, n: int, players: map<int, PlayerState>)
    requires IsBoard(board, n)
  {
    forall y, x :: 0 <= y < n && 0 <= x < n ==> board[y][x] == 0 || board[y][x] in players
  }

  /** list.remove: the list without the first occurrence of x. */
  function RemoveFirst(s: seq<string>, x: string): (r: seq<string>)
    requires x in s
    ensures |r| == |s| - 1
    ensures multiset(r) == multiset(s) - multiset{x}
  {
    assert s == [s[0]] + s[1..];
    if s[0] == x then s[1..] else [s[0]] + RemoveFirst(s[1..], x)
  }

  /** The board with every cell of t set to p and every other cell as it was. */
  function Stamped(board: Board, n: int, t: Shape, p: int): (b: Board)
    requires IsBoard(board, n)
    ensures IsBoard(b, n)
  {
    seq(n, y requires 0 <= y < n => seq(n, x requires 0 <= x < n => if (x, y) in t then p else board[y][x]))
  }

  /** get_scores: every seated player's cells still in hand (lower is better). */
  function ScoresOf(table: map<string, Piece>, players: map<int, PlayerState>): (scores: map<int, nat>)
    ensures scores.Keys == players.Keys
    ensures scores == map[] <==> players == map[]
  {
    map p | p in players :: CellTotal(table, players[p].pieces)
  }

  /** A player's state after placing pieceId: out of the hand, on the placed list, first move done. */
  function AfterPlacing(ps: PlayerState, pieceId: string, x0: int, y0: int, rotation: int, flip: bool, coords: Shape): (q: PlayerState)
    requires pieceId in ps.pieces
    ensures q.id == ps.id && !q.firstMove
    ensures multiset(q.pieces) + multiset{pieceId} == multiset(ps.pieces)
    ensures PlacedIds(q.placed) == PlacedIds(ps.placed) + [pieceId]
  {
    PlacedIdsAppend(ps.placed, Placement(pieceId, (x0, y0), rotation, flip, coords));
    assert pieceId in multiset(ps.pieces);
    PlayerState(ps.id, RemoveFirst(ps.pieces, pieceId),
                ps.placed + [Placement(pieceId, (x0, y0), rotation, flip, coords)], false)
  }

  /** The first_move flag of player p, or None when p is not seated. */
  function FirstMoveOf(players: map<int, PlayerState>, p: int): Option<bool>
  {
    if p in players then Some(players[p].firstMove) else None
  }

  /** Player p is seated and still has a move. */
  ghost predicate CanMove(board: Board, n: int, maxPlayers: int, table: map<string, Piece>,
                          players: map<int, PlayerState>, p: int)
    requires IsBoard(board, n) && ValidTable(table)
  {
    p in players && HasMove(board, n, maxPlayers, table, players[p].pieces, p, Some(players[p].firstMove))
  }

  /** The seated players who still have a move. */
  ghost function Movers(board: Board, n: int, maxPlayers: int, table: map<string, Piece>,
                        players: map<int, PlayerState>): (movers: set<int>)
    requires IsBoard(board, n) && ValidTable(table)
    ensures forall p :: p in movers <==> CanMove(board, n, maxPlayers, table, players, p)
  {
    set p | p in players && CanMove(board, n, maxPlayers, table, players, p)
  }

  /** k turns on from c is the first seat that can move, and k is short of a full round. */
  ghost predicate SkipsTo(c: int, k: int, maxPlayers: int, movers: set<int>)
    requires maxPlayers >= 1
  {
    1 <= k < maxPlayers && Cycle(c, k, maxPlayers) in movers &&
    forall j :: 1 <= j < k ==> Cycle(c, j, maxPlayers) !in movers
  }

  /**
   * check_game_over as a function of the state it sees: the new (current player,
   * game over, winner). Nobody can move: the game ends. The current player can
   * move: nothing changes. Otherwise the turn passes to the next seat that can
   * move, and if a full round finds none the game ends.
   */
  ghost function Settle(movers: set<int>, scores: map<int, nat>, maxPlayers: int,
                        current: int, over: bool, winner: Winner): (r: (int, bool, Winner))
    requires maxPlayers >= 1 && scores != map[]
    ensures over ==> r.1
    ensures movers == {} ==> r.1 && r.2 == WinnerOf(scores)
    ensures !r.1 ==> r.2 == winner
    ensures r.1 && !over ==> r.2 == WinnerOf(scores)
  {
    if movers == {} then (current, true, WinnerOf(scores))
    else if current in movers then (current, over, winner)
    else if exists k :: SkipsTo(current, k, maxPlayers, movers) then
      var k :| SkipsTo(current, k, maxPlayers, movers);
      (Cycle(current, k, maxPlayers), over, winner)
    else (Cycle(current, maxPlayers, maxPlayers), true, WinnerOf(scores))
  }

  /** The seat settled on is unique: two first movers in the cycle coincide. */
  lemma SkipsToUnique(c: int, k1: int, k2: int, maxPlayers: int, movers: set<int>)
    requires maxPlayers >= 1
    requires SkipsTo(c, k1, maxPlayers, movers) && SkipsTo(c, k2, maxPlayers, movers)
    ensures k1 == k2
  {
  }

  /** When k turns on is the first seat that can move, settling hands the turn there and nothing else changes. */
  lemma SettleSkips(movers: set<int>, scores: map<int, nat>, maxPlayers: int, current: int, over: bool, winner: Winner, k: int)
    requires maxPlayers >= 1 && scores != map[] && movers != {} && current !in movers
    requires SkipsTo(current, k, maxPlayers, movers)
    ensures Settle(movers, scores, maxPlayers, current, over, winner) == (Cycle(current, k, maxPlayers), over, winner)
  {
    forall k1 | SkipsTo(current, k1, maxPlayers, movers)
      ensures k1 == k
    {
      SkipsToUnique(current, k1, k, maxPlayers, movers);
    }
  }

  /**
   * After settling, a game that goes on leaves the turn with a player who can
   * move; and when every seated number is a seat of the cycle, the game ends only
   * when nobody can move.
   */
  lemma SettleOutcome(movers: set<int>, scores: map<int, nat>, maxPlayers: int, current: int, over: bool, winner: Winner)
    requires maxPlayers >= 1 && scores != map[] && 1 <= current <= maxPlayers
    requires !over
    requires forall p :: p in movers ==> 1 <= p <= maxPlayers
    ensures var (c, o, w) := Settle(movers, scores, maxPlayers, current, over, winner);
      (!o ==> c in movers && w == winner) && (o <==> movers == {}) && (o ==> w == WinnerOf(scores))
  {
    if movers != {} && current !in movers {
      SomeMember(movers);
      var s :| s in movers;
      CycleReaches(current, s, maxPlayers);
      var k :| 0 <= k < maxPlayers && Cycle(current, k, maxPlayers) == s;
      assert k != 0 by {
        CycleZero(current, maxPlayers);
      }
      FirstMover(current, k, maxPlayers, movers);
      var first :| SkipsTo(current, first, maxPlayers, movers);
      SettleSkips(movers, scores, maxPlayers, current, over, winner, first);
    }
  }

  /** If some seat within a round can move, there is a first such seat. */
  lemma {:induction false} FirstMover(c: int, k: int, maxPlayers: int, movers: set<int>)
    requires maxPlayers >= 1 && 1 <= k < maxPlayers && Cycle(c, k, maxPlayers) in movers
    ensures exists k' :: SkipsTo(c, k', maxPlayers, movers)
    decreases k
  {
    if forall j :: 1 <= j < k ==> Cycle(c, j, maxPlayers) !in movers {
      assert SkipsTo(c, k, maxPlayers, movers);
    } else {
      var j :| 1 <= j < k && Cycle(c, j, maxPlayers) in movers;
      FirstMover(c, j, maxPlayers, movers);
    }
  }

  /** A position list found by get_valid_positions: exactly the anchors on the board that pass the check, in scan order. */
  ghost predicate ExactAnchors(board: Board, n: int, maxPlayers: int, cells: Shape, p: int, firstMove: Option<bool>,
                         positions: seq<(int, int)>)
    requires IsBoard(board, n)
  {
    (forall a :: a in positions <==>
       0 <= a.0 < n && 0 <= a.1 < n && Validate(board, n, maxPlayers, cells, a.0, a.1, p, firstMove) == Accept) &&
    AnchorsAscending(positions)
  }


  /**
   * The answer place_piece gives before it changes anything, in the order it
   * checks: the game is over, it is not p's turn, p is not seated, the piece is
   * not in p's hand, the table does not know the piece, the position is refused.
   * None: the placement goes ahead.
   */
  function Refusal(over: bool, current: int, board: Board, n: int, maxPlayers: int, table: map<string, Piece>,
                   players: map<int, PlayerState>, p: int, pieceId: string, x0: int, y0: int,
                   rotation: int, flip: bool): (r: Option<PlaceError>)
    requires IsBoard(board, n) && ValidTable(table)
    ensures over ==> r == Some(GameIsOver)
    ensures r == Some(NotYourTurn) <==> !over && current != p
    ensures r.Some? && r.value.Invalid? ==> !over && current == p && p in players && pieceId in players[p].pieces && pieceId in table
    ensures r != Some(Invalid(UnknownPlayer))
  {
    if over then Some(GameIsOver)
    else if current != p then Some(NotYourTurn)
    else if p !in players then Some(NoSuchPlayer)
    else if pieceId !in players[p].pieces then Some(PieceNotInHand)
    else
      var coords := TransformIn(table, pieceId, rotation, flip);
      if coords.None? then Some(UnknownPiece)
      else match Validate(board, n, maxPlayers, coords.value, x0, y0, p, FirstMoveOf(players, p))
        case Accept => None
        case Reject(reason) => Some(Invalid(reason))
  }

  /**
   * place_piece goes ahead exactly when the game is on, it is p's turn, p holds a
   * piece the table knows, and the piece's cells are on the board and empty, touch
   * none of p's cells along an edge, and cover p's start corner on a first move or
   * touch a cell of p at a corner afterwards.
   */
  lemma PlacementAllowed(over: bool, current: int, board: Board, n: int, maxPlayers: int, table: map<string, Piece>,
                         players: map<int, PlayerState>, p: int, pieceId: string, x0: int, y0: int,
                         rotation: int, flip: bool)
    requires IsBoard(board, n) && ValidTable(table)
    ensures Refusal(over, current, board, n, maxPlayers, table, players, p, pieceId, x0, y0, rotation, flip).None? <==>
      !over && current == p && p in players && pieceId in players[p].pieces && pieceId in table &&
      var t := Translate(TransformIn(table, pieceId, rotation, flip).value, x0, y0);
      (forall i :: 0 <= i < |t| ==> Free(board, n, t[i])) &&
      !TouchesEdge(board, n, t, p) &&
      (if players[p].firstMove
       then StartCorner(maxPlayers, n, p).None? || StartCorner(maxPlayers, n, p).value in t
       else TouchesCorner(board, n, t, p))
  {
    if !over && current == p && p in players && pieceId in players[p].pieces && pieceId in table {
      var coords := TransformIn(table, pieceId, rotation, flip);
      ValidateAccepts(board, n, maxPlayers, coords.value, x0, y0, p, FirstMoveOf(players, p));
    }
  }

  /** Replacing a seated player's state seats nobody new. */
  lemma UpdateKeepsKeys(players: map<int, PlayerState>, p: int, ps: PlayerState)
    requires p in players
    ensures players[p := ps].Keys == players.Keys
  {
  }

  /** The placed list grows by the new record's id. */
  lemma PlacedIdsAppend(placed: seq<Placement>, r: Placement)
    ensures PlacedIds(placed + [r]) == PlacedIds(placed) + [r.pieceId]
  {
    assert forall i :: 0 <= i < |placed| ==> (placed + [r])[i] == placed[i];
  }

  /** Placing a piece keeps the hand and the placed list a split of the dealt pieces, and ends the first move. */
  lemma AccountedAfterPlacing(ps: PlayerState, full: seq<string>, pieceId: string, x0: int, y0: int,
                              rotation: int, flip: bool, coords: Shape)
    requires Accounted(ps, full) && pieceId in ps.pieces
    ensures Accounted(AfterPlacing(ps, pieceId, x0, y0, rotation, flip, coords), full)
    ensures !AfterPlacing(ps, pieceId, x0, y0, rotation, flip, coords).firstMove
  {
    var r := Placement(pieceId, (x0, y0), rotation, flip, coords);
    PlacedIdsAppend(ps.placed, r);
    assert multiset(PlacedIds(ps.placed + [r])) == multiset(PlacedIds(ps.placed)) + multiset{pieceId};
    assert pieceId in multiset(ps.pieces);
  }

  /** A player's cells in hand and cells on the board always add up to the cells of the dealt pieces. */
  lemma {:induction false} CellsAccounted(table: map<string, Piece>, ps: PlayerState, full: seq<string>)
    requires Accounted(ps, full)
    ensures CellTotal(table, ps.pieces) + CellTotal(table, PlacedIds(ps.placed)) == CellTotal(table, full)
  {
    CellTotalAppend(table, ps.pieces, PlacedIds(ps.placed));
    CellTotalPermutation(table, ps.pieces + PlacedIds(ps.placed), full);
  }

  /** Pieces in hand and pieces placed together number the dealt hand. */
  lemma HandPlusPlaced(ps: PlayerState, full: seq<string>)
    requires Accounted(ps, full)
    ensures |ps.pieces| + |ps.placed| == |full|
  {
    assert |multiset(ps.pieces) + multiset(PlacedIds(ps.placed))| == |multiset(full)|;
  }

  /** With the catalog dealt, a player's score and the cells on the board add up to 89. */
  lemma ScoreAccounting(ps: PlayerState)
    requires Accounted(ps, GetPlayerPieces())
    ensures CellTotal(PIECES, ps.pieces) + CellTotal(PIECES, PlacedIds(ps.placed)) == 89
  {
    CellsAccounted(PIECES, ps, GetPlayerPieces());
    CatalogTotal();
  }

  /** Taking a piece out of the hand lowers its score by exactly that piece's size. */
  lemma {:induction false} ScoreAfterRemoval(table: map<string, Piece>, hand: seq<string>, pieceId: string)
    requires pieceId in hand
    ensures CellTotal(table, RemoveFirst(hand, pieceId)) + SizeOf(table, pieceId) == CellTotal(table, hand)
  {
    var rest := RemoveFirst(hand, pieceId);
    assert multiset(rest + [pieceId]) == multiset(hand);
    CellTotalPermutation(table, rest + [pieceId], hand);
    CellTotalAppend(table, rest, [pieceId]);
    assert [pieceId][1..] == [];
  }

  /**
   * Stamping empty cells leaves every covered cell as it was, and the cells of p
   * afterwards are p's earlier cells and the stamped ones.
   */
  lemma StampKeepsCovered(board: Board, n: int, t: Shape, p: int)
    requires IsBoard(board, n)
    requires forall i :: 0 <= i < |t| ==> Free(board, n, t[i])
    ensures forall y, x :: 0 <= y < n && 0 <= x < n && board[y][x] != 0 ==> Stamped(board, n, t, p)[y][x] == board[y][x]
    ensures forall y, x :: 0 <= y < n && 0 <= x < n ==>
      (Stamped(board, n, t, p)[y][x] == p <==> board[y][x] == p || (x, y) in t)
  {
    forall y, x | 0 <= y < n && 0 <= x < n && board[y][x] != 0
      ensures (x, y) !in t
    {
      forall i | 0 <= i < |t| ensures t[i] != (x, y) {
        assert Free(board, n, t[i]);
      }
    }
  }

  /** An accepted placement lies on empty cells of the board. */
  lemma AcceptedCellsFree(board: Board, n: int, maxPlayers: int, cells: Shape, x0: int, y0: int, p: int,
                          firstMove: Option<bool>)
    requires IsBoard(board, n)
    requires Validate(board, n, maxPlayers, cells, x0, y0, p, firstMove) == Accept
    ensures forall i :: 0 <= i < |cells| ==> Free(board, n, Translate(cells, x0, y0)[i])
  {
    ValidateAccepts(board, n, maxPlayers, cells, x0, y0, p, firstMove);
  }

  /** Two boards of side n that agree on every cell are equal. */
  lemma BoardsEqual(a: Board, b: Board, n: int)
    requires IsBoard(a, n) && IsBoard(b, n)
    requires forall y, x :: 0 <= y < n && 0 <= x < n ==> a[y][x] == b[y][x]
    ensures a == b
  {
    forall y | 0 <= y < n ensures a[y] == b[y] {
    }
  }


  class Game {
    var maxPlayers: int
    var boardSize: int
    var board: Board
    var players: map<int, PlayerState>
    var currentPlayer: int
    var gameOver: bool
    var winner: Winner
    /** The piece table the game consults: PIECES. */
    const catalog: map<string, Piece>
    /** The hand every player is dealt: get_player_pieces(). */
    const fullHand: seq<string>

    /**
     * The state every method keeps: a square board of the side the player count
     * fixes, whose covered cells belong to seated players; a current player in
     * 1..maxPlayers; every hand and placed list splitting the catalog; and a winner
     * recorded exactly when the game is over.
     */
    ghost predicate Valid()
      reads this
    {
      maxPlayers >= 1 && ValidTable(catalog) &&
      boardSize == (if maxPlayers == 4 then 20 else 14) &&
      IsBoard(board, boardSize) && OwnersSeated(board, boardSize, players) &&
      1 <= currentPlayer <= maxPlayers &&
      AllAccounted(players, fullHand) &&
      (gameOver <==> winner != NoWinner)
    }

    /** A new game: side 20 for four players and 14 otherwise, an empty board, player 1 to move. */
    constructor(maxPlayers: int)
      requires maxPlayers >= 1
      ensures Valid()
      ensures this.maxPlayers == maxPlayers && boardSize == (if maxPlayers == 4 then 20 else 14)
      ensures forall y, x :: 0 <= y < boardSize && 0 <= x < boardSize ==> board[y][x] == 0
      ensures players == map[] && currentPlayer == 1 && !gameOver && winner == NoWinner
      ensures catalog == PIECES && fullHand == GetPlayerPieces()
    {
      CatalogEntries();
      catalog := PIECES;
      fullHand := GetPlayerPieces();
      this.maxPlayers := maxPlayers;
      var n := if maxPlayers == 4 then 20 else 14;
      boardSize := n;
      board := seq(n, y => seq(n, x => 0));
      players := map[];
      currentPlayer := 1;
      gameOver := false;
      winner := NoWinner;
    }

    /** add_player: seat (or reseat) number num with the whole catalog in hand and the first move to come. */
    method AddPlayer(id: string, num: int)
      requires Valid()
      modifies this
      ensures Valid()
      ensures players == old(players)[num := PlayerState(id, fullHand, [], true)]
      ensures board == old(board) && currentPlayer == old(currentPlayer)
      ensures gameOver == old(gameOver) && winner == old(winner)
      ensures maxPlayers == old(maxPlayers) && boardSize == old(boardSize)
    {
      assert PlacedIds([]) == [];
      players := players[num := PlayerState(id, fullHand, [], true)];
    }

    /**
     * The first loop of is_valid_position: the target cells in order, stopping at
     * the first one off the board or covered.
     */
    method FirstBlockedCell(cells: Shape, x0: int, y0: int) returns (r: Option<Reason>, placed: Shape)
      requires IsBoard(board, boardSize)
      ensures r == FirstBlocked(board, boardSize, Translate(cells, x0, y0))
      ensures r.None? ==> placed == Translate(cells, x0, y0)
    {
      ghost var t := Translate(cells, x0, y0);
      placed := [];
      var i := 0;
      while i < |cells|
        invariant 0 <= i <= |cells|
        invariant placed == t[..i]
        invariant forall j :: 0 <= j < i ==> CellCheck(board, boardSize, t[j]).None?
      {
        var x, y := x0 + cells[i].0, y0 + cells[i].1;
        if x < 0 || x >= boardSize || y < 0 || y >= boardSize {
          FirstBlockedFrom(board, boardSize, t, i);
          return Some(OutOfBounds), placed;
        }
        if board[y][x] != 0 {
          FirstBlockedFrom(board, boardSize, t, i);
          return Some(Occupied), placed;
        }
        placed := placed + [(x, y)];
        i := i + 1;
      }
      assert placed == t;
      FirstBlockedIsFirst(board, boardSize, t);
      r := None;
    }

    /**
     * The neighbour loops of is_valid_position: whether some cell of placed, moved
     * by one of the four steps, is a cell of p; the scan stops at the first hit.
     */
    method NeighbourOwned(placed: Shape, steps: seq<(int, int)>, p: int) returns (found: bool)
      requires IsBoard(board, boardSize) && |steps| == 4
      ensures found <==> exists i, k :: 0 <= i < |placed| && 0 <= k < 4 && Owns(board, boardSize, Step(placed[i], steps[k]), p)
    {
      var i := 0;
      while i < |placed|
        invariant 0 <= i <= |placed|
        invariant forall j, k :: 0 <= j < i && 0 <= k < 4 ==> !Owns(board, boardSize, Step(placed[j], steps[k]), p)
      {
        var k := 0;
        while k < 4
          invariant 0 <= k <= 4
          invariant forall k' :: 0 <= k' < k ==> !Owns(board, boardSize, Step(placed[i], steps[k']), p)
        {
          var nx, ny := placed[i].0 + steps[k].0, placed[i].1 + steps[k].1;
          if 0 <= nx < boardSize && 0 <= ny < boardSize && board[ny][nx] == p {
            assert Owns(board, boardSize, Step(placed[i], steps[k]), p);
            return true;
          }
          k := k + 1;
        }
        i := i + 1;
      }
      return false;
    }

    /**
     * is_valid_position: the cells anchored at (x0, y0) are checked one by one for
     * the board edge and for cover, then for edge contact with p's cells, then for
     * the start corner or a diagonal contact; the board is only read.
     */
    method IsValidPosition(cells: Shape, x0: int, y0: int, p: int) returns (v: Verdict)
      requires IsBoard(board, boardSize)
      ensures v == Validate(board, boardSize, maxPlayers, cells, x0, y0, p, FirstMoveOf(players, p))
    {
      var blocked, placed := FirstBlockedCell(cells, x0, y0);
      if blocked.Some? {
        return Reject(blocked.value);
      }
      var edge := NeighbourOwned(placed, EDGE_STEPS, p);
      if edge {
        return Reject(EdgeContact);
      }
      if p !in players {
        return Reject(UnknownPlayer);
      }
      if players[p].firstMove {
        if maxPlayers == 2 {
          if p == 1 {
            if (0, 0) !in placed {
              return Reject(MissingStartCorner);
            }
          } else if p == 2 {
            if (boardSize - 1, boardSize - 1) !in placed {
              return Reject(MissingStartCorner);
            }
          }
        } else {
          var cornerPositions := map[1 := (0, 0), 2 := (boardSize - 1, 0),
                                     3 := (boardSize - 1, boardSize - 1), 4 := (0, boardSize - 1)];
          if p in cornerPositions && cornerPositions[p] !in placed {
            return Reject(MissingStartCorner);
          }
        }
      } else {
        var cornerTouch := NeighbourOwned(placed, CORNER_STEPS, p);
        if !cornerTouch {
          return Reject(NoCornerContact);
        }
      }
      return Accept;
    }

    /** switch_player: the turn passes to the next seat round the table. */
    method SwitchPlayer()
      requires Valid()
      modifies this
      ensures Valid()
      ensures currentPlayer == Cycle(old(currentPlayer), 1, maxPlayers)
      ensures board == old(board) && players == old(players) && gameOver == old(gameOver) && winner == old(winner)
      ensures maxPlayers == old(maxPlayers) && boardSize == old(boardSize)
    {
      var currentIndex := currentPlayer - 1;
      var nextIndex := (currentIndex + 1) % maxPlayers;
      currentPlayer := nextIndex + 1;
    }

    /** The two anchor loops of can_player_place_any_piece: some anchor on the board accepts cells for p. */
    method AnchorSearch(cells: Shape, p: int) returns (found: bool)
      requires IsBoard(board, boardSize) && p in players
      ensures found <==> FitsSomewhere(board, boardSize, maxPlayers, cells, p, Some(players[p].firstMove))
    {
      ghost var fm := FirstMoveOf(players, p);
      var x := 0;
      while x < boardSize
        invariant 0 <= x <= boardSize
        invariant forall xx, yy :: 0 <= xx < x && 0 <= yy < boardSize ==>
          Validate(board, boardSize, maxPlayers, cells, xx, yy, p, fm) != Accept
      {
        var y := 0;
        while y < boardSize
          invariant 0 <= y <= boardSize
          invariant forall yy :: 0 <= yy < y ==> Validate(board, boardSize, maxPlayers, cells, x, yy, p, fm) != Accept
        {
          var v := IsValidPosition(cells, x, y, p);
          if v == Accept {
            return true;
          }
          y := y + 1;
        }
        x := x + 1;
      }
      return false;
    }

    /** One orientation of can_player_place_any_piece: an unknown piece is skipped, a known one is tried at every anchor. */
    method OrientationSearch(pieceId: string, rotation: int, flip: bool, p: int) returns (found: bool)
      requires IsBoard(board, boardSize) && ValidTable(catalog) && p in players
      ensures found <==> OrientationFits(board, boardSize, maxPlayers, catalog, pieceId, rotation, flip, p, Some(players[p].firstMove))
    {
      var coords := TransformIn(catalog, pieceId, rotation, flip);
      if coords.None? {
        return false;
      }
      found := AnchorSearch(coords.value, p);
    }

    /** The rotation and flip loops of can_player_place_any_piece for one piece. */
    method PieceSearch(pieceId: string, p: int) returns (found: bool)
      requires IsBoard(board, boardSize) && ValidTable(catalog) && p in players
      ensures found <==> PieceFits(board, boardSize, maxPlayers, catalog, pieceId, p, Some(players[p].firstMove))
    {
      ghost var fm := Some(players[p].firstMove);
      var r := 0;
      while r < 4
        invariant 0 <= r <= 4
        invariant forall rr, f :: 0 <= rr < r ==> !OrientationFits(board, boardSize, maxPlayers, catalog, pieceId, ROTATIONS[rr], f, p, fm)
      {
        var j := 0;
        while j < 2
          invariant 0 <= j <= 2
          invariant j >= 1 ==> !OrientationFits(board, boardSize, maxPlayers, catalog, pieceId, ROTATIONS[r], false, p, fm)
          invariant j >= 2 ==> !OrientationFits(board, boardSize, maxPlayers, catalog, pieceId, ROTATIONS[r], true, p, fm)
        {
          var flip := j == 1;
          found := OrientationSearch(pieceId, ROTATIONS[r], flip, p);
          if found {
            return;
          }
          j := j + 1;
        }
        forall rr, f | 0 <= rr < r + 1
          ensures !OrientationFits(board, boardSize, maxPlayers, catalog, pieceId, ROTATIONS[rr], f, p, fm)
        {
          if rr == r && f {
            assert !OrientationFits(board, boardSize, maxPlayers, catalog, pieceId, ROTATIONS[r], true, p, fm);
          }
        }
        r := r + 1;
      }
      return false;
    }

    /** can_player_place_any_piece: p is seated and some piece of p's hand fits somewhere. */
    method CanPlayerPlaceAnyPiece(p: int) returns (b: bool)
      requires IsBoard(board, boardSize) && ValidTable(catalog)
      ensures b <==> p in players && HasMove(board, boardSize, maxPlayers, catalog, players[p].pieces, p, Some(players[p].firstMove))
    {
      if p !in players {
        return false;
      }
      var remaining := players[p].pieces;
      var i := 0;
      while i < |remaining|
        invariant 0 <= i <= |remaining|
        invariant forall j :: 0 <= j < i ==> !PieceFits(board, boardSize, maxPlayers, catalog, remaining[j], p, Some(players[p].firstMove))
      {
        b := PieceSearch(remaining[i], p);
        if b {
          return;
        }
        i := i + 1;
      }
      return false;
    }

    /**
     * get_scores: each seated player's cells still in hand. The source keys the
     * result by the player number written as a string; here by the number.
     */
    method GetScores() returns (scores: map<int, nat>)
      ensures scores == ScoresOf(catalog, players)
    {
      scores := map[];
      var todo := players.Keys;
      while todo != {}
        invariant todo <= players.Keys
        invariant scores.Keys == players.Keys - todo
        invariant forall q :: q in scores ==> scores[q] == CellTotal(catalog, players[q].pieces)
        decreases |todo|
      {
        SomeMember(todo);
        var q :| q in todo;
        scores := scores[q := CellTotal(catalog, players[q].pieces)];
        todo := todo - {q};
      }
      ghost var spec := ScoresOf(catalog, players);
      assert scores.Keys == spec.Keys;
      assert forall q :: q in scores ==> scores[q] == spec[q];
    }

    /**
     * The computation of determine_winner: the player with the fewest cells left,
     * or a tie when the fewest is shared. Python's min() raises on no players,
     * hence the precondition.
     */
    method FindWinner() returns (w: Winner)
      requires players != map[]
      ensures w == WinnerOf(ScoresOf(catalog, players))
    {
      var playerScores := GetScores();
      var minRemaining, leader := LowestScore(playerScores);
      var winners := ScoreHolders(playerScores, minRemaining);
      assert Leader(playerScores, leader);
      if |winners| == 1 {
        assert StrictLeader(playerScores, winners[0]);
        StrictLeaderIsWinner(playerScores, winners[0]);
        w := Won(winners[0]);
      } else {
        assert leader in winners;
        assert |winners| != 0 && |winners| != 1;
        ghost var other := if winners[0] == leader then winners[1] else winners[0];
        assert other in winners && other != leader;
        assert playerScores[other] == playerScores[leader];
        forall q | q in playerScores
          ensures !StrictLeader(playerScores, q)
        {
          if q == leader {
            assert other in playerScores && playerScores[leader] <= playerScores[other];
          } else {
            assert playerScores[leader] <= playerScores[q];
          }
        }
        w := Tie;
      }
    }

    /** min(player_scores.values()): the fewest cells any player has left, and a player who has that few. */
    static method LowestScore(playerScores: map<int, nat>) returns (minRemaining: nat, ghost leader: int)
      requires playerScores != map[]
      ensures minRemaining in playerScores.Values
      ensures forall q :: q in playerScores ==> minRemaining <= playerScores[q]
      ensures Leader(playerScores, leader) && playerScores[leader] == minRemaining
    {
      SomeKey(playerScores);
      var first :| first in playerScores;
      minRemaining := playerScores[first];
      leader := first;
      var todo := playerScores.Keys - {first};
      while todo != {}
        invariant todo <= playerScores.Keys
        invariant leader in playerScores && playerScores[leader] == minRemaining
        invariant forall q :: q in playerScores && q !in todo ==> minRemaining <= playerScores[q]
        decreases |todo|
      {
        SomeMember(todo);
        var q :| q in todo;
        if playerScores[q] < minRemaining {
          minRemaining := playerScores[q];
          leader := q;
        }
        todo := todo - {q};
      }
    }

    /** The winners list of determine_winner: every player whose score is the given one, each once. */
    static method ScoreHolders(playerScores: map<int, nat>, score: nat) returns (winners: seq<int>)
      ensures Distinct(winners)
      ensures forall q :: q in winners <==> q in playerScores && playerScores[q] == score
    {
      winners := [];
      var todo := playerScores.Keys;
      while todo != {}
        invariant todo <= playerScores.Keys
        invariant Distinct(winners)
        invariant forall q :: q in winners <==> q in playerScores && q !in todo && playerScores[q] == score
        decreases |todo|
      {
        SomeMember(todo);
        var q :| q in todo;
        if playerScores[q] == score {
          winners := winners + [q];
        }
        todo := todo - {q};
      }
    }

    /** determine_winner: records the winner of the remaining-cell scores. */
    method DetermineWinner()
      requires players != map[]
      modifies this
      ensures board == old(board) && players == old(players) && currentPlayer == old(currentPlayer)
      ensures winner == WinnerOf(ScoresOf(catalog, players))
      ensures gameOver == old(gameOver) && maxPlayers == old(maxPlayers) && boardSize == old(boardSize)
    {
      winner := FindWinner();
    }

    /**
     * The first loop of check_game_over: the seated players that can still move
     * (the numbers players_can_play maps to True), and whether there are none.
     */
    method PlayersCanPlay() returns (canPlay: set<int>, allFinished: bool)
      requires IsBoard(board, boardSize) && ValidTable(catalog)
      ensures canPlay == Movers(board, boardSize, maxPlayers, catalog, players)
      ensures allFinished <==> canPlay == {}
    {
      ghost var movers := Movers(board, boardSize, maxPlayers, catalog, players);
      canPlay := {};
      allFinished := true;
      var todo := players.Keys;
      while todo != {}
        invariant todo <= players.Keys
        invariant forall q :: q in canPlay <==> q in movers && q !in todo
        invariant allFinished <==> canPlay == {}
        decreases |todo|
      {
        SomeMember(todo);
        var q :| q in todo;
        var b := CanPlayerPlaceAnyPiece(q);
        if b {
          canPlay := canPlay + {q};
          allFinished := false;
        }
        todo := todo - {q};
      }
      assert forall q :: q in canPlay <==> q in movers;
    }

    /**
     * The skipping loop of check_game_over: switch_player up to a full round,
     * stopping at the first seat in canPlay. It stops short of a full round
     * exactly when some seat within the round can play.
     */
    method SkipToPlayable(canPlay: set<int>) returns (attempts: int)
      requires Valid() && currentPlayer !in canPlay
      modifies this
      ensures Valid()
      ensures board == old(board) && players == old(players) && gameOver == old(gameOver) && winner == old(winner)
      ensures maxPlayers == old(maxPlayers) && boardSize == old(boardSize)
      ensures 1 <= attempts <= maxPlayers
      ensures currentPlayer == Cycle(old(currentPlayer), attempts, maxPlayers)
      ensures attempts < maxPlayers ==> SkipsTo(old(currentPlayer), attempts, maxPlayers, canPlay)
      ensures attempts >= maxPlayers <==> !exists k :: SkipsTo(old(currentPlayer), k, maxPlayers, canPlay)
    {
      ghost var c0 := currentPlayer;
      attempts := 0;
      var found := false;
      CycleZero(c0, maxPlayers);
      while attempts < maxPlayers && !found
        invariant 0 <= attempts <= maxPlayers
        invariant Valid()
        invariant board == old(board) && players == old(players) && gameOver == old(gameOver) && winner == old(winner)
        invariant maxPlayers == old(maxPlayers) && boardSize == old(boardSize)
        invariant currentPlayer == Cycle(c0, attempts, maxPlayers)
        invariant found ==> 1 <= attempts && currentPlayer in canPlay
        invariant forall j :: 1 <= j < attempts ==> Cycle(c0, j, maxPlayers) !in canPlay
        invariant !found && 1 <= attempts ==> Cycle(c0, attempts, maxPlayers) !in canPlay
        decreases maxPlayers - attempts
      {
        CycleAdd(c0, attempts, 1, maxPlayers);
        SwitchPlayer();
        attempts := attempts + 1;
        if currentPlayer in canPlay {
          found := true;
        }
      }
      if found {
        CycleFullRound(c0, maxPlayers);
        assert attempts < maxPlayers;
        assert SkipsTo(c0, attempts, maxPlayers, canPlay);
      } else {
        assert forall j :: 1 <= j < maxPlayers ==> Cycle(c0, j, maxPlayers) !in canPlay;
      }
    }

    /**
     * check_game_over: the game ends when nobody can move; otherwise a current
     * player who cannot move is skipped, seat by seat, up to a full round, and
     * a full round without a mover also ends the game.
     */
    method CheckGameOver()
      requires Valid() && players != map[]
      modifies this
      ensures Valid()
      ensures board == old(board) && players == old(players)
      ensures maxPlayers == old(maxPlayers) && boardSize == old(boardSize)
      ensures (currentPlayer, gameOver, winner) ==
        Settle(Movers(board, boardSize, maxPlayers, catalog, players), ScoresOf(catalog, players), maxPlayers,
               old(currentPlayer), old(gameOver), old(winner))
    {
      var playersCanPlay, allFinished := PlayersCanPlay();
      if allFinished {
        gameOver := true;
        DetermineWinner();
        return;
      }
      if currentPlayer !in playersCanPlay {
        ghost var c0 := currentPlayer;
        var attempts := SkipToPlayable(playersCanPlay);
        if attempts < maxPlayers {
          SettleSkips(playersCanPlay, ScoresOf(catalog, players), maxPlayers, c0, gameOver, winner, attempts);
        }
        if attempts >= maxPlayers {
          gameOver := true;
          DetermineWinner();
        }
      }
    }

    /** The stamping loop of place_piece: every cell of coords anchored at (x0, y0) becomes p's. */
    method StampCells(coords: Shape, x0: int, y0: int, p: int)
      requires IsBoard(board, boardSize)
      requires forall i :: 0 <= i < |coords| ==> InBounds(boardSize, Translate(coords, x0, y0)[i])
      modifies this
      ensures maxPlayers == old(maxPlayers) && boardSize == old(boardSize)
      ensures board == Stamped(old(board), boardSize, Translate(coords, x0, y0), p)
      ensures players == old(players) && currentPlayer == old(currentPlayer)
      ensures gameOver == old(gameOver) && winner == old(winner)
    {
      ghost var t := Translate(coords, x0, y0);
      ghost var b0 := board;
      var i := 0;
      while i < |coords|
        invariant 0 <= i <= |coords|
        invariant maxPlayers == old(maxPlayers) && boardSize == old(boardSize)
        invariant players == old(players) && currentPlayer == old(currentPlayer)
        invariant gameOver == old(gameOver) && winner == old(winner)
        invariant IsBoard(board, boardSize) && IsBoard(b0, boardSize)
        invariant forall y, x :: 0 <= y < boardSize && 0 <= x < boardSize ==>
          board[y][x] == if (x, y) in t[..i] then p else b0[y][x]
      {
        var x, y := x0 + coords[i].0, y0 + coords[i].1;
        assert t[i] == (x, y) && InBounds(boardSize, t[i]);
        assert t[..i + 1] == t[..i] + [t[i]];
        board := board[y := board[y][x := p]];
        i := i + 1;
      }
      assert t[..i] == t;
      BoardsEqual(board, Stamped(b0, boardSize, t, p), boardSize);
    }

    /**
     * The changes place_piece makes once the checks pass: the cells are stamped,
     * the piece leaves the hand, joins the placed list, and the first move is over.
     */
    method Commit(p: int, pieceId: string, x0: int, y0: int, rotation: int, flip: bool, coords: Shape)
      requires Valid() && p in players && pieceId in players[p].pieces
      requires Validate(board, boardSize, maxPlayers, coords, x0, y0, p, Some(players[p].firstMove)) == Accept
      modifies this
      ensures maxPlayers == old(maxPlayers) && boardSize == old(boardSize)
      ensures Valid()
      ensures board == Stamped(old(board), boardSize, Translate(coords, x0, y0), p)
      ensures players == old(players)[p := AfterPlacing(old(players)[p], pieceId, x0, y0, rotation, flip, coords)]
      ensures players.Keys == old(players.Keys)
      ensures KeepsCovered(old(board), board, boardSize)
      ensures currentPlayer == old(currentPlayer) && gameOver == old(gameOver) && winner == old(winner)
    {
      AcceptedCellsFree(board, boardSize, maxPlayers, coords, x0, y0, p, Some(players[p].firstMove));
      StampPiece(Translate(coords, x0, y0), coords, x0, y0, p);
      RecordPlacement(p, pieceId, x0, y0, rotation, flip, coords);
    }

    /** The stamping of place_piece on empty cells, for a seated player: covered cells stay as they were. */
    method StampPiece(t: Shape, coords: Shape, x0: int, y0: int, p: int)
      requires Valid() && p in players && t == Translate(coords, x0, y0)
      requires forall i :: 0 <= i < |t| ==> Free(board, boardSize, t[i])
      modifies this
      ensures maxPlayers == old(maxPlayers) && boardSize == old(boardSize)
      ensures Valid()
      ensures board == Stamped(old(board), boardSize, t, p)
      ensures KeepsCovered(old(board), board, boardSize)
      ensures players == old(players) && currentPlayer == old(currentPlayer)
      ensures gameOver == old(gameOver) && winner == old(winner)
    {
      StampKeepsCovered(board, boardSize, t, p);
      StampCells(coords, x0, y0, p);
    }

    /** The bookkeeping of place_piece: the piece leaves p's hand, joins p's placed list, and the first move is over. */
    method RecordPlacement(p: int, pieceId: string, x0: int, y0: int, rotation: int, flip: bool, coords: Shape)
      requires Valid() && p in players && pieceId in players[p].pieces
      modifies this
      ensures maxPlayers == old(maxPlayers) && boardSize == old(boardSize)
      ensures Valid()
      ensures players == old(players)[p := AfterPlacing(old(players)[p], pieceId, x0, y0, rotation, flip, coords)]
      ensures players.Keys == old(players.Keys)
      ensures board == old(board) && currentPlayer == old(currentPlayer)
      ensures gameOver == old(gameOver) && winner == old(winner)
    {
      var ps := players[p];
      AccountedAfterPlacing(ps, fullHand, pieceId, x0, y0, rotation, flip, coords);
      UpdateKeepsKeys(players, p, AfterPlacing(ps, pieceId, x0, y0, rotation, flip, coords));
      players := players[p := AfterPlacing(ps, pieceId, x0, y0, rotation, flip, coords)];
    }

    /**
     * The guards of place_piece, in its order; when all pass, the transformed
     * cells the placement uses.
     */
    method CheckPlacement(p: int, pieceId: string, x0: int, y0: int, rotation: int, flip: bool)
      returns (refusal: Option<PlaceError>, coords: Shape)
      requires IsBoard(board, boardSize) && ValidTable(catalog)
      ensures refusal == Refusal(gameOver, currentPlayer, board, boardSize, maxPlayers, catalog, players,
                                 p, pieceId, x0, y0, rotation, flip)
      ensures refusal.None? ==>
        !gameOver && currentPlayer == p &&
        p in players && pieceId in players[p].pieces && pieceId in catalog &&
        coords == TransformIn(catalog, pieceId, rotation, flip).value &&
        Validate(board, boardSize, maxPlayers, coords, x0, y0, p, Some(players[p].firstMove)) == Accept
    {
      coords := [];
      if gameOver {
        return Some(GameIsOver), coords;
      }
      if currentPlayer != p {
        return Some(NotYourTurn), coords;
      }
      if p !in players {
        return Some(NoSuchPlayer), coords;
      }
      if pieceId !in players[p].pieces {
        return Some(PieceNotInHand), coords;
      }
      var pieceCoords := TransformIn(catalog, pieceId, rotation, flip);
      if pieceCoords.None? {
        return Some(UnknownPiece), coords;
      }
      coords := pieceCoords.value;
      var v := IsValidPosition(coords, x0, y0, p);
      if v.Reject? {
        return Some(Invalid(v.reason)), coords;
      }
      refusal := None;
    }

    /**
     * place_piece: refused, with the first reason in the source's order and nothing
     * changed; or the piece is stamped, leaves the hand, the turn passes on and the
     * end of the game is checked. No covered cell is ever overwritten.
     */
    method PlacePiece(p: int, pieceId: string, x0: int, y0: int, rotation: int, flip: bool) returns (r: Outcome)
      requires Valid()
      modifies this
      ensures Valid()
      ensures maxPlayers == old(maxPlayers) && boardSize == old(boardSize)
      ensures r.Failure? <==> Refusal(old(gameOver), old(currentPlayer), old(board), boardSize, maxPlayers, catalog,
                                      old(players), p, pieceId, x0, y0, rotation, flip).Some?
      ensures r.Failure? ==>
        r.error == Refusal(old(gameOver), old(currentPlayer), old(board), boardSize, maxPlayers, catalog,
                           old(players), p, pieceId, x0, y0, rotation, flip).value &&
        board == old(board) && players == old(players) &&
        currentPlayer == old(currentPlayer) && gameOver == old(gameOver) && winner == old(winner)
      ensures r.Success? ==> p in old(players) && pieceId in old(players)[p].pieces && pieceId in catalog
      ensures r.Success? ==>
        board == Stamped(old(board), boardSize, Translate(TransformIn(catalog, pieceId, rotation, flip).value, x0, y0), p)
      ensures r.Success? ==>
        players == old(players)[p := AfterPlacing(old(players)[p], pieceId, x0, y0, rotation, flip,
                                                  TransformIn(catalog, pieceId, rotation, flip).value)]
      ensures r.Success? ==> p in players
      ensures players.Keys == old(players.Keys)
      ensures KeepsCovered(old(board), board, boardSize)
      ensures r.Success? ==>
        (currentPlayer, gameOver, winner) ==
          Settle(Movers(board, boardSize, maxPlayers, catalog, players), ScoresOf(catalog, players), maxPlayers,
                 Cycle(p, 1, maxPlayers), false, NoWinner)
    {
      var refusal, pieceCoords := CheckPlacement(p, pieceId, x0, y0, rotation, flip);
      if refusal.Some? {
        return Failure(refusal.value);
      }
      Proceed(p, pieceId, x0, y0, rotation, flip, pieceCoords);
      return Success;
    }

    /** The rest of place_piece once the checks pass: commit the placement, switch_player, check_game_over. */
    method Proceed(p: int, pieceId: string, x0: int, y0: int, rotation: int, flip: bool, coords: Shape)
      requires Valid() && p in players && pieceId in players[p].pieces
      requires Validate(board, boardSize, maxPlayers, coords, x0, y0, p, Some(players[p].firstMove)) == Accept
      modifies this
      ensures maxPlayers == old(maxPlayers) && boardSize == old(boardSize)
      ensures Valid()
      ensures board == Stamped(old(board), boardSize, Translate(coords, x0, y0), p)
      ensures players == old(players)[p := AfterPlacing(old(players)[p], pieceId, x0, y0, rotation, flip, coords)]
      ensures p in players && players.Keys == old(players.Keys)
      ensures KeepsCovered(old(board), board, boardSize)
      ensures (currentPlayer, gameOver, winner) ==
        Settle(Movers(board, boardSize, maxPlayers, catalog, players), ScoresOf(catalog, players), maxPlayers,
               Cycle(old(currentPlayer), 1, maxPlayers), old(gameOver), old(winner))
    {
      Commit(p, pieceId, x0, y0, rotation, flip, coords);
      SwitchPlayer();
      assert p in players;
      CheckGameOver();
    }

    /**
     * get_valid_positions: every anchor on the board where the transformed piece
     * passes is_valid_position, scanned x first and then y; an unknown piece has
     * none.
     */
    method GetValidPositions(p: int, pieceId: string, rotation: int, flip: bool) returns (positions: seq<(int, int)>)
      requires IsBoard(board, boardSize) && ValidTable(catalog)
      ensures TransformIn(catalog, pieceId, rotation, flip).None? ==> positions == []
      ensures TransformIn(catalog, pieceId, rotation, flip).Some? ==>
        ExactAnchors(board, boardSize, maxPlayers, TransformIn(catalog, pieceId, rotation, flip).value, p,
                     FirstMoveOf(players, p), positions)
    {
      var pieceCoords := TransformIn(catalog, pieceId, rotation, flip);
      if pieceCoords.None? {
        return [];
      }
      positions := ScanAnchors(pieceCoords.value, p);
    }

    /** The two anchor loops of get_valid_positions, collecting every accepted anchor. */
    method ScanAnchors(cells: Shape, p: int) returns (positions: seq<(int, int)>)
      requires IsBoard(board, boardSize)
      ensures ExactAnchors(board, boardSize, maxPlayers, cells, p, FirstMoveOf(players, p), positions)
    {
      ghost var fm := FirstMoveOf(players, p);
      positions := [];
      var x := 0;
      while x < boardSize
        invariant 0 <= x <= boardSize
        invariant forall a :: a in positions <==>
          0 <= a.0 < x && 0 <= a.1 < boardSize && Validate(board, boardSize, maxPlayers, cells, a.0, a.1, p, fm) == Accept
        invariant AnchorsAscending(positions)
      {
        positions := ScanColumn(cells, p, x, positions);
        x := x + 1;
      }
    }

    /** The inner anchor loop of get_valid_positions: column x, top to bottom, appended to the anchors found so far. */
    method ScanColumn(cells: Shape, p: int, x: int, found: seq<(int, int)>) returns (positions: seq<(int, int)>)
      requires IsBoard(board, boardSize) && 0 <= x
      requires AnchorsAscending(found) && forall a :: a in found ==> a.0 < x
      ensures AnchorsAscending(positions)
      ensures forall a :: a in positions <==>
        a in found ||
        (a.0 == x && 0 <= a.1 < boardSize &&
         Validate(board, boardSize, maxPlayers, cells, a.0, a.1, p, FirstMoveOf(players, p)) == Accept)
    {
      ghost var fm := FirstMoveOf(players, p);
      positions := found;
      var y := 0;
      while y < boardSize
        invariant 0 <= y <= boardSize
        invariant forall a :: a in positions <==>
          a in found || (a.0 == x && 0 <= a.1 < y && Validate(board, boardSize, maxPlayers, cells, a.0, a.1, p, fm) == Accept)
        invariant forall a :: a in positions ==> AnchorBefore(a, (x, y))
        invariant AnchorsAscending(positions)
      {
        var v := IsValidPosition(cells, x, y, p);
        if v == Accept {
          assert forall a :: a in positions + [(x, y)] <==> a in positions || a == (x, y);
          positions := positions + [(x, y)];
        }
        y := y + 1;
      }
    }
  }

  /** When every cell before position i passes, the blocking check starts at i. */
  lemma {:induction false} FirstBlockedFrom(board: Board, n: int, t: Shape, i: int)
    requires IsBoard(board, n) && 0 <= i < |t|
    requires forall j :: 0 <= j < i ==> CellCheck(board, n, t[j]).None?
    ensures CellCheck(board, n, t[i]).Some? ==> FirstBlocked(board, n, t) == CellCheck(board, n, t[i])
  {
    if i > 0 {
      assert forall j :: 0 <= j < i - 1 ==> t[1..][j] == t[j + 1];
      FirstBlockedFrom(board, n, t[1..], i - 1);
      assert t[1..][i - 1] == t[i];
    }
  }
}
